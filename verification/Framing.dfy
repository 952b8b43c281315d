/** Frames found in a stream of bytes, whatever else shares the port and however the
    stream is cut into reads. */
module Framing {
  import opened Bytes

  const MAX_FRAME := 1024
  const RX_CHUNK := 64
  const SYNC0: u8 := 76
  const SYNC1: u8 := 75

  /** The frames taken from a buffer, in order, and the bytes that wait for more. */
  datatype Parsed = Parsed(frames: seq<seq<u8>>, left: seq<u8>)

  predicate MarkerAt(s: seq<u8>, i: nat) { i + 1 < |s| && s[i] == SYNC0 && s[i + 1] == SYNC1 }

  /** What remains from the first marker on; without one, the last byte, which may be
      the first half of a marker. */
  function FromMarker(s: seq<u8>): (r: seq<u8>)
    ensures |r| <= |s| && r == s[|s| - |r|..]
    ensures |r| <= 1 || MarkerAt(r, 0)
  {
    if |s| <= 1 || MarkerAt(s, 0) then s else FromMarker(s[1..])
  }

  /** The length that two bytes declare. */
  function Declared(s: seq<u8>): nat
    requires |s| >= 2
  {
    256 * (s[0] as int) + s[1] as int
  }

  /** What a buffer that starts at a marker holds: too little yet, a length nobody would
      send, or a whole frame. */
  datatype Found = TooLittle | BadLength | Whole(size: nat)

  function Look(s: seq<u8>): (f: Found)
    ensures !f.TooLittle? ==> |s| >= 4
    ensures f.Whole? ==> 5 <= f.size <= |s|
  {
    if |s| < 4 then TooLittle
    else
      var body := Declared(s[2..4]);
      if body < 1 || body > MAX_FRAME - 4 then BadLength
      else if |s| < 4 + body then TooLittle
      else Whole(4 + body)
  }

  /** What the receive loop does with a buffer. */
  function Consumed(buf: seq<u8>): (r: Parsed)
    ensures |r.left| <= |buf|
    decreases |buf|
  {
    var s := FromMarker(buf);
    match Look(s)
    case TooLittle => Parsed([], s)
    case BadLength => Consumed(s[2..])
    case Whole(size) => After(s[2..size], Consumed(s[size..]))
  }

  /** A frame before those of the rest. */
  function After(frame: seq<u8>, rest: Parsed): Parsed { Parsed([frame] + rest.frames, rest.left) }

  lemma {:induction false} MarkerSurvives(a: seq<u8>, b: seq<u8>)
    ensures FromMarker(a + b) == FromMarker(FromMarker(a) + b)
  {
    if |a| > 1 && !MarkerAt(a, 0) {
      assert (a + b)[1..] == a[1..] + b;
      assert (a + b)[0] == a[0] && (a + b)[1] == a[1];
      MarkerSurvives(a[1..], b);
    }
  }

  /** What was found is found again with more behind it. */
  lemma LookAgain(s: seq<u8>, b: seq<u8>)
    requires !Look(s).TooLittle?
    ensures Look(s + b) == Look(s)
  {
    assert (s + b)[2..4] == s[2..4];
  }

  /** The frames of two parts, and what the second leaves. */
  function Both(first: seq<seq<u8>>, second: Parsed): Parsed { Parsed(first + second.frames, second.left) }

  lemma BothAfter(frame: seq<u8>, first: seq<seq<u8>>, second: Parsed)
    ensures Both([frame] + first, second) == After(frame, Both(first, second))
    ensures Both([], second) == second
  {
    assert [frame] + first + second.frames == [frame] + (first + second.frames);
    assert [] + second.frames == second.frames;
  }

  /** Reading in two parts is reading at once. */
  lemma {:induction false} ConsumedInTwo(a: seq<u8>, b: seq<u8>)
    ensures Consumed(a + b) == Both(Consumed(a).frames, Consumed(Consumed(a).left + b))
    decreases |a|
  {
    hide FromMarker, Look, After, Both;
    var s := FromMarker(a);
    MarkerSurvives(a, b);
    SameFromMarker(a + b, s + b);
    if Look(s).TooLittle? {
      BothAfter([], [], Consumed(s + b));
    } else {
      LookAgain(s, b);
      AtMarker(s, b);
      ConsumedSteps(s, b);
      match Look(s)
      case BadLength =>
        ConsumedInTwo(s[2..], b);
      case Whole(size) =>
        ConsumedInTwo(s[size..], b);
        var rest := Consumed(s[size..]);
        AfterParts(s[2..size], rest);
        BothAfter(s[2..size], rest.frames, Consumed(rest.left + b));
    }
  }

  lemma AfterParts(frame: seq<u8>, rest: Parsed)
    ensures After(frame, rest).frames == [frame] + rest.frames && After(frame, rest).left == rest.left
  {}

  lemma SameFromMarker(a: seq<u8>, b: seq<u8>)
    requires FromMarker(a) == FromMarker(b)
    ensures Consumed(a) == Consumed(b)
  {
    hide FromMarker, Look;
  }

  /** A buffer that already starts at a marker stays as it is, more bytes or not. */
  lemma AtMarker(s: seq<u8>, b: seq<u8>)
    requires |s| >= 4 && MarkerAt(s, 0)
    ensures FromMarker(s + b) == s + b && FromMarker(s) == s
  {
    assert MarkerAt(s + b, 0);
  }

  lemma ConsumedSteps(s: seq<u8>, b: seq<u8>)
    requires FromMarker(s + b) == s + b && FromMarker(s) == s && Look(s + b) == Look(s)
    ensures Look(s).BadLength? ==> Consumed(s + b) == Consumed(s[2..] + b) && Consumed(s) == Consumed(s[2..])
    ensures Look(s).Whole? ==> Consumed(s + b) == After(s[2..Look(s).size], Consumed(s[Look(s).size..] + b))
    ensures Look(s).Whole? ==> Consumed(s) == After(s[2..Look(s).size], Consumed(s[Look(s).size..]))
  {
    hide FromMarker, Look, After;
    if Look(s).BadLength? {
      assert (s + b)[2..] == s[2..] + b;
    } else if Look(s).Whole? {
      var size := Look(s).size;
      assert (s + b)[2..size] == s[2..size] && (s + b)[size..] == s[size..] + b;
    }
  }

  // ------------------------------------------------------------ whole streams

  function Stream(chunks: seq<seq<u8>>): seq<u8> {
    if |chunks| == 0 then [] else Stream(chunks[..|chunks| - 1]) + chunks[|chunks| - 1]
  }

  /** The receiver after a series of reads; a read that does not fit drops everything. */
  function Pumped(chunks: seq<seq<u8>>): Parsed {
    if |chunks| == 0 then Parsed([], [])
    else
      var before := Pumped(chunks[..|chunks| - 1]);
      var chunk := chunks[|chunks| - 1];
      if |before.left| + |chunk| > MAX_FRAME then Parsed(before.frames, [])
      else Both(before.frames, Consumed(before.left + chunk))
  }

  /** No read overran the buffer. */
  predicate NoOverrun(chunks: seq<seq<u8>>) {
    |chunks| == 0
    || (NoOverrun(chunks[..|chunks| - 1])
        && |Pumped(chunks[..|chunks| - 1]).left| + |chunks[|chunks| - 1]| <= MAX_FRAME)
  }

  /** The frames found, and what waits, depend on the bytes alone. */
  lemma {:induction false} OnlyTheBytesMatter(chunks: seq<seq<u8>>)
    requires NoOverrun(chunks)
    ensures Pumped(chunks) == Consumed(Stream(chunks))
  {
    hide Consumed;
    if |chunks| == 0 {
      NothingConsumed();
    } else {
      OnlyTheBytesMatter(chunks[..|chunks| - 1]);
      ConsumedInTwo(Stream(chunks[..|chunks| - 1]), chunks[|chunks| - 1]);
    }
  }

  lemma NothingConsumed() ensures Consumed([]) == Parsed([], []) {}

  /** Two ways of cutting one stream into reads that fit give the same frames and the
      same bytes left over. */
  lemma CuttingDoesNotMatter(a: seq<seq<u8>>, b: seq<seq<u8>>)
    requires Stream(a) == Stream(b) && NoOverrun(a) && NoOverrun(b)
    ensures Pumped(a) == Pumped(b)
  {
    OnlyTheBytesMatter(a);
    OnlyTheBytesMatter(b);
  }

  /** A frame on the wire: the marker, then the frame, which declares its own length. */
  function Wire(frame: seq<u8>): seq<u8> { [SYNC0, SYNC1] + frame }

  predicate WellFormed(frame: seq<u8>) {
    |frame| >= 3 && |frame| <= MAX_FRAME - 2 && Declared(frame[..2]) == |frame| - 2
  }

  function Wires(frames: seq<seq<u8>>): seq<u8> {
    if |frames| == 0 then [] else Wire(frames[0]) + Wires(frames[1..])
  }

  predicate NoMarker(s: seq<u8>) { forall i | 0 <= i < |s| :: !MarkerAt(s, i) }

  lemma {:induction false} NoiseIsDropped(noise: seq<u8>, frame: seq<u8>, more: seq<u8>)
    requires NoMarker(noise)
    ensures FromMarker(noise + Wire(frame) + more) == Wire(frame) + more
  {
    var s := noise + Wire(frame) + more;
    if |noise| == 0 {
      assert s == Wire(frame) + more;
      assert MarkerAt(s, 0);
    } else {
      assert s[1..] == noise[1..] + Wire(frame) + more;
      assert !MarkerAt(s, 0) by {
        if |noise| > 1 { assert !MarkerAt(noise, 0) && s[0] == noise[0] && s[1] == noise[1]; } else { assert s[1] == SYNC0; }
      }
      forall i | 0 <= i < |noise[1..]| ensures !MarkerAt(noise[1..], i) { assert !MarkerAt(noise, i + 1); }
      NoiseIsDropped(noise[1..], frame, more);
    }
  }

  /** A well-formed frame behind noise without a marker is delivered intact, and the
      position after it is a position to resynchronise from. */
  lemma FrameIsDelivered(noise: seq<u8>, frame: seq<u8>, more: seq<u8>)
    requires NoMarker(noise) && WellFormed(frame)
    ensures Consumed(noise + Wire(frame) + more) == Parsed([frame] + Consumed(more).frames, Consumed(more).left)
  {
    NoiseIsDropped(noise, frame, more);
    hide FromMarker, WellFormed, Consumed, After;
    var s := Wire(frame) + more;
    FrameIsWhole(frame, more);
    AtMarker(s, []);
    assert s + [] == s;
    SameFromMarker(noise + Wire(frame) + more, s);
    ConsumedSteps(s, []);
    AfterParts(frame, Consumed(more));
  }

  lemma FrameIsWhole(frame: seq<u8>, more: seq<u8>)
    requires WellFormed(frame)
    ensures var s := Wire(frame) + more;
      |s| >= 4 && MarkerAt(s, 0) && Look(s) == Whole(2 + |frame|) && s[2..2 + |frame|] == frame && s[2 + |frame|..] == more
  {
    var s := Wire(frame) + more;
    assert s[2..4] == frame[..2];
  }

  /** In bytes: "LK", the length of the body most significant byte first, and a body of 1 to
      1020 bytes. */
  lemma FrameOnTheWire(body: seq<u8>, more: seq<u8>)
    requires 1 <= |body| <= 1020
    ensures var length: seq<u8> := [|body| / 256, |body| % 256];
      Consumed([76, 75] + (length + body) + more) == Parsed([length + body] + Consumed(more).frames, Consumed(more).left)
  {
    var length: seq<u8> := [|body| / 256, |body| % 256];
    assert (length + body)[..2] == length;
    assert WellFormed(length + body) && NoMarker([]);
    assert [] + Wire(length + body) + more == [76, 75] + (length + body) + more;
    hide *;
    FrameIsDelivered([], length + body, more);
  }

  /** And nothing else is delivered: every frame stands in the stream behind such a marker,
      with the length it declares. */
  lemma {:induction false} DeliveredStands(buf: seq<u8>, frame: seq<u8>) returns (at: nat)
    requires frame in Consumed(buf).frames
    ensures Stands(buf, at, [76, 75] + frame)
    ensures 3 <= |frame| <= 1022 && 256 * (frame[0] as int) + (frame[1] as int) == |frame| - 2
    decreases |buf|
  {
    hide *;
    var s := FromMarker(buf);
    var k := FoundHereOrLater(buf, s, frame);
    at := 0;
    if k > 0 {
      at := DeliveredStands(s[k..], frame);
      StandsFurther(s, k, at, [76, 75] + frame);
      at := k + at;
    }
    StandsFurther(buf, |buf| - |s|, at, [76, 75] + frame);
    at := |buf| - |s| + at;
  }

  /** A delivered frame stands at the first marker, or is delivered from what is behind. */
  lemma FoundHereOrLater(buf: seq<u8>, s: seq<u8>, frame: seq<u8>) returns (k: nat)
    requires s == FromMarker(buf) && frame in Consumed(buf).frames
    ensures 0 <= k <= |s|
    ensures k > 0 ==> frame in Consumed(s[k..]).frames
    ensures k == 0 ==> Stands(s, 0, [76, 75] + frame)
    ensures k == 0 ==> 3 <= |frame| <= 1022 && 256 * (frame[0] as int) + (frame[1] as int) == |frame| - 2
  {
    FramesOf(buf, s, frame);
    hide FromMarker, Stands, Consumed;
    match Look(s)
    case BadLength => k := 2;
    case Whole(size) =>
      if frame == s[2..size] {
        FoundAt(s, size, frame);
        k := 0;
      } else {
        k := size;
      }
  }

  /** Where a delivered frame was found. */
  lemma FramesOf(buf: seq<u8>, s: seq<u8>, frame: seq<u8>)
    requires s == FromMarker(buf) && frame in Consumed(buf).frames
    ensures !Look(s).TooLittle? && |s| >= 4 && MarkerAt(s, 0)
    ensures Look(s).BadLength? ==> frame in Consumed(s[2..]).frames
    ensures Look(s).Whole? ==> frame == s[2..Look(s).size] || frame in Consumed(s[Look(s).size..]).frames
  {
    hide FromMarker, Look;
  }

  lemma FoundAt(s: seq<u8>, size: nat, frame: seq<u8>)
    requires Look(s) == Whole(size) && |s| >= 2 && MarkerAt(s, 0) && frame == s[2..size]
    ensures Stands(s, 0, [76, 75] + frame)
    ensures 3 <= |frame| <= 1022 && 256 * (frame[0] as int) + (frame[1] as int) == |frame| - 2
  {
    assert s[0..size] == [76, 75] + frame;
  }

  /** What stands in a rest stands in the whole. */
  lemma StandsFurther(s: seq<u8>, k: nat, at: nat, part: seq<u8>)
    requires k <= |s| && Stands(s[k..], at, part)
    ensures Stands(s, k + at, part)
  {
    assert s[k..][at..at + |part|] == s[k + at..k + at + |part|];
  }

  /** Any number of well-formed frames, one behind the other, are delivered in order
      with nothing left over. */
  lemma {:induction false} FramesAreDelivered(frames: seq<seq<u8>>)
    requires forall i | 0 <= i < |frames| :: WellFormed(frames[i])
    ensures Consumed(Wires(frames)) == Parsed(frames, [])
  {
    hide Consumed, Wire;
    if |frames| == 0 {
      NothingConsumed();
    } else {
      FramesAreDelivered(frames[1..]);
      FrameIsDelivered([], frames[0], Wires(frames[1..]));
      assert [] + Wire(frames[0]) + Wires(frames[1..]) == Wires(frames);
      assert frames == [frames[0]] + frames[1..];
    }
  }

  // --------------------------------------------------------------- the code

  /** What one turn of the receive loop must do. */
  lemma Turn(handled: seq<seq<u8>>, now: seq<u8>)
    ensures var s := FromMarker(now);
      match Look(s)
      case TooLittle => Both(handled, Consumed(now)) == Parsed(handled, s)
      case BadLength => Consumed(now) == Consumed(s[2..])
      case Whole(size) => Both(handled, Consumed(now)) == Both(handled + [s[2..size]], Consumed(s[size..]))
  {
    hide FromMarker, Look;
    var s := FromMarker(now);
    match Look(s)
    case TooLittle => assert handled + [] == handled;
    case BadLength =>
    case Whole(size) =>
      var rest := Consumed(s[size..]);
      assert handled + ([s[2..size]] + rest.frames) == handled + [s[2..size]] + rest.frames;
  }

  lemma NoMarkerHere(s: seq<u8>, i: nat)
    requires i + 1 < |s| && !MarkerAt(s, i)
    ensures FromMarker(s[i..]) == FromMarker(s[i + 1..])
  {
    assert s[i..][1..] == s[i + 1..];
    assert !MarkerAt(s[i..], 0);
  }

  lemma MarkerHere(s: seq<u8>, i: nat)
    requires i <= |s| && (i + 1 >= |s| || MarkerAt(s, i))
    ensures FromMarker(s[i..]) == s[i..]
  {
    assert |s[i..]| <= 1 || MarkerAt(s[i..], 0);
  }

  lemma LookIs(s: seq<u8>)
    ensures |s| < 4 ==> Look(s) == TooLittle
    ensures |s| >= 4 ==> var body := 256 * (s[2] as int) + (s[3] as int);
      Look(s) == (if body < 1 || body > MAX_FRAME - 4 then BadLength else if |s| < 4 + body then TooLittle else Whole(4 + body))
  {}

  class Receiver {
    const rxBuf: array<u8>
    var rxLen: nat
    /** The frames handed to the protocol, in order. */
    var handled: seq<seq<u8>>

    ghost predicate Valid()
      reads this
    {
      rxBuf.Length == MAX_FRAME && rxLen <= MAX_FRAME
    }

    ghost function Buffered(): seq<u8>
      requires Valid()
      reads this, rxBuf
    {
      rxBuf[..rxLen]
    }

    constructor ()
      ensures Valid() && fresh(rxBuf) && Buffered() == [] && handled == []
    {
      rxBuf := new u8[MAX_FRAME];
      rxLen, handled := 0, [];
    }

    /** memmove: drop the first n bytes of the buffer. */
    method Drop(n: nat)
      requires Valid() && n <= rxLen
      modifies this`rxLen, rxBuf
      ensures Valid() && rxLen == old(rxLen) - n && Buffered() == old(Buffered())[n..]
    {
      ghost var was := rxBuf[..rxLen];
      var i := 0;
      while i < rxLen - n
        invariant 0 <= i <= rxLen - n && rxLen == old(rxLen)
        invariant rxBuf[..i] == was[n..n + i] && rxBuf[i..rxLen] == was[i..]
      {
        assert rxBuf[i + n] == rxBuf[i..rxLen][n];
        rxBuf[i] := rxBuf[i + n];
        assert rxBuf[..i + 1] == rxBuf[..i] + [was[n + i]];
        i := i + 1;
      }
      rxLen := rxLen - n;
    }

    /** Where the first marker is, or the last byte. */
    method FindMarker() returns (start: nat)
      requires Valid()
      ensures start <= rxLen && FromMarker(Buffered()) == Buffered()[start..]
    {
      hide FromMarker;
      var s := rxBuf[..rxLen];
      start := 0;
      while start + 1 < |s| && !(s[start] == SYNC0 && s[start + 1] == SYNC1)
        invariant start <= |s| && FromMarker(s) == FromMarker(s[start..])
      {
        NoMarkerHere(s, start);
        start := start + 1;
      }
      MarkerHere(s, start);
    }

    /** Discard anything before a marker: console output shares the port. */
    method Resynchronise()
      requires Valid()
      modifies this`rxLen, rxBuf
      ensures Valid() && Buffered() == FromMarker(old(Buffered())) && rxLen <= old(rxLen)
    {
      hide FromMarker;
      var start := FindMarker();
      if start > 0 { Drop(start); }
    }

    /** Turn after turn until one has to wait: `handled` grows by the frames found, in order. */
    method Consume()
      requires Valid()
      modifies this`rxLen, this`handled, rxBuf
      ensures Valid()
      ensures Parsed(handled, Buffered()) == Both(old(handled), Consumed(old(Buffered())))
    {
      ghost var all := Both(handled, Consumed(Buffered()));
      var more := true;
      while more
        invariant Valid()
        invariant more ==> all == Both(handled, Consumed(Buffered()))
        invariant !more ==> all == Parsed(handled, Buffered())
        decreases more, rxLen
      {
        more := TakeOne();
      }
    }

    /** One turn of the loop; false when it must wait for more. */
    method TakeOne() returns (more: bool)
      requires Valid()
      modifies this`rxLen, this`handled, rxBuf
      ensures Valid() && (more ==> rxLen < old(rxLen))
      ensures more ==> Both(old(handled), Consumed(old(Buffered()))) == Both(handled, Consumed(Buffered()))
      ensures !more ==> Both(old(handled), Consumed(old(Buffered()))) == Parsed(handled, Buffered())
    {
      hide FromMarker, Consumed, Look, Both;
      ghost var now, before := Buffered(), handled;
      Resynchronise();
      ghost var s := Buffered();
      Turn(before, now);
      LookIs(s);
      if rxLen < 4 { return false; }
      var held := rxBuf[..rxLen];
      var body := 256 * (held[2] as int) + (held[3] as int);
      if body < 1 || body > MAX_FRAME - 4 {
        Drop(2);
        return true;
      }
      if rxLen < 4 + body { return false; }
      handled := handled + [held[2..4 + body]];
      Drop(4 + body);
      more := true;
    }

    /** One read: what does not fit drops everything that waits. */
    method Pump(chunk: seq<u8>)
      requires Valid() && |chunk| <= RX_CHUNK
      modifies this`rxLen, this`handled, rxBuf
      ensures Valid()
      ensures old(|Buffered()|) + |chunk| > MAX_FRAME ==> Parsed(handled, Buffered()) == Parsed(old(handled), [])
      ensures old(|Buffered()|) + |chunk| <= MAX_FRAME ==>
        Parsed(handled, Buffered()) == Both(old(handled), Consumed(old(Buffered()) + chunk))
    {
      hide Consumed, Both;
      if rxLen + |chunk| > MAX_FRAME {
        rxLen := 0;
        return;
      }
      ghost var was := Buffered();
      var i := 0;
      while i < |chunk|
        invariant 0 <= i <= |chunk| && rxLen == old(rxLen) && handled == old(handled)
        invariant rxBuf[..rxLen + i] == was + chunk[..i]
      {
        rxBuf[rxLen + i] := chunk[i];
        assert rxBuf[..rxLen + i + 1] == rxBuf[..rxLen + i] + [chunk[i]];
        i := i + 1;
      }
      assert chunk[..i] == chunk;
      rxLen := rxLen + |chunk|;
      Consume();
    }
  }

  /** The receiver over any series of reads. */
  method PumpAll(r: Receiver, chunks: seq<seq<u8>>)
    requires r.Valid() && r.Buffered() == [] && r.handled == []
    requires forall i | 0 <= i < |chunks| :: |chunks[i]| <= RX_CHUNK
    modifies r, r.rxBuf
    ensures r.Valid() && Parsed(r.handled, r.Buffered()) == Pumped(chunks)
  {
    hide Consumed, Both;
    var i := 0;
    assert chunks[..0] == [];
    while i < |chunks|
      invariant 0 <= i <= |chunks| && r.Valid()
      invariant Parsed(r.handled, r.Buffered()) == Pumped(chunks[..i])
    {
      assert chunks[..i + 1][..i] == chunks[..i];
      assert r.rxLen == |r.Buffered()|;
      r.Pump(chunks[i]);
      i := i + 1;
    }
    assert chunks[..i] == chunks;
  }

  // ------------------------------------------------- which streams are safe

  /** Reads as the port makes them: at least one byte, and at most a chunk. */
  predicate Reads(chunks: seq<seq<u8>>) { forall i | 0 <= i < |chunks| :: 1 <= |chunks[i]| <= 64 }

  predicate AllWellFormed(frames: seq<seq<u8>>) { forall i | 0 <= i < |frames| :: WellFormed(frames[i]) }

  /** What a receiver holds, delivered or waiting, in bytes on the wire. */
  function Weight(p: Parsed): nat { |Wires(p.frames)| + |p.left| }

  lemma {:induction false} WiresJoin(a: seq<seq<u8>>, b: seq<seq<u8>>)
    ensures Wires(a + b) == Wires(a) + Wires(b)
  {
    hide Wire;
    if |a| == 0 {
      assert a + b == b;
    } else {
      WiresJoin(a[1..], b);
      assert (a + b)[1..] == a[1..] + b && (a + b)[0] == a[0];
      Joined(Wire(a[0]), Wires(a[1..]), Wires(b));
    }
  }

  /** Nothing is delivered that was not received. */
  lemma {:induction false} ConsumedWeighsNoMore(s: seq<u8>)
    ensures Weight(Consumed(s)) <= |s|
    decreases |s|
  {
    hide FromMarker, Look;
    var t := FromMarker(s);
    match Look(t)
    case TooLittle =>
    case BadLength => ConsumedWeighsNoMore(t[2..]);
    case Whole(size) =>
      ConsumedWeighsNoMore(t[size..]);
      assert [t[2..size]][1..] == [];
      WiresJoin([t[2..size]], Consumed(t[size..]).frames);
  }

  /** One more read: an overrun loses bytes, anything else keeps at most what there was. */
  lemma {:induction false} PumpedWeighs(chunks: seq<seq<u8>>)
    ensures Weight(Pumped(chunks)) <= |Stream(chunks)|
    ensures !NoOverrun(chunks) ==> Weight(Pumped(chunks)) < |Stream(chunks)|
  {
    hide Consumed;
    if |chunks| > 0 {
      var before, chunk := Pumped(chunks[..|chunks| - 1]), chunks[|chunks| - 1];
      PumpedWeighs(chunks[..|chunks| - 1]);
      if |before.left| + |chunk| <= MAX_FRAME {
        var more := Consumed(before.left + chunk);
        ConsumedWeighsNoMore(before.left + chunk);
        WiresJoin(before.frames, more.frames);
      }
    }
  }

  /** A stream of well-formed frames is delivered exactly when no read overruns. */
  lemma DeliveredUnlessOverrun(frames: seq<seq<u8>>, chunks: seq<seq<u8>>)
    requires AllWellFormed(frames) && Stream(chunks) == Wires(frames)
    ensures NoOverrun(chunks) <==> Pumped(chunks) == Parsed(frames, [])
    ensures NoOverrun(chunks) <==> Pumped(chunks).frames == frames
  {
    hide Pumped, Consumed, NoOverrun, WellFormed;
    if NoOverrun(chunks) {
      OnlyTheBytesMatter(chunks);
      FramesAreDelivered(frames);
    } else {
      PumpedWeighs(chunks);
    }
  }

  /** How many of the first n bytes of a series of frames wait for the rest of their frame. */
  function Waiting(frames: seq<seq<u8>>, n: nat): nat
    requires n <= |Wires(frames)|
  {
    if |frames| == 0 then 0
    else if n < |Wire(frames[0])| then n
    else Waiting(frames[1..], n - |Wire(frames[0])|)
  }

  /** The start of a frame is kept as it is. */
  lemma PartIsKept(frame: seq<u8>, n: nat)
    requires WellFormed(frame) && n < |Wire(frame)|
    ensures Consumed(Wire(frame)[..n]) == Parsed([], Wire(frame)[..n])
  {
    var s := Wire(frame)[..n];
    assert FromMarker(s) == s by { assert |s| <= 1 || MarkerAt(s, 0); }
    if n >= 4 { assert s[2..4] == frame[..2]; }
  }

  lemma {:induction false} PrefixWaits(frames: seq<seq<u8>>, n: nat)
    requires AllWellFormed(frames) && n <= |Wires(frames)|
    ensures |Consumed(Wires(frames)[..n]).left| == Waiting(frames, n)
  {
    hide Consumed, WellFormed, Wire;
    if |frames| == 0 {
      NothingConsumed();
      assert Wires(frames)[..n] == [];
    } else if n < |Wire(frames[0])| {
      PartIsKept(frames[0], n);
      assert Wires(frames)[..n] == Wire(frames[0])[..n];
    } else {
      var k := n - |Wire(frames[0])|;
      var more := Wires(frames[1..])[..k];
      PrefixWaits(frames[1..], k);
      FrameIsDelivered([], frames[0], more);
      assert [] + Wire(frames[0]) + more == Wires(frames)[..n];
    }
  }

  /** Each frame leaves room for one more read beside all of it but its last byte, or fits
      the buffer together with everything behind it. */
  predicate Safe(frames: seq<seq<u8>>) {
    forall i | 0 <= i < |frames| :: |Wire(frames[i])| <= 961 || |Wires(frames[i..])| <= 1024
  }

  lemma RestIsSafe(frames: seq<seq<u8>>)
    requires |frames| > 0 && Safe(frames)
    ensures Safe(frames[1..])
  {
    forall i | 0 <= i < |frames[1..]|
      ensures |Wire(frames[1..][i])| <= 961 || |Wires(frames[1..][i..])| <= 1024
    {
      assert frames[1..][i] == frames[i + 1] && frames[1..][i..] == frames[i + 1..];
    }
  }

  lemma {:induction false} WaitingFits(frames: seq<seq<u8>>, n: nat, m: nat)
    requires Safe(frames) && n + m <= |Wires(frames)| && m <= RX_CHUNK
    ensures Waiting(frames, n) + m <= MAX_FRAME
  {
    hide Wire;
    if |frames| > 0 {
      if n < |Wire(frames[0])| {
        assert frames[0..] == frames;
      } else {
        RestIsSafe(frames);
        WaitingFits(frames[1..], n - |Wire(frames[0])|, m);
      }
    }
  }

  lemma {:induction false} StreamJoin(a: seq<seq<u8>>, b: seq<seq<u8>>)
    ensures Stream(a + b) == Stream(a) + Stream(b)
    ensures NoOverrun(a + b) ==> NoOverrun(a)
    decreases |b|
  {
    hide Pumped;
    if |b| == 0 {
      assert a + b == a;
    } else {
      var n := |a + b| - 1;
      assert (a + b)[..n] == a + b[..|b| - 1] && (a + b)[n] == b[|b| - 1];
      StreamJoin(a, b[..|b| - 1]);
    }
  }

  /** What waits after some of the reads of a stream of frames. */
  lemma WaitsAfter(frames: seq<seq<u8>>, read: seq<seq<u8>>, more: seq<seq<u8>>)
    requires AllWellFormed(frames) && Stream(read + more) == Wires(frames) && NoOverrun(read)
    ensures |Stream(read)| <= |Wires(frames)| && |Pumped(read).left| == Waiting(frames, |Stream(read)|)
  {
    hide Consumed, Pumped, NoOverrun, Waiting, Wires, AllWellFormed;
    StreamJoin(read, more);
    OnlyTheBytesMatter(read);
    assert Wires(frames)[..|Stream(read)|] == Stream(read);
    PrefixWaits(frames, |Stream(read)|);
  }

  lemma {:induction false} SafeNeverOverruns(frames: seq<seq<u8>>, read: seq<seq<u8>>, more: seq<seq<u8>>)
    requires AllWellFormed(frames) && Safe(frames) && Reads(read) && Stream(read + more) == Wires(frames)
    ensures NoOverrun(read)
    decreases |read|
  {
    hide Consumed, Pumped, Waiting, Wires, AllWellFormed, Safe;
    if |read| > 0 {
      var first, last := read[..|read| - 1], read[|read| - 1];
      assert read + more == first + ([last] + more);
      SafeNeverOverruns(frames, first, [last] + more);
      WaitsAfter(frames, first, [last] + more);
      StreamJoin(read, more);
      WaitingFits(frames, |Stream(first)|, |last|);
    }
  }

  /** Byte by byte. */
  function Singles(s: seq<u8>): (c: seq<seq<u8>>)
    ensures |c| == |s| && Reads(c)
  {
    seq(|s|, i requires 0 <= i < |s| => [s[i]])
  }

  lemma {:induction false} SinglesStream(s: seq<u8>)
    ensures Stream(Singles(s)) == s
  {
    if |s| > 0 {
      SinglesStream(s[..|s| - 1]);
      assert Singles(s)[..|s| - 1] == Singles(s[..|s| - 1]);
      assert s == s[..|s| - 1] + [s[|s| - 1]];
    } else {
      assert Stream(Singles(s)) == [];
    }
  }

  /** A cutting that makes one full read when `at` bytes have come in. */
  function CutAt(s: seq<u8>, at: nat): (c: seq<seq<u8>>)
    requires at + RX_CHUNK <= |s|
    ensures Reads(c)
  {
    Singles(s[..at]) + [s[at..at + RX_CHUNK]] + Singles(s[at + RX_CHUNK..])
  }

  lemma OneChunk(b: seq<u8>)
    ensures Stream([b]) == b
  {
    var none: seq<seq<u8>> := [];
    assert [b][..0] == none && Stream(none) == [];
  }

  lemma CutAtStream(s: seq<u8>, at: nat)
    requires at + RX_CHUNK <= |s|
    ensures Stream(CutAt(s, at)) == s
  {
    var a, b, c := s[..at], s[at..at + RX_CHUNK], s[at + RX_CHUNK..];
    assert CutAt(s, at) == Singles(a) + [b] + Singles(c);
    hide *;
    SinglesStream(a);
    SinglesStream(c);
    OneChunk(b);
    StreamJoin(Singles(a) + [b], Singles(c));
    StreamJoin(Singles(a), [b]);
    ThreeParts(s, at, at + RX_CHUNK);
  }

  lemma ThreeParts(s: seq<u8>, i: nat, j: nat)
    requires i <= j <= |s|
    ensures s[..i] + s[i..j] + s[j..] == s
  {}

  /** When a full read comes in on top of too much, the cutting loses bytes. */
  lemma FullReadOverruns(frames: seq<seq<u8>>, at: nat)
    requires AllWellFormed(frames) && at + RX_CHUNK <= |Wires(frames)| && Waiting(frames, at) > MAX_FRAME - RX_CHUNK
    ensures !NoOverrun(CutAt(Wires(frames), at))
  {
    var s := Wires(frames);
    var first, chunk, rest := Singles(s[..at]), s[at..at + RX_CHUNK], Singles(s[at + RX_CHUNK..]);
    hide Consumed, Waiting, Wires, AllWellFormed, Singles;
    CutAtStream(s, at);
    SinglesStream(s[..at]);
    if NoOverrun(CutAt(s, at)) {
      StreamJoin(first + [chunk], rest);
      assert (first + [chunk])[..|first|] == first && (first + [chunk])[|first|] == chunk;
      assert CutAt(s, at) == first + ([chunk] + rest);
      WaitsAfter(frames, first, [chunk] + rest);
      assert false;
    }
  }

  /** Where the i-th frame has all but its last bytes. */
  lemma {:induction false} WaitingInside(frames: seq<seq<u8>>, i: nat, n: nat)
    requires i < |frames| && n < |Wire(frames[i])|
    ensures |Wires(frames[..i])| + |Wires(frames[i..])| == |Wires(frames)| && n <= |Wires(frames[i..])|
    ensures Waiting(frames, |Wires(frames[..i])| + n) == n
  {
    hide Wire;
    WiresJoin(frames[..i], frames[i..]);
    assert frames[..i] + frames[i..] == frames;
    assert Wires(frames[i..]) == Wire(frames[i]) + Wires(frames[i..][1..]);
    if i == 0 {
      assert frames[..0] == [];
    } else {
      WaitingInside(frames[1..], i - 1, n);
      assert frames[1..][..i - 1] == frames[..i][1..] && frames[..i][0] == frames[0];
      assert frames[1..][i - 1..] == frames[i..];
    }
  }

  /** A stream of frames that is not safe can be cut so that it is not delivered. */
  lemma UnsafeCanBeLost(frames: seq<seq<u8>>) returns (chunks: seq<seq<u8>>)
    requires AllWellFormed(frames) && !Safe(frames)
    ensures Reads(chunks) && Stream(chunks) == Wires(frames) && Pumped(chunks).frames != frames
  {
    hide Pumped, Consumed, NoOverrun, Waiting, WellFormed, Wire;
    var i :| 0 <= i < |frames| && |Wire(frames[i])| > MAX_FRAME - RX_CHUNK + 1 && |Wires(frames[i..])| > MAX_FRAME;
    var n := MAX_FRAME - RX_CHUNK + 1;
    WaitingInside(frames, i, n);
    var at := |Wires(frames[..i])| + n;
    chunks := CutAt(Wires(frames), at);
    CutAtStream(Wires(frames), at);
    FullReadOverruns(frames, at);
    DeliveredUnlessOverrun(frames, chunks);
  }

  /** Well-formed frames are delivered however the port cuts their bytes into reads,
      exactly when each of them either leaves room for one more read beside all of it but
      its last byte, or fits the buffer together with everything behind it. */
  lemma DeliveredHoweverCut(frames: seq<seq<u8>>)
    requires AllWellFormed(frames)
    ensures Safe(frames) <==>
      forall chunks | Reads(chunks) && Stream(chunks) == Wires(frames) :: Pumped(chunks) == Parsed(frames, [])
  {
    hide Pumped, Consumed, NoOverrun, WellFormed, Wire, Wires, Safe, Reads;
    if Safe(frames) {
      forall chunks | Reads(chunks) && Stream(chunks) == Wires(frames) ensures Pumped(chunks) == Parsed(frames, []) {
        assert chunks + [] == chunks;
        SafeNeverOverruns(frames, chunks, []);
        DeliveredUnlessOverrun(frames, chunks);
      }
    } else {
      var chunks := UnsafeCanBeLost(frames);
      assert Pumped(chunks) != Parsed(frames, []);
    }
  }

  // ----------------------------------------------------------- one such stream

  /** A frame whose payload is zeros. */
  function ZeroFrame(body: nat): (f: seq<u8>)
    requires 1 <= body <= MAX_FRAME - 4
    ensures WellFormed(f) && |Wire(f)| == body + 4
  {
    var f := [body / 256, body % 256] + seq(body, _ => 0);
    assert f[..2] == [body / 256, body % 256];
    f
  }

  lemma {:induction false} WaitingIsPart(frames: seq<seq<u8>>, n: nat)
    requires AllWellFormed(frames) && n <= |Wires(frames)|
    ensures Waiting(frames, n) < MAX_FRAME
  {
    if |frames| > 0 && n >= |Wire(frames[0])| { WaitingIsPart(frames[1..], n - |Wire(frames[0])|); }
  }

  /** Byte by byte, every stream of frames is delivered. */
  lemma {:induction false} SinglesNeverOverrun(frames: seq<seq<u8>>, n: nat)
    requires AllWellFormed(frames) && n <= |Wires(frames)|
    ensures NoOverrun(Singles(Wires(frames)[..n]))
    decreases n
  {
    hide Consumed, Pumped, Waiting, AllWellFormed;
    if n > 0 {
      var s := Wires(frames);
      SinglesNeverOverrun(frames, n - 1);
      var read, more := Singles(s[..n - 1]), Singles(s[n - 1..]);
      SinglesStream(s[..n - 1]);
      SinglesStream(s[n - 1..]);
      StreamJoin(read, more);
      assert s[..n - 1] + s[n - 1..] == s;
      WaitsAfter(frames, read, more);
      WaitingIsPart(frames, n - 1);
      assert Singles(s[..n])[..n - 1] == read;
    }
  }

  /** One stream of two well-formed frames, of 962 and 64 bytes on the wire: one cutting
      of it into reads delivers both, another loses the first. */
  lemma OverrunIsPossible() returns (frames: seq<seq<u8>>, kept: seq<seq<u8>>, lost: seq<seq<u8>>)
    ensures frames == [ZeroFrame(958), ZeroFrame(60)] && AllWellFormed(frames)
    ensures Reads(kept) && Reads(lost) && Stream(kept) == Stream(lost) == Wires(frames)
    ensures Pumped(kept) == Parsed(frames, []) && Pumped(lost).frames != frames
  {
    frames := [ZeroFrame(958), ZeroFrame(60)];
    assert Wires(frames[1..]) == Wire(frames[1]) + Wires(frames[1..][1..]) && frames[0..] == frames;
    hide Pumped, Consumed, NoOverrun, ZeroFrame, Wire;
    var s := Wires(frames);
    assert s[..|s|] == s;
    kept := Singles(s);
    SinglesStream(s);
    SinglesNeverOverrun(frames, |s|);
    DeliveredUnlessOverrun(frames, kept);
    assert |Wire(frames[0])| == 962 && |Wires(frames[0..])| == 1026;
    assert !Safe(frames);
    lost := UnsafeCanBeLost(frames);
  }
}
