/** Frames in BLE chunks. */
module BleChunk {
  import opened Bytes

  // The layer BLE adds: a frame split into sequenced chunks, and put together again.

  const MAX_FRAME := 1024
  const MORE := 0x80
  const SEQUENCES := 128

  datatype Result = NeedMore | FrameReady | Error

  /** What the reassembler holds: the bytes so far, the sequence number it waits for,
      and whether they are a frame that nobody has taken yet. */
  datatype Held = Held(bytes: seq<u8>, next: nat, complete: bool)

  const FRESH := Held([], 0, false)

  /** The size on the wire that a frame's first two bytes declare. */
  function DeclaredTotal(bytes: seq<u8>): nat
    requires |bytes| >= 2
  {
    256 * (bytes[0] as int) + (bytes[1] as int) + 2
  }

  /** The bytes so far can still become a frame; a last chunk must land exactly on its end. */
  predicate Plausible(bytes: seq<u8>, more: bool) {
    |bytes| >= 2 ==>
      var total := DeclaredTotal(bytes);
      4 <= total <= MAX_FRAME && |bytes| <= total && (more || |bytes| == total)
  }

  datatype Pushed = Pushed(held: Held, result: Result)

  /** One write taken in. */
  function Push(r: Held, chunk: seq<u8>): (p: Pushed)
    requires |r.bytes| <= MAX_FRAME
    ensures |p.held.bytes| <= MAX_FRAME
    ensures p.result.Error? ==> p.held == FRESH
    ensures p.result.FrameReady? <==> p.held.complete
  {
    var start := if r.complete then FRESH else r;
    if |chunk| < 1 then Pushed(FRESH, Error)
    else
      var number := chunk[0] % SEQUENCES;
      var more := chunk[0] >= MORE;
      var bytes := start.bytes + chunk[1..];
      if number != start.next || |chunk| == 1 || |bytes| > MAX_FRAME || !Plausible(bytes, more) then Pushed(FRESH, Error)
      else if more then Pushed(Held(bytes, (start.next + 1) % SEQUENCES, false), NeedMore)
      else if |bytes| < 4 then Pushed(FRESH, Error)
      else Pushed(Held(bytes, (start.next + 1) % SEQUENCES, true), FrameReady)
  }

  function PushAll(r: Held, chunks: seq<seq<u8>>): (p: Pushed)
    requires |r.bytes| <= MAX_FRAME
    ensures |p.held.bytes| <= MAX_FRAME
  {
    if |chunks| == 0 then Pushed(r, NeedMore)
    else Push(PushAll(r, chunks[..|chunks| - 1]).held, chunks[|chunks| - 1])
  }

  // ---------------------------------------------------------------- splitting

  /** Room for payload in one chunk: the ATT header and our own are taken off. */
  function Capacity(mtu: nat): (c: nat)
    requires mtu >= 5
    ensures 1 <= c <= MAX_FRAME
  {
    if mtu - 4 > MAX_FRAME then MAX_FRAME else mtu - 4
  }

  /** A write is refused exactly when it has no payload, is not the one waited for, or its
      payload, behind what is held, cannot be part of one frame of 4 to 1024 bytes: it is too
      long for the length declared, or is the last one and too short. */
  lemma RefusedExactly(r: Held, chunk: seq<u8>)
    requires |r.bytes| <= MAX_FRAME && !r.complete
    ensures Push(r, chunk).result.Error? <==>
      |chunk| < 2 || chunk[0] % 128 != r.next || |r.bytes + chunk[1..]| > 1024
      || (chunk[0] < 128 && |r.bytes + chunk[1..]| < 4)
      || (|r.bytes + chunk[1..]| >= 2 && !Belongs(r.bytes + chunk[1..], chunk[0] < 128))
  {
    if |chunk| >= 1 { Fitting(r.bytes + chunk[1..], chunk[0] >= MORE); }
    hide Plausible, Belongs;
  }

  /** The bytes are part of a frame with the length they declare, or all of it. */
  predicate Belongs(bytes: seq<u8>, last: bool)
    requires |bytes| >= 2
  {
    var total: int := 2 + 256 * (bytes[0] as int) + bytes[1] as int;
    4 <= total <= 1024 && (if last then |bytes| == total else |bytes| <= total)
  }

  lemma Fitting(bytes: seq<u8>, more: bool)
    ensures |bytes| >= 2 ==> (Plausible(bytes, more) <==> Belongs(bytes, !more))
    ensures |bytes| < 2 ==> Plausible(bytes, more)
  {}

  /** The chunks of a frame from an offset on. */
  function Chunks(frame: seq<u8>, offset: nat, number: nat, capacity: nat): seq<seq<u8>>
    requires capacity > 0
    decreases if offset < |frame| then |frame| - offset else 0
  {
    if offset >= |frame| then []
    else
      var more := offset + capacity < |frame|;
      var end := if more then offset + capacity else |frame|;
      var header: u8 := (if more then MORE else 0) + number % SEQUENCES;
      [[header] + frame[offset..end]] + Chunks(frame, offset + capacity, number + 1, capacity)
  }

  predicate IsFrame(frame: seq<u8>) {
    4 <= |frame| <= MAX_FRAME && DeclaredTotal(frame) == |frame|
  }

  /** The part of a frame that has arrived. */
  predicate HasArrived(r: Held, frame: seq<u8>, offset: nat, number: nat) {
    offset <= |frame| && r.next == number % SEQUENCES
    && (if offset == 0 then (r.complete || r == FRESH) && number == 0 else !r.complete && r.bytes == frame[..offset])
  }

  lemma PrefixDeclares(frame: seq<u8>, k: nat)
    requires IsFrame(frame) && k <= |frame|
    ensures k >= 2 ==> DeclaredTotal(frame[..k]) == |frame|
    ensures Plausible(frame[..k], true) && Plausible(frame, false)
  {}

  /** One chunk of a split frame is accepted, and completes the frame exactly when it is
      the last. */
  lemma ChunkIsAccepted(r: Held, frame: seq<u8>, offset: nat, number: nat, capacity: nat)
    requires IsFrame(frame) && capacity > 0 && offset < |frame| && |r.bytes| <= MAX_FRAME
    requires HasArrived(r, frame, offset, number) || (r.complete && offset == 0 && number == 0)
    ensures var p := Push(r, Chunks(frame, offset, number, capacity)[0]);
      if offset + capacity < |frame|
      then p.result == NeedMore && HasArrived(p.held, frame, offset + capacity, number + 1)
      else p.result == FrameReady && p.held.bytes == frame
  {
    var more := offset + capacity < |frame|;
    var end := if more then offset + capacity else |frame|;
    var chunk := Chunks(frame, offset, number, capacity)[0];
    ChunkHolds(frame, offset, number, capacity, end);
    PrefixDeclares(frame, end);
    var start := if r.complete then FRESH else r;
    assert start.bytes == frame[..offset] && start.next == number % SEQUENCES by {
      assert frame[..0] == [];
    }
    hide Push, Plausible, Chunks;
    Joins(frame, offset, end);
    NextNumber(number);
    TakenIn(r, start, chunk, frame[..end], more);
  }

  /** A write with the number waited for, whose bytes can still become a frame. */
  lemma TakenIn(r: Held, start: Held, chunk: seq<u8>, bytes: seq<u8>, more: bool)
    requires |r.bytes| <= MAX_FRAME && start == (if r.complete then FRESH else r)
    requires |chunk| > 1 && chunk[0] % SEQUENCES == start.next && (chunk[0] >= MORE <==> more)
    requires start.bytes + chunk[1..] == bytes && |bytes| <= MAX_FRAME && Plausible(bytes, more) && (more || |bytes| >= 4)
    ensures Push(r, chunk) ==
      Pushed(Held(bytes, (start.next + 1) % SEQUENCES, !more), if more then NeedMore else FrameReady)
  {
    hide Plausible;
  }

  lemma ChunkHolds(frame: seq<u8>, offset: nat, number: nat, capacity: nat, end: nat)
    requires capacity > 0 && offset < |frame| && end == if offset + capacity < |frame| then offset + capacity else |frame|
    ensures var chunk := Chunks(frame, offset, number, capacity)[0];
      |chunk| > 1 && chunk[0] % SEQUENCES == number % SEQUENCES && (chunk[0] >= MORE <==> end < |frame|)
      && chunk[1..] == frame[offset..end]
  {}

  lemma Joins(frame: seq<u8>, offset: nat, end: nat)
    requires offset <= end <= |frame|
    ensures frame[..offset] + frame[offset..end] == frame[..end] && frame[..|frame|] == frame
  {}

  /** Pushing the rest of a split frame: more is asked for until the last chunk. */
  lemma {:induction false} RestIsReassembled(r: Held, frame: seq<u8>, offset: nat, number: nat, capacity: nat, k: nat)
    requires IsFrame(frame) && capacity > 0 && offset < |frame| && |r.bytes| <= MAX_FRAME
    requires HasArrived(r, frame, offset, number) || (r.complete && offset == 0 && number == 0)
    requires 0 < k <= |Chunks(frame, offset, number, capacity)|
    ensures var all := Chunks(frame, offset, number, capacity); var p := PushAll(r, all[..k]);
      if k < |all| then p.result == NeedMore else p.result == FrameReady && p.held.bytes == frame
    decreases |frame| - offset
  {
    hide Push, IsFrame, HasArrived;
    var all: seq<seq<u8>> := Chunks(frame, offset, number, capacity);
    var part: seq<seq<u8>> := all[..k];
    ChunkIsAccepted(r, frame, offset, number, capacity);
    PushFirst(r, part);
    var rest := Chunks(frame, offset + capacity, number + 1, capacity);
    assert all == [all[0]] + rest;
    if offset + capacity < |frame| {
      if k == 1 {
        assert |part[1..]| == 0;
        assert |rest| > 0;
      } else {
        assert part[1..] == rest[..k - 1];
        RestIsReassembled(Push(r, all[0]).held, frame, offset + capacity, number + 1, capacity, k - 1);
      }
    } else {
      assert |rest| == 0 && |part[1..]| == 0;
    }
  }

  /** Pushing a series is pushing its first and then the others. */
  lemma {:induction false} PushFirst(r: Held, chunks: seq<seq<u8>>)
    requires |r.bytes| <= MAX_FRAME && |chunks| > 0
    ensures var first := Push(r, chunks[0]);
      PushAll(r, chunks) == if |chunks| == 1 then first else PushAll(first.held, chunks[1..])
  {
    hide Push;
    if |chunks| == 1 {
      assert chunks[..0] == [];
    } else {
      PushFirst(r, chunks[..|chunks| - 1]);
      assert chunks[..|chunks| - 1][1..] == chunks[1..][..|chunks[1..]| - 1];
      if |chunks| == 2 { assert chunks[1..][..0] == []; }
    }
  }

  /** Whatever the MTU, a frame split and pushed into a reassembler that is fresh, or
      holds a finished frame, asks for more until the last chunk and then is ready,
      byte for byte, the wrap of the sequence number at 128 included. */
  lemma SplitReassembles(r: Held, frame: seq<u8>, mtu: nat, k: nat)
    requires (r == FRESH || (r.complete && |r.bytes| <= MAX_FRAME)) && IsFrame(frame) && mtu >= 5
    requires 0 < k <= |Chunks(frame, 0, 0, Capacity(mtu))|
    ensures var all := Chunks(frame, 0, 0, Capacity(mtu)); var p := PushAll(r, all[..k]);
      if k < |all| then p.result == NeedMore else p.result == FrameReady && p.held == Held(frame, p.held.next, true)
  {
    RestIsReassembled(r, frame, 0, 0, Capacity(mtu), k);
    var all := Chunks(frame, 0, 0, Capacity(mtu));
    assert all[..k][..k - 1] == all[..k - 1];
  }

  /** The chunk with the given number that begins at `start`. */
  function ChunkFrom(frame: seq<u8>, start: nat, size: nat, number: nat): seq<u8>
    requires start <= |frame|
  {
    if start + size >= |frame| then [number % 128] + frame[start..] else [128 + number % 128] + frame[start..start + size]
  }

  lemma FirstChunk(frame: seq<u8>, offset: nat, number: nat, capacity: nat)
    requires capacity > 0 && offset < |frame|
    ensures Chunks(frame, offset, number, capacity) ==
      [ChunkFrom(frame, offset, capacity, number)] + Chunks(frame, offset + capacity, number + 1, capacity)
    ensures |Chunks(frame, offset + capacity, number + 1, capacity)| == 0 <==> offset + capacity >= |frame|
  {
    assert frame[offset..|frame|] == frame[offset..];
  }

  /** One chunk of a split frame, by its number. */
  lemma {:induction false} ChunkIs(frame: seq<u8>, offset: nat, number: nat, capacity: nat, k: nat)
    requires capacity > 0 && k < |Chunks(frame, offset, number, capacity)|
    ensures var all := Chunks(frame, offset, number, capacity); var start := offset + k * capacity;
      start < |frame| && (k == |all| - 1 <==> start + capacity >= |frame|)
      && all[k] == ChunkFrom(frame, start, capacity, number + k)
    decreases k
  {
    hide *;
    SomeChunk(frame, offset, number, capacity);
    FirstChunk(frame, offset, number, capacity);
    if k > 0 {
      ChunkIs(frame, offset + capacity, number + 1, capacity, k - 1);
      Times(k, capacity);
      assert offset + k * capacity == offset + capacity + (k - 1) * capacity;
    }
  }

  lemma SomeChunk(frame: seq<u8>, offset: nat, number: nat, capacity: nat)
    requires capacity > 0 && |Chunks(frame, offset, number, capacity)| > 0
    ensures offset < |frame|
  {}

  lemma Times(k: nat, c: nat)
    requires k > 0
    ensures k * c == c + (k - 1) * c
  {}

  /** In bytes: the top bit of the header says that more follows, the others count modulo
      128, and behind it stands the next part of the frame, four bytes less than the MTU. */
  lemma ChunkOnTheAir(frame: seq<u8>, mtu: nat, k: nat)
    requires mtu >= 5 && k < |Chunks(frame, 0, 0, Capacity(mtu))|
    ensures var all := Chunks(frame, 0, 0, Capacity(mtu)); var size := if mtu > 1028 then 1024 else mtu - 4;
      k * size < |frame| && (k == |all| - 1 <==> k * size + size >= |frame|)
      && all[k] == if k * size + size >= |frame| then [k % 128] + frame[k * size..]
                   else [128 + k % 128] + frame[k * size..k * size + size]
  {
    var size := Capacity(mtu);
    assert size == if mtu > 1028 then 1024 else mtu - 4;
    hide Chunks, Capacity;
    ChunkIs(frame, 0, 0, size, k);
  }

  // --------------------------------------------------------- arbitrary pushes

  /** The payloads of chunks, one behind the other. */
  function Bodies(chunks: seq<seq<u8>>): seq<u8> {
    if |chunks| == 0 then []
    else
      var last := chunks[|chunks| - 1];
      Bodies(chunks[..|chunks| - 1]) + if |last| > 0 then last[1..] else []
  }

  /** The chunks from `since` on were all taken: numbered from 0, and all but perhaps the
      last announced more. */
  predicate InSequence(chunks: seq<seq<u8>>, since: nat, complete: bool) {
    since <= |chunks| && forall k | since <= k < |chunks| ::
      |chunks[k]| > 1 && chunks[k][0] % SEQUENCES == (k - since) % SEQUENCES
      && (chunks[k][0] >= MORE <==> !(complete && k == |chunks| - 1))
  }

  /** What is held is the payload of the writes from `since` on, and nothing else; a
      ready frame has the length it declares. */
  predicate HeldSince(chunks: seq<seq<u8>>, since: nat, r: Held) {
    && InSequence(chunks, since, r.complete)
    && r.bytes == Bodies(chunks[since..]) && r.next == (|chunks| - since) % SEQUENCES
    && (r.complete ==> since < |chunks| && IsFrame(r.bytes))
  }

  /** Over any writes at all. */
  lemma {:induction false} HeldIsSinceReset(chunks: seq<seq<u8>>) returns (since: nat)
    ensures HeldSince(chunks, since, PushAll(FRESH, chunks).held)
  {
    var n := |chunks|;
    if n == 0 {
      since := 0;
    } else {
      hide Push, HeldSince;
      var before := PushAll(FRESH, chunks[..n - 1]).held;
      var was := HeldIsSinceReset(chunks[..n - 1]);
      since := HeldAfter(chunks, was, before, Push(before, chunks[n - 1]));
    }
  }

  lemma HeldAfter(chunks: seq<seq<u8>>, was: nat, before: Held, p: Pushed) returns (since: nat)
    requires |chunks| > 0 && |before.bytes| <= MAX_FRAME && p == Push(before, chunks[|chunks| - 1])
    requires HeldSince(chunks[..|chunks| - 1], was, before)
    ensures HeldSince(chunks, since, p.held)
  {
    hide IsFrame, Plausible;
    var n := |chunks|;
    if p.result.Error? {
      since := n;
      assert |chunks[n..]| == 0;
    } else {
      since := if before.complete then n - 1 else was;
      TakenInSequence(chunks, since, before, p);
      BodiesGrow(chunks, since);
      assert p.held.bytes == Bodies(chunks[since..]);
    }
  }

  lemma BodiesGrow(chunks: seq<seq<u8>>, since: nat)
    requires since < |chunks| && |chunks[|chunks| - 1]| > 0
    ensures Bodies(chunks[since..]) == Bodies(chunks[..|chunks| - 1][since..]) + chunks[|chunks| - 1][1..]
    ensures since == |chunks| - 1 ==> Bodies(chunks[..|chunks| - 1][since..]) == []
  {
    assert chunks[since..][..|chunks[since..]| - 1] == chunks[..|chunks| - 1][since..];
  }

  lemma TakenInSequence(chunks: seq<seq<u8>>, since: nat, before: Held, p: Pushed)
    requires |chunks| > 0 && |before.bytes| <= MAX_FRAME && p == Push(before, chunks[|chunks| - 1]) && !p.result.Error?
    requires since <= |chunks| - 1 && (if before.complete then since == |chunks| - 1
      else InSequence(chunks[..|chunks| - 1], since, false) && before.next == (|chunks| - 1 - since) % SEQUENCES)
    ensures InSequence(chunks, since, p.held.complete) && p.held.next == (|chunks| - since) % SEQUENCES
    ensures p.held.complete ==> IsFrame(p.held.bytes)
  {
    var n := |chunks|;
    NextNumber(n - 1 - since);
    forall k | since <= k < n - 1
      ensures |chunks[k]| > 1 && chunks[k][0] % SEQUENCES == (k - since) % SEQUENCES && chunks[k][0] >= MORE
    {
      assert chunks[..n - 1][k] == chunks[k];
    }
  }

  lemma NextNumber(k: nat)
    ensures (k % SEQUENCES + 1) % SEQUENCES == (k + 1) % SEQUENCES
  {}

  // ---------------------------------------------------------------- the code

  class Reassembler {
    const buf: array<u8>
    var len: nat
    var nextSeq: nat
    var complete: bool

    ghost predicate Valid()
      reads this
    {
      buf.Length == MAX_FRAME && len <= MAX_FRAME
    }

    ghost function Contents(): Held
      requires Valid()
      reads this, buf
    {
      Held(buf[..len], nextSeq, complete)
    }

    constructor ()
      ensures Valid() && fresh(buf) && Contents() == FRESH
    {
      buf := new u8[MAX_FRAME];
      len, nextSeq, complete := 0, 0, false;
    }

    method Reset()
      requires Valid()
      modifies this
      ensures Valid() && Contents() == FRESH
    {
      len, nextSeq, complete := 0, 0, false;
    }

    method Copy(data: seq<u8>)
      requires Valid() && len + |data| <= MAX_FRAME
      modifies this`len, buf
      ensures Valid() && buf[..len] == old(buf[..len]) + data
    {
      ghost var was := buf[..len];
      var i := 0;
      while i < |data|
        invariant 0 <= i <= |data| && len == old(len) && buf[..len + i] == was + data[..i]
      {
        buf[len + i] := data[i];
        assert buf[..len + i + 1] == buf[..len + i] + [data[i]];
        i := i + 1;
      }
      assert data[..i] == data;
      len := len + |data|;
    }

    /** Feed one write. Every failure resets. */
    method TakeChunk(chunk: seq<u8>) returns (result: Result)
      requires Valid()
      modifies this, buf
      ensures Valid() && Push(old(Contents()), chunk) == Pushed(Contents(), result)
    {
      if complete { Reset(); }
      if |chunk| < 1 {
        Reset();
        return Error;
      }
      var number := chunk[0] % SEQUENCES;
      var more := chunk[0] >= MORE;
      if number != nextSeq || |chunk| == 1 || len + (|chunk| - 1) > MAX_FRAME {
        Reset();
        return Error;
      }
      Copy(chunk[1..]);
      if len >= 2 {
        var total := 256 * (buf[0] as int) + (buf[1] as int) + 2;
        if total < 4 || total > MAX_FRAME || len > total || (!more && len != total) {
          Reset();
          return Error;
        }
      }
      nextSeq := (nextSeq + 1) % SEQUENCES;
      if more { return NeedMore; }
      if len < 4 {
        Reset();
        return Error;
      }
      complete := true;
      result := FrameReady;
    }
  }

  /** Split a frame and hand out the chunks; `accepts` of them are taken before the
      receiver of the chunks fails. */
  method Split(frame: seq<u8>, mtu: nat, accepts: nat) returns (ok: bool, sent: seq<seq<u8>>)
    ensures mtu < 5 ==> !ok && sent == []
    ensures mtu >= 5 ==>
      var all := Chunks(frame, 0, 0, Capacity(mtu));
      (ok <==> accepts >= |all|) && sent == if ok then all else all[..accepts]
  {
    sent := [];
    if mtu < 5 { return false, []; }
    var capacity := mtu - 4;
    if capacity > MAX_FRAME { capacity := MAX_FRAME; }
    ghost var all := Chunks(frame, 0, 0, capacity);
    var number: nat, offset := 0, 0;
    hide Chunks;
    while offset < |frame|
      invariant 0 <= offset && |sent| <= accepts
      invariant all == sent + Chunks(frame, offset, number, capacity)
      decreases if offset < |frame| then |frame| - offset else 0
    {
      var take := if |frame| - offset > capacity then capacity else |frame| - offset;
      var more := offset + capacity < |frame|;
      var header: u8 := (if more then MORE else 0) + number % SEQUENCES;
      var chunk := [header] + frame[offset..offset + take];
      NextChunk(frame, offset, number, capacity, chunk);
      ghost var rest := Chunks(frame, offset + capacity, number + 1, capacity);
      assert sent + ([chunk] + rest) == sent + [chunk] + rest;
      if |sent| == accepts {
        assert all[..accepts] == sent;
        return false, sent;
      }
      sent := sent + [chunk];
      offset := offset + capacity;
      number := number + 1;
    }
    NoMoreChunks(frame, offset, number, capacity);
    ok := true;
  }

  lemma NextChunk(frame: seq<u8>, offset: nat, number: nat, capacity: nat, chunk: seq<u8>)
    requires capacity > 0 && offset < |frame|
    requires var more := offset + capacity < |frame|;
      chunk == [(if more then MORE else 0) + number % SEQUENCES] + frame[offset..if more then offset + capacity else |frame|]
    ensures Chunks(frame, offset, number, capacity) == [chunk] + Chunks(frame, offset + capacity, number + 1, capacity)
  {}

  lemma NoMoreChunks(frame: seq<u8>, offset: nat, number: nat, capacity: nat)
    requires capacity > 0 && offset >= |frame|
    ensures Chunks(frame, offset, number, capacity) == []
  {}
}
