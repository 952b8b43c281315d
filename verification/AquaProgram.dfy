/** SwapVM programs. */
module AquaProgram {
  import opened Bytes

  // SwapVM programs: exactly the concatenations of allow-listed instructions are read,
  // each in one way only.

  const MAX_INSTRUCTIONS := 16

  /** How many argument bytes an opcode takes. */
  datatype Arity = Exactly(n: nat) | AnyLength | Refused

  /** The closed list. Jumps (10, 11, 12) and extruction (32) are refused: past them the
      program that runs is not the list that is read. */
  function ArityOf(opcode: u8): (a: Arity)
    ensures a.Exactly? ==> a.n < 256
  {
    match opcode
    case 13 => Exactly(5)
    case 14 => Exactly(20)
    case 15 => Exactly(52)
    case 16 => Exactly(28)
    case 17 => Exactly(0)
    case 18 => Exactly(64)
    case 19 => Exactly(2)
    case 20 => AnyLength
    case 21 => Exactly(4)
    case 31 => Exactly(160)
    case 33 => Exactly(20)
    case _ => Refused
  }

  datatype Instruction = Instruction(opcode: u8, args: seq<u8>)

  predicate Takes(opcode: u8, n: nat) {
    match ArityOf(opcode)
    case Exactly(m) => n == m
    case AnyLength => true
    case Refused => false
  }

  predicate Allowed(i: Instruction) { |i.args| < 256 && Takes(i.opcode, |i.args|) }

  predicate AllAllowed(p: seq<Instruction>) { forall i | 0 <= i < |p| :: Allowed(p[i]) }

  function BytesOf(i: Instruction): (b: seq<u8>)
    requires |i.args| < 256
    ensures |b| == 2 + |i.args|
  {
    [i.opcode, |i.args|] + i.args
  }

  function Code(p: seq<Instruction>): seq<u8>
    requires AllAllowed(p)
  {
    if |p| == 0 then [] else BytesOf(p[0]) + Code(p[1..])
  }

  /** The instructions from pc on, after so many before; nothing if any is not understood. */
  function Walk(prog: seq<u8>, pc: nat, count: nat): (r: Option<seq<Instruction>>)
    decreases if pc <= |prog| then |prog| - pc else 0
  {
    if pc >= |prog| then Some([])
    else if pc + 2 > |prog| then None
    else
      var opcode, n := prog[pc], prog[pc + 1];
      if !Takes(opcode, n) || pc + 2 + n > |prog| || count >= MAX_INSTRUCTIONS then None
      else
        match Walk(prog, pc + 2 + n, count + 1)
        case None => None
        case Some(rest) => Some([Instruction(opcode, prog[pc + 2..pc + 2 + n])] + rest)
  }

  function Program(prog: seq<u8>): Option<seq<Instruction>> {
    if |prog| == 0 then None else Walk(prog, 0, 0)
  }

  /** A walk succeeds with a list exactly when the bytes are that list's code. */
  lemma {:induction false} WalkIsExact(prog: seq<u8>, pc: nat, count: nat, p: seq<Instruction>)
    requires pc <= |prog|
    ensures Walk(prog, pc, count) == Some(p) <==>
      AllAllowed(p) && (|p| == 0 || count + |p| <= MAX_INSTRUCTIONS) && prog[pc..] == Code(p)
    decreases |prog| - pc
  {
    if pc < |prog| {
      if Walk(prog, pc, count) == Some(p) {
        WalkReadsCode(prog, pc, count, p);
      } else if AllAllowed(p) && (|p| == 0 || count + |p| <= MAX_INSTRUCTIONS) && prog[pc..] == Code(p) {
        CodeIsWalked(prog, pc, count, p);
      }
    } else if |p| > 0 && AllAllowed(p) {
      assert |Code(p)| > 0;
    }
  }

  lemma {:induction false} WalkReadsCode(prog: seq<u8>, pc: nat, count: nat, p: seq<Instruction>)
    requires pc < |prog| && Walk(prog, pc, count) == Some(p)
    ensures AllAllowed(p) && count + |p| <= MAX_INSTRUCTIONS && prog[pc..] == Code(p)
    decreases |prog| - pc, 0
  {
    hide ArityOf;
    var n := prog[pc + 1];
    var next := pc + 2 + n;
    assert p[1..] == Walk(prog, next, count + 1).value;
    WalkIsExact(prog, next, count + 1, p[1..]);
    assert Allowed(p[0]);
    assert p == [p[0]] + p[1..];
    assert prog[pc..] == BytesOf(p[0]) + prog[next..];
  }

  lemma {:induction false} CodeIsWalked(prog: seq<u8>, pc: nat, count: nat, p: seq<Instruction>)
    requires pc < |prog| && AllAllowed(p) && (|p| == 0 || count + |p| <= MAX_INSTRUCTIONS) && prog[pc..] == Code(p)
    ensures Walk(prog, pc, count) == Some(p)
    decreases |prog| - pc, 0
  {
    hide ArityOf, Takes, Walk;
    assert |p| > 0;
    var first := BytesOf(p[0]);
    var next := pc + |first|;
    assert Allowed(p[0]);
    CodeBegins(prog, pc, p);
    WalkIsExact(prog, next, count + 1, p[1..]);
    assert p == [p[0]] + p[1..];
    WalkOne(prog, pc, count);
  }

  lemma CodeBegins(prog: seq<u8>, pc: nat, p: seq<Instruction>)
    requires pc < |prog| && |p| > 0 && AllAllowed(p) && prog[pc..] == Code(p)
    ensures var n := |p[0].args|; var next := pc + 2 + n;
      next <= |prog| && prog[pc] == p[0].opcode && prog[pc + 1] == n && prog[pc + 2..next] == p[0].args && prog[next..] == Code(p[1..])
  {
    hide ArityOf, Takes;
    assert Allowed(p[0]);
    var first := BytesOf(p[0]);
    var tail := prog[pc..];
    assert tail[0] == first[0] && tail[1] == first[1];
    assert tail[2..|first|] == first[2..] && tail[|first|..] == Code(p[1..]);
    assert prog[pc + 2..pc + |first|] == tail[2..|first|] && prog[pc + |first|..] == tail[|first|..];
  }

  lemma WalkOne(prog: seq<u8>, pc: nat, count: nat)
    requires pc + 2 <= |prog| && Takes(prog[pc], prog[pc + 1]) && pc + 2 + prog[pc + 1] <= |prog| && count < MAX_INSTRUCTIONS
    ensures var next := pc + 2 + prog[pc + 1]; var rest := Walk(prog, next, count + 1);
      Walk(prog, pc, count) == if rest.None? then None else Some([Instruction(prog[pc], prog[pc + 2..next])] + rest.value)
  {
    hide Takes;
  }

  /** The walk accepts exactly the code of 1 to 16 allowed instructions. */
  lemma AcceptsExactlyPrograms(prog: seq<u8>, p: seq<Instruction>)
    ensures Program(prog) == Some(p) <==>
      1 <= |p| <= 16 && AllAllowed(p) && prog == Code(p)
  {
    WalkIsExact(prog, 0, 0, p);
    assert prog[0..] == prog;
    hide ArityOf;
    if |p| > 0 && AllAllowed(p) { assert |Code(p)| > 0; }
  }

  /** Code is read in one way only. */
  lemma CodeIsUnique(p: seq<Instruction>, q: seq<Instruction>)
    requires 1 <= |p| <= 16 && 1 <= |q| <= 16 && AllAllowed(p) && AllAllowed(q) && Code(p) == Code(q)
    ensures p == q
  {
    AcceptsExactlyPrograms(Code(p), p);
    AcceptsExactlyPrograms(Code(p), q);
  }

  // ------------------------------------------------------------------ offsets

  /** Where each instruction starts, the first one at base. */
  function Offsets(p: seq<Instruction>, base: nat): (o: seq<nat>)
    ensures |o| == |p|
  {
    if |p| == 0 then [] else [base] + Offsets(p[1..], base + 2 + |p[0].args|)
  }

  /** The offsets tile the program: each instruction stands at its own, they follow one
      another without gap or overlap, and the last one ends with the program. */
  lemma {:induction false} OffsetsTile(data: seq<u8>, p: seq<Instruction>, base: nat, k: nat)
    requires AllAllowed(p) && Stands(data, base, Code(p)) && k < |p|
    ensures Stands(data, Offsets(p, base)[k], BytesOf(p[k]))
    ensures Offsets(p, base)[0] == base
    ensures var end := Offsets(p, base)[k] + |BytesOf(p[k])|;
      if k + 1 < |p| then Offsets(p, base)[k + 1] == end else end == base + |Code(p)|
  {
    hide ArityOf, Allowed;
    assert Allowed(p[0]);
    FirstStands(data, p, base);
    assert forall i | 0 <= i < |p[1..]| :: p[1..][i] == p[i + 1];
    var next := base + 2 + |p[0].args|;
    if k > 0 {
      OffsetsTile(data, p[1..], next, k - 1);
    } else if |p| > 1 {
      OffsetsTile(data, p[1..], next, 0);
    }
  }

  lemma FirstStands(data: seq<u8>, p: seq<Instruction>, base: nat)
    requires |p| > 0 && AllAllowed(p) && Stands(data, base, Code(p))
    ensures |p[0].args| < 256 && Stands(data, base, BytesOf(p[0])) && Stands(data, base + 2 + |p[0].args|, Code(p[1..]))
    ensures |Code(p)| == |BytesOf(p[0])| + |Code(p[1..])|
  {
    assert Allowed(p[0]);
    StandsSplit(data, base, BytesOf(p[0]), Code(p[1..]));
  }

  // ----------------------------------------------------------------- the code

  /** What the walk has done up to pc: these instructions, at these offsets. */
  ghost predicate Walked(prog: seq<u8>, pc: nat, read: seq<Instruction>, offsets: seq<nat>, base: nat) {
    && pc <= |prog| && |read| == |offsets| <= MAX_INSTRUCTIONS
    && Walk(prog, 0, 0) == Behind(read, Walk(prog, pc, |read|))
    && offsets == Offsets(read, base) && Length(read) == pc
  }

  lemma WalkStarts(prog: seq<u8>, base: nat)
    ensures Walked(prog, 0, [], [], base)
  {
    EmptyOffsets(base);
    assert Length([]) == 0;
  }

  lemma WalkGoesOn(prog: seq<u8>, pc: nat, read: seq<Instruction>, offsets: seq<nat>, base: nat)
    requires Walked(prog, pc, read, offsets, base) && pc + 2 <= |prog| && |read| < MAX_INSTRUCTIONS
    requires Takes(prog[pc], prog[pc + 1]) && pc + 2 + prog[pc + 1] <= |prog|
    ensures Walked(prog, pc + 2 + prog[pc + 1], read + [Instruction(prog[pc], prog[pc + 2..pc + 2 + prog[pc + 1]])],
                   offsets + [base + pc], base)
  {
    hide Takes;
    var i := Instruction(prog[pc], prog[pc + 2..pc + 2 + prog[pc + 1]]);
    BehindOne(read, i, Walk(prog, pc + 2 + prog[pc + 1], |read| + 1));
    OneMoreOffset(read, i, base);
  }

  lemma WalkFails(prog: seq<u8>, pc: nat, read: seq<Instruction>, offsets: seq<nat>, base: nat)
    requires Walked(prog, pc, read, offsets, base) && pc < |prog|
    requires pc + 2 > |prog| || !Takes(prog[pc], prog[pc + 1]) || pc + 2 + prog[pc + 1] > |prog| || |read| >= MAX_INSTRUCTIONS
    ensures Program(prog).None?
  {
    hide Takes;
  }

  lemma WalkEnds(prog: seq<u8>, read: seq<Instruction>, offsets: seq<nat>, base: nat)
    requires Walked(prog, |prog|, read, offsets, base) && |prog| > 0
    ensures Program(prog) == Some(read) && offsets == Offsets(read, base) && |offsets| <= MAX_INSTRUCTIONS
  {
    assert read + [] == read;
  }

  /** Walk a program that stands in the calldata, recording where each instruction starts. */
  method ProgramWalk(data: seq<u8>, progOff: nat, progLen: nat, off: array<nat>) returns (ok: bool, count: nat)
    requires progOff + progLen <= |data| && off.Length == MAX_INSTRUCTIONS
    modifies off
    ensures ok <==> Program(data[progOff..progOff + progLen]).Some?
    ensures ok ==> count <= MAX_INSTRUCTIONS
    ensures ok ==> off[..count] == Offsets(Program(data[progOff..progOff + progLen]).value, progOff)
  {
    var prog := data[progOff..progOff + progLen];
    assert progLen == 0 ==> Program(prog) == None;
    hide Walk, Program, Takes, Walked, Offsets;
    count := 0;
    if progLen == 0 { return false, 0; }
    var pc := 0;
    ghost var read: seq<Instruction> := [];
    WalkStarts(prog, progOff);
    assert off[..0] == [];
    while pc < progLen
      invariant 0 <= pc <= progLen && count == |read| <= MAX_INSTRUCTIONS
      invariant Walked(prog, pc, read, off[..count], progOff)
    {
      if pc + 2 > progLen || !Takes(prog[pc], prog[pc + 1]) || pc + 2 + prog[pc + 1] > progLen || count >= MAX_INSTRUCTIONS {
        WalkFails(prog, pc, read, off[..count], progOff);
        return false, count;
      }
      var n := prog[pc + 1];
      WalkGoesOn(prog, pc, read, off[..count], progOff);
      off[count] := progOff + pc;
      assert off[..count + 1] == off[..count] + [progOff + pc];
      read := read + [Instruction(prog[pc], prog[pc + 2..pc + 2 + n])];
      pc := pc + 2 + n;
      count := count + 1;
    }
    WalkEnds(prog, read, off[..count], progOff);
    ok := true;
  }

  ghost function Behind(read: seq<Instruction>, more: Option<seq<Instruction>>): Option<seq<Instruction>> {
    if more.None? then None else Some(read + more.value)
  }

  lemma BehindOne(read: seq<Instruction>, i: Instruction, more: Option<seq<Instruction>>)
    ensures Behind(read, if more.None? then None else Some([i] + more.value)) == Behind(read + [i], more)
  {
    if more.Some? { assert read + ([i] + more.value) == read + [i] + more.value; }
  }

  ghost function Length(p: seq<Instruction>): nat {
    if |p| == 0 then 0 else Length(p[..|p| - 1]) + 2 + |p[|p| - 1].args|
  }

  lemma EmptyOffsets(base: nat)
    ensures Offsets([], base) == []
    ensures forall more: Option<seq<Instruction>> :: Behind([], more) == more
  {
    forall more: Option<seq<Instruction>> ensures Behind([], more) == more {
      if more.Some? { assert [] + more.value == more.value; }
    }
  }

  lemma {:induction false} OneMoreOffset(p: seq<Instruction>, i: Instruction, base: nat)
    ensures Offsets(p + [i], base) == Offsets(p, base) + [base + Length(p)]
    ensures Length(p + [i]) == Length(p) + 2 + |i.args|
  {
    assert (p + [i])[..|p|] == p;
    if |p| > 0 {
      OneMoreOffset(p[1..], i, base + 2 + |p[0].args|);
      assert (p + [i])[1..] == p[1..] + [i];
      LengthFromFront(p);
    } else {
      assert p + [i] == [i];
      assert Offsets([i][1..], base + 2 + |i.args|) == [];
    }
  }

  lemma {:induction false} LengthFromFront(p: seq<Instruction>)
    requires |p| > 0
    ensures Length(p) == 2 + |p[0].args| + Length(p[1..])
  {
    if |p| > 1 {
      LengthFromFront(p[..|p| - 1]);
      assert p[..|p| - 1][1..] == p[1..][..|p[1..]| - 1];
    }
  }

  /** What a page finds at a recorded offset: an opcode of the list, inside the buffer that
      the page is drawn from. */
  function InstrAt(data: seq<u8>, offsets: seq<nat>, i: int): Option<u8> {
    if 0 <= i < |offsets| && offsets[i] + 2 <= |data| && !ArityOf(data[offsets[i]]).Refused? then Some(data[offsets[i]]) else None
  }

  method InstrLookup(data: seq<u8>, offsets: seq<nat>, i: int) returns (found: Option<u8>)
    ensures found == InstrAt(data, offsets, i)
    ensures found.Some? <==>
      0 <= i < |offsets| && offsets[i] + 2 <= |data| && data[offsets[i]] in {13, 14, 15, 16, 17, 18, 19, 20, 21, 31, 33}
  {
    if i < 0 || i >= |offsets| { return None; }
    var o := offsets[i];
    if o + 2 > |data| { return None; }
    var opcode := data[o];
    if ArityOf(opcode).Refused? { return None; }
    found := Some(opcode);
  }

  /** Looked up at the offsets that the walk recorded, every instruction of the program is
      found with its own opcode, and no further one is. */
  lemma LookupFindsTheProgram(data: seq<u8>, progOff: nat, progLen: nat, i: int)
    requires progOff + progLen <= |data| && Program(data[progOff..progOff + progLen]).Some?
    ensures var p := Program(data[progOff..progOff + progLen]).value;
      InstrAt(data, Offsets(p, progOff), i) == if 0 <= i < |p| then Some(p[i].opcode) else None
  {
    hide Program, Offsets, ArityOf;
    var p := Program(data[progOff..progOff + progLen]).value;
    if 0 <= i < |p| { RecordedIsFound(data, progOff, progLen, i); }
  }

  /** Every recorded instruction is found again on the same bytes, with its arguments. */
  lemma RecordedIsFound(data: seq<u8>, progOff: nat, progLen: nat, k: nat)
    requires progOff + progLen <= |data| && Program(data[progOff..progOff + progLen]).Some?
    requires k < |Program(data[progOff..progOff + progLen]).value|
    ensures var p := Program(data[progOff..progOff + progLen]).value; var o := Offsets(p, progOff)[k];
      o + 2 + |p[k].args| <= progOff + progLen && data[o] == p[k].opcode && !ArityOf(data[o]).Refused?
      && data[o + 1] == |p[k].args| && data[o + 2..o + 2 + |p[k].args|] == p[k].args
  {
    var prog := data[progOff..progOff + progLen];
    var p := Program(prog).value;
    AcceptsExactlyPrograms(prog, p);
    assert Stands(data, progOff, Code(p));
    OffsetsTile(data, p, progOff, k);
    assert Allowed(p[k]);
    hide ArityOf, Program, Walk, Code, Offsets;
    var o := Offsets(p, progOff)[k];
    var b := BytesOf(p[k]);
    assert data[o..o + |b|][0] == b[0] && data[o..o + |b|][1] == b[1] && data[o..o + |b|][2..] == b[2..];
    EndsInside(data, p, progOff, k);
  }

  lemma {:induction false} EndsInside(data: seq<u8>, p: seq<Instruction>, base: nat, k: nat)
    requires AllAllowed(p) && Stands(data, base, Code(p)) && k < |p|
    ensures Offsets(p, base)[k] + |BytesOf(p[k])| <= base + |Code(p)|
    decreases |p| - k
  {
    hide Offsets, Code, ArityOf, Allowed, Stands;
    OffsetsTile(data, p, base, k);
    if k + 1 < |p| { EndsInside(data, p, base, k + 1); }
  }
}
