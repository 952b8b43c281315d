/** Entering a recovery phrase with three keys. */
module Mnemonic {
  import opened Arith
  import opened Bytes

  // Entering a recovery phrase with three keys: only what can still become a word is
  // offered, nothing is committed that is not in the list, and every word can be reached.

  const WORD_LEN := 10
  const WORD_MODE_MAX := 8
  const GROUP_MIN := 8

  type Word = string

  /** What may complete a prefix, as the word list's own table has it. */
  type Mask = Word -> set<char>

  datatype Choice = Letter(c: char) | Commit

  datatype Outcome = Continue | WordDone | AllDone

  /** Everything the entry holds. */
  datatype Entry = Entry(words: seq<Word>, target: nat, prefix: Word, options: seq<Choice>, index: nat,
                         wordMode: bool, candidates: seq<Word>, groupSize: nat, inGroup: bool)

  /** The word list, its completion table, and whether long lists are split in blocks. */
  datatype Setting = Setting(list: seq<Word>, mask: Mask, blocks: bool)

  predicate IsWord(w: Word) { 1 <= |w| <= 8 && forall i | 0 <= i < |w| :: 'a' <= w[i] <= 'z' }

  predicate Starts(w: Word, prefix: Word) { |prefix| <= |w| && w[..|prefix|] == prefix }

  /** Distinct lowercase words of up to eight letters, and a table that misses no
      letter that continues a word. */
  ghost predicate GoodSetting(s: Setting) {
    && (forall i | 0 <= i < |s.list| :: IsWord(s.list[i]))
    && (forall i, j | 0 <= i < j < |s.list| :: s.list[i] != s.list[j])
    && (forall w, n | w in s.list && 0 <= n < |w| :: w[n] in s.mask(w[..n]))
  }

  // -------------------------------------------------------------- the options

  /** The words among the first n that start with a prefix, in order. */
  function Matches(list: seq<Word>, prefix: Word, n: nat): (m: seq<Word>)
    requires n <= |list|
    ensures forall w :: w in m ==> w in list && Starts(w, prefix)
  {
    if n == 0 then []
    else Matches(list, prefix, n - 1) + if Starts(list[n - 1], prefix) then [list[n - 1]] else []
  }

  function AllMatches(list: seq<Word>, prefix: Word): seq<Word> { Matches(list, prefix, |list|) }

  lemma {:induction false} MatchIsFound(list: seq<Word>, prefix: Word, n: nat, k: nat)
    requires k < n <= |list| && Starts(list[k], prefix)
    ensures list[k] in Matches(list, prefix, n)
  {
    if k < n - 1 { MatchIsFound(list, prefix, n - 1, k); }
  }

  lemma WordMatches(list: seq<Word>, prefix: Word, w: Word)
    requires w in list && Starts(w, prefix)
    ensures w in AllMatches(list, prefix)
  {
    var k :| 0 <= k < |list| && list[k] == w;
    MatchIsFound(list, prefix, |list|, k);
  }

  function LetterAt(i: nat): char
    requires i < 26
  {
    'a' + i as char
  }

  /** Letters that the table allows and that really continue a word, among the first n. */
  function Letters(s: Setting, prefix: Word, n: nat): (l: seq<Choice>)
    requires n <= 26
    ensures |l| <= n && forall o :: o in l ==> o.Letter?
  {
    if n == 0 then []
    else
      var c := LetterAt(n - 1);
      Letters(s, prefix, n - 1)
      + if c in s.mask(prefix) && |AllMatches(s.list, prefix + [c])| > 0 then [Letter(c)] else []
  }

  lemma {:induction false} LetterIsOffered(s: Setting, prefix: Word, n: nat, c: char)
    requires n <= 26 && 'a' <= c && (c as int) < 'a' as int + n
    requires c in s.mask(prefix) && |AllMatches(s.list, prefix + [c])| > 0
    ensures Letter(c) in Letters(s, prefix, n)
  {
    if c != LetterAt(n - 1) { LetterIsOffered(s, prefix, n - 1, c); }
  }

  /** The smallest number whose square is at least n. */
  function Root(n: nat, from: nat): (g: nat)
    requires from > 0
    ensures g >= from && g * g >= n
    decreases if from * from < n then n - from * from else 0
  {
    if from * from >= n then from
    else
      MulStrict(from, from + 1, from);
      MulAdd(from, 1, from + 1);
      Root(n, from + 1)
  }

  function Options(s: Setting, prefix: Word): (o: seq<Choice>)
    ensures 0 < |o| <= 27
  {
    var letters := Letters(s, prefix, 26);
    var commit := |prefix| > 0 && (prefix in s.list || |AllMatches(s.list, prefix)| == 1);
    var all := letters + if commit then [Commit] else [];
    if |all| == 0 then [Commit] else all
  }

  /** The selector rebuilt from the prefix. */
  function Rebuilt(s: Setting, e: Entry): Entry {
    var m := AllMatches(s.list, e.prefix);
    if |e.prefix| > 0 && 0 < |m| <= WORD_MODE_MAX then
      e.(options := seq(|m|, i => Commit), index := 0, wordMode := true, candidates := m, groupSize := 0, inGroup := false)
    else
      var o := Options(s, e.prefix);
      e.(options := o, index := 0, wordMode := false, candidates := [],
         groupSize := if s.blocks && |o| > GROUP_MIN then Root(|o|, 1) else 0, inGroup := false)
  }

  function Reset(s: Setting, targetWords: int): Entry {
    Rebuilt(s, Entry([], if targetWords == 24 then 24 else 12, [], [], 0, false, [], 0, false))
  }

  // ----------------------------------------------------------------- the keys

  predicate OnGroup(e: Entry) { e.groupSize > 0 && !e.inGroup }

  function GroupCount(e: Entry): nat {
    if e.groupSize == 0 then 1 else (|e.options| + e.groupSize - 1) / e.groupSize
  }

  function BlockStart(e: Entry): nat { if e.groupSize == 0 then 0 else e.index / e.groupSize * e.groupSize }

  function BlockEnd(e: Entry): nat {
    if e.groupSize == 0 || BlockStart(e) + e.groupSize > |e.options| then |e.options| else BlockStart(e) + e.groupSize
  }

  /** So many steps around a ring of n places, forward or back. */
  function Around(at: nat, n: nat, steps: int): (r: nat)
    requires at < n
    ensures r < n
  {
    (at + steps) % n
  }

  lemma AroundOne(at: nat, n: nat)
    requires at + 1 < n
    ensures Around(at, n, 1) == at + 1
  {
    DivUnique(at + 1, n, 0, at + 1);
  }

  /** The remainder of a division that truncates: it has the sign of its dividend. */
  function Rem(a: int, n: nat): int
    requires n > 0
  {
    if a >= 0 then a % n else -((-a) % n)
  }

  /** Two such remainders wrap around a ring, whichever way the steps go. */
  lemma WrapsAround(a: int, n: nat)
    requires n > 0
    ensures Rem(Rem(a, n) + n, n) == a % n
  {
    if a >= 0 {
      DivUnique(a % n + n, n, 1, a % n);
    } else {
      var q, r := (-a) / n, (-a) % n;
      DivMod(-a, n);
      if r == 0 {
        DivUnique(n, n, 1, 0);
        MulAdd(-q, 0, n);
        DivUnique(a, n, -q, 0);
      } else {
        DivUnique(n - r, n, 0, n - r);
        assert a == (-q - 1) * n + (n - r);
        DivUnique(a, n, -q - 1, n - r);
      }
    }
  }

  /** The selector is where it can be: on an option, inside its block, on the first
      option of a block while blocks are chosen. */
  predicate Placed(e: Entry) {
    && 0 < |e.options| <= 27 && e.index < |e.options|
    && (e.inGroup ==> e.groupSize > 0)
    && (e.wordMode ==> e.groupSize == 0)
    && (OnGroup(e) ==> e.index % e.groupSize == 0)
  }

  function Scroll(e: Entry, steps: int): (r: Entry)
    requires Placed(e)
  {
    if OnGroup(e) then
      BlockFacts(e);
      e.(index := Around(e.index / e.groupSize, GroupCount(e), steps) * e.groupSize)
    else
      BlockFacts(e);
      e.(index := BlockStart(e) + Around(e.index - BlockStart(e), BlockEnd(e) - BlockStart(e), steps))
  }

  /** The block of the selected option contains it. */
  lemma BlockFacts(e: Entry)
    requires Placed(e)
    ensures BlockStart(e) <= e.index < BlockEnd(e) <= |e.options|
    ensures e.groupSize > 0 ==> e.index / e.groupSize < GroupCount(e)
  {
    if e.groupSize > 0 {
      var g, n := e.groupSize, |e.options|;
      DivMod(e.index, g);
      DivMod(n + g - 1, g);
      if e.index / g >= GroupCount(e) {
        MulMonotone((n + g - 1) / g, e.index / g, g);
      }
    }
  }

  function Commits(s: Setting, e: Entry, word: Word): Entry {
    Rebuilt(s, e.(words := e.words + [word], prefix := []))
  }

  function Stored(e: Entry): Outcome { if |e.words| >= e.target then AllDone else WordDone }

  function Accept(s: Setting, e: Entry): (Entry, Outcome)
    requires Placed(e)
  {
    if |e.words| >= e.target then (e, AllDone)
    else if OnGroup(e) then (e.(inGroup := true), Continue)
    else if e.wordMode && e.index < |e.candidates| then
      var c := Commits(s, e, e.candidates[e.index]);
      (c, Stored(c))
    else
      match e.options[e.index]
      case Commit =>
        var m := AllMatches(s.list, e.prefix);
        if |e.prefix| > 0 && |m| == 1 then
          var c := Commits(s, e, m[0]);
          (c, Stored(c))
        else if |e.prefix| > 0 && e.prefix in s.list then
          var c := Commits(s, e, e.prefix);
          (c, Stored(c))
        else (e, Continue)
      case Letter(c) =>
        if |e.prefix| >= WORD_LEN - 1 then (e, Continue)
        else (Rebuilt(s, e.(prefix := e.prefix + [c])), Continue)
  }

  function Back(s: Setting, e: Entry): (Entry, bool)
    requires Placed(e)
  {
    if e.inGroup then (e.(index := BlockStart(e), inGroup := false), true)
    else if |e.prefix| > 0 then (Rebuilt(s, e.(prefix := e.prefix[..|e.prefix| - 1])), true)
    else if |e.words| > 0 then
      var last := e.words[|e.words| - 1];
      var prefix := if |last| > 0 then last[..|last| - 1] else last;
      (Rebuilt(s, e.(words := e.words[..|e.words| - 1], prefix := prefix)), true)
    else (e, false)
  }

  datatype Key = Up | Down | Take | Undo

  function Press(s: Setting, e: Entry, key: Key): Entry
    requires Placed(e)
  {
    match key
    case Up => Scroll(e, 1)
    case Down => Scroll(e, -1)
    case Take => Accept(s, e).0
    case Undo => Back(s, e).0
  }

  // --------------------------------------------------------------- invariants

  /** Committed words are in the list; word candidates are words of the list that start
      with the prefix, one per option. */
  ghost predicate Inv(s: Setting, e: Entry) {
    && Placed(e)
    && (e.target == 12 || e.target == 24) && |e.words| <= e.target
    && (forall w | w in e.words :: w in s.list)
    && |e.prefix| < WORD_LEN
    && (e.wordMode ==> |e.candidates| == |e.options| && forall w | w in e.candidates :: w in s.list && Starts(w, e.prefix))
  }

  lemma RebuiltIsOk(s: Setting, e: Entry)
    requires (e.target == 12 || e.target == 24) && |e.words| <= e.target
    requires (forall w | w in e.words :: w in s.list) && |e.prefix| < WORD_LEN
    ensures Inv(s, Rebuilt(s, e))
  {
    hide Options, Root, Matches;
    assert Rebuilt(s, e).index == 0;
  }

  lemma ResetIsOk(s: Setting, targetWords: int)
    ensures Inv(s, Reset(s, targetWords))
  {
    RebuiltIsOk(s, Entry([], if targetWords == 24 then 24 else 12, [], [], 0, false, [], 0, false));
  }

  lemma ScrollIsOk(s: Setting, e: Entry, steps: int)
    requires Inv(s, e)
    ensures Inv(s, Scroll(e, steps))
    ensures e.inGroup ==> BlockStart(Scroll(e, steps)) == BlockStart(e) && BlockEnd(Scroll(e, steps)) == BlockEnd(e)
  {
    BlockFacts(e);
    if e.groupSize > 0 {
      var g, n := e.groupSize, |e.options|;
      if OnGroup(e) {
        var k := Around(e.index / g, GroupCount(e), steps);
        DivMod(n + g - 1, g);
        MulStrict(k, (n + g - 1) / g, g);
        DivUnique(k * g, g, k, 0);
      } else {
        var i := Scroll(e, steps).index;
        DivMod(e.index, g);
        DivUnique(i, g, e.index / g, i - BlockStart(e));
      }
    }
  }

  /** Every key keeps the invariant: the selector stays on an option of the current
      block, and every committed word stays a word of the list. */
  lemma PressIsOk(s: Setting, e: Entry, key: Key)
    requires GoodSetting(s) && Inv(s, e)
    ensures Inv(s, Press(s, e, key))
  {
    hide Rebuilt;
    match key
    case Up => ScrollIsOk(s, e, 1);
    case Down => ScrollIsOk(s, e, -1);
    case Take => AcceptIsOk(s, e);
    case Undo => BackIsOk(s, e);
  }

  lemma AcceptIsOk(s: Setting, e: Entry)
    requires Inv(s, e)
    ensures Inv(s, Accept(s, e).0)
  {
    hide Rebuilt;
    if |e.words| < e.target && !OnGroup(e) {
      if e.wordMode && e.index < |e.candidates| {
        assert e.candidates[e.index] in e.candidates;
        RebuiltIsOk(s, e.(words := e.words + [e.candidates[e.index]], prefix := []));
      } else if e.options[e.index].Commit? {
        var m := AllMatches(s.list, e.prefix);
        if |e.prefix| > 0 && |m| == 1 {
          assert m[0] in m;
          RebuiltIsOk(s, e.(words := e.words + [m[0]], prefix := []));
        } else if |e.prefix| > 0 && e.prefix in s.list {
          RebuiltIsOk(s, e.(words := e.words + [e.prefix], prefix := []));
        }
      } else if |e.prefix| < WORD_LEN - 1 {
        RebuiltIsOk(s, e.(prefix := e.prefix + [e.options[e.index].c]));
      }
    }
  }

  lemma BackIsOk(s: Setting, e: Entry)
    requires GoodSetting(s) && Inv(s, e)
    ensures Inv(s, Back(s, e).0)
  {
    hide Rebuilt;
    if e.inGroup {
      BlockFacts(e);
      DivUnique(BlockStart(e), e.groupSize, e.index / e.groupSize, 0);
    } else if |e.prefix| > 0 {
      RebuiltIsOk(s, e.(prefix := e.prefix[..|e.prefix| - 1]));
    } else if |e.words| > 0 {
      var last := e.words[|e.words| - 1];
      assert last in e.words && last in s.list;
      assert IsWord(last);
      RebuiltIsOk(s, e.(words := e.words[..|e.words| - 1], prefix := last[..|last| - 1]));
    }
  }

  /** Keys pressed one after the other. */
  ghost function Pressed(s: Setting, e: Entry, keys: seq<Key>): Entry
    requires GoodSetting(s) && Inv(s, e)
    ensures Inv(s, Pressed(s, e, keys))
    decreases |keys|
  {
    if |keys| == 0 then e
    else
      PressIsOk(s, e, keys[0]);
      Pressed(s, Press(s, e, keys[0]), keys[1..])
  }

  /** In every state that any keys lead to, every committed word is in the list. */
  lemma OnlyListedWords(s: Setting, targetWords: int, keys: seq<Key>)
    requires GoodSetting(s)
    ensures Inv(s, Reset(s, targetWords))
    ensures var e := Pressed(s, Reset(s, targetWords), keys);
      e.index < |e.options| && BlockStart(e) <= e.index < BlockEnd(e) && forall w | w in e.words :: w in s.list
  {
    ResetIsOk(s, targetWords);
    BlockFacts(Pressed(s, Reset(s, targetWords), keys));
  }

  // ------------------------------------------------------------- reachability

  lemma {:induction false} PressedInTwo(s: Setting, e: Entry, a: seq<Key>, b: seq<Key>)
    requires GoodSetting(s) && Inv(s, e)
    ensures Pressed(s, e, a + b) == Pressed(s, Pressed(s, e, a), b)
    decreases |a|
  {
    hide Press, GoodSetting;
    if |a| == 0 {
      assert a + b == b;
    } else {
      assert (a + b)[0] == a[0] && (a + b)[1..] == a[1..] + b;
      PressIsOk(s, e, a[0]);
      PressedInTwo(s, Press(s, e, a[0]), a[1..], b);
    }
  }

  function Ups(n: nat): (k: seq<Key>)
    ensures |k| == n
  {
    seq(n, i => Up)
  }

  /** Scrolling up n times inside the block, or the flat list, moves n options on. */
  lemma {:induction false} ScrollWithin(s: Setting, e: Entry, n: nat)
    requires GoodSetting(s) && Inv(s, e) && !OnGroup(e) && e.index + n < BlockEnd(e)
    ensures Pressed(s, e, Ups(n)) == e.(index := e.index + n)
    decreases n
  {
    hide GoodSetting;
    if n > 0 {
      BlockFacts(e);
      AroundOne(e.index - BlockStart(e), BlockEnd(e) - BlockStart(e));
      var next := Press(s, e, Up);
      assert next == e.(index := e.index + 1);
      ScrollIsOk(s, e, 1);
      if e.groupSize > 0 {
        DivMod(e.index, e.groupSize);
        DivUnique(e.index + 1, e.groupSize, e.index / e.groupSize, e.index + 1 - BlockStart(e));
      }
      assert BlockEnd(next) == BlockEnd(e);
      assert Ups(n)[1..] == Ups(n - 1);
      ScrollWithin(s, next, n - 1);
    }
  }

  /** Scrolling up n times over blocks moves n blocks on. */
  lemma {:induction false} ScrollBlocks(s: Setting, e: Entry, n: nat)
    requires GoodSetting(s) && Inv(s, e) && OnGroup(e) && e.index / e.groupSize + n < GroupCount(e)
    ensures Pressed(s, e, Ups(n)) == e.(index := (e.index / e.groupSize + n) * e.groupSize)
    decreases n
  {
    hide GoodSetting;
    var g := e.groupSize;
    DivMod(e.index, g);
    if n > 0 {
      BlockFacts(e);
      AroundOne(e.index / g, GroupCount(e));
      var next := Press(s, e, Up);
      ScrollIsOk(s, e, 1);
      assert next == e.(index := (e.index / g + 1) * g);
      DivUnique(next.index, g, e.index / g + 1, 0);
      assert Ups(n)[1..] == Ups(n - 1);
      ScrollBlocks(s, next, n - 1);
    }
  }

  /** The entry with an option selected and open to be taken. */
  predicate Selected(e: Entry, from: Entry, j: nat) {
    e == from.(index := j, inGroup := from.groupSize > 0)
  }

  lemma BlocksOf(j: nat, n: nat, g: nat)
    requires g > 0 && j < n
    ensures j / g < (n + g - 1) / g && j / g * g <= j < j / g * g + g
  {
    DivMod(j, g);
    DivMod(n + g - 1, g);
    if j / g >= (n + g - 1) / g { MulMonotone((n + g - 1) / g, j / g, g); }
  }

  /** From a rebuilt selector any option can be selected, in block and in flat mode. */
  lemma Select(s: Setting, e: Entry, j: nat) returns (keys: seq<Key>)
    requires GoodSetting(s) && Inv(s, e) && e.index == 0 && !e.inGroup && j < |e.options| && |e.words| < e.target
    ensures Selected(Pressed(s, e, keys), e, j)
  {
    if e.groupSize == 0 {
      keys := Ups(j);
      ScrollWithin(s, e, j);
    } else {
      keys := SelectInBlocks(s, e, j);
    }
  }

  lemma SelectInBlocks(s: Setting, e: Entry, j: nat) returns (keys: seq<Key>)
    requires GoodSetting(s) && Inv(s, e) && e.index == 0 && OnGroup(e) && j < |e.options| && |e.words| < e.target
    ensures Selected(Pressed(s, e, keys), e, j)
  {
    hide GoodSetting;
    var g := e.groupSize;
    var k := j / g;
    BlocksOf(j, |e.options|, g);
    DivUnique(0, g, 0, 0);
    ScrollBlocks(s, e, k);
    var there := e.(index := k * g);
    PressIsOk(s, there, Take);
    var open := Press(s, there, Take);
    assert open == e.(index := k * g, inGroup := true);
    DivUnique(k * g, g, k, 0);
    ScrollWithin(s, open, j - k * g);
    keys := Ups(k) + ([Take] + Ups(j - k * g));
    PressedInTwo(s, e, Ups(k), [Take] + Ups(j - k * g));
    assert ([Take] + Ups(j - k * g))[1..] == Ups(j - k * g);
  }

  /** Selecting an option and taking it. */
  lemma SelectAndTake(s: Setting, e: Entry, j: nat) returns (keys: seq<Key>)
    requires GoodSetting(s) && Inv(s, e) && e.index == 0 && !e.inGroup && j < |e.options| && |e.words| < e.target
    ensures Inv(s, e.(index := j, inGroup := e.groupSize > 0))
    ensures Pressed(s, e, keys) == Accept(s, e.(index := j, inGroup := e.groupSize > 0)).0
  {
    hide GoodSetting, Accept;
    var path := Select(s, e, j);
    keys := path + [Take];
    PressedInTwo(s, e, path, [Take]);
    var at := Pressed(s, e, path);
    assert [Take][1..] == [];
    PressIsOk(s, at, Take);
  }

  /** The word was committed, and the next one starts afresh. */
  predicate Committed(s: Setting, e: Entry, w: Word, after: Entry) {
    after.words == e.words + [w] && after.prefix == [] && after.target == e.target && after == Rebuilt(s, after)
  }

  lemma CommitsFreshly(s: Setting, e: Entry, w: Word)
    ensures Committed(s, e, w, Commits(s, e, w))
  {
    hide Options, Root, AllMatches;
  }

  /** Typing a word from any of its prefixes on. */
  lemma {:induction false} Spell(s: Setting, e: Entry, w: Word) returns (keys: seq<Key>)
    requires GoodSetting(s) && Inv(s, e) && w in s.list && Starts(w, e.prefix) && e == Rebuilt(s, e) && |e.words| < e.target
    ensures Committed(s, e, w, Pressed(s, e, keys))
    decreases |w| - |e.prefix|
  {
    WordMatches(s.list, e.prefix, w);
    if e.wordMode {
      var j :| 0 <= j < |e.candidates| && e.candidates[j] == w;
      keys := SelectAndTake(s, e, j);
      CommitsFreshly(s, e.(index := j, inGroup := e.groupSize > 0), w);
    } else if |e.prefix| == |w| {
      keys := SpellWhole(s, e, w);
    } else {
      keys := SpellLetter(s, e, w);
    }
  }

  /** The prefix is the word, and more words than can be listed extend it. */
  lemma {:induction false} SpellWhole(s: Setting, e: Entry, w: Word) returns (keys: seq<Key>)
    requires GoodSetting(s) && Inv(s, e) && w in s.list && e.prefix == w && e == Rebuilt(s, e) && |e.words| < e.target
    requires !e.wordMode && w in AllMatches(s.list, e.prefix)
    ensures Committed(s, e, w, Pressed(s, e, keys))
  {
    hide Letters, AllMatches, Root;
    var k :| 0 <= k < |s.list| && s.list[k] == w;
    assert IsWord(w);
    assert |AllMatches(s.list, e.prefix)| > WORD_MODE_MAX;
    var j := |e.options| - 1;
    assert e.options == Options(s, e.prefix);
    assert e.options[j] == Commit;
    keys := SelectAndTake(s, e, j);
    CommitsFreshly(s, e.(index := j, inGroup := e.groupSize > 0), w);
  }

  /** The next letter is offered, and taking it leaves less to spell. */
  lemma {:induction false} SpellLetter(s: Setting, e: Entry, w: Word) returns (keys: seq<Key>)
    requires GoodSetting(s) && Inv(s, e) && w in s.list && Starts(w, e.prefix) && e == Rebuilt(s, e) && |e.words| < e.target
    requires !e.wordMode && |e.prefix| < |w|
    ensures Committed(s, e, w, Pressed(s, e, keys))
    decreases |w| - |e.prefix|, 0
  {
    var c := w[|e.prefix|];
    var j := NextLetter(s, e, w);
    var first := SelectAndTake(s, e, j);
    var next := Pressed(s, e, first);
    TakenLetter(s, e, j, c);
    assert Starts(w, e.prefix + [c]);
    var rest := Spell(s, next, w);
    keys := first + rest;
    PressedInTwo(s, e, first, rest);
  }

  lemma TakenLetter(s: Setting, e: Entry, j: nat, c: char)
    requires Inv(s, e) && j < |e.options| && e.options[j] == Letter(c) && |e.words| < e.target && !e.wordMode && |e.prefix| < 8
    requires Inv(s, e.(index := j, inGroup := e.groupSize > 0))
    ensures var next := Accept(s, e.(index := j, inGroup := e.groupSize > 0)).0;
      next == Rebuilt(s, next) && next.prefix == e.prefix + [c] && next.words == e.words && next.target == e.target
  {
    hide Options, Root, Matches;
  }

  lemma NextLetter(s: Setting, e: Entry, w: Word) returns (j: nat)
    requires GoodSetting(s) && w in s.list && Starts(w, e.prefix) && e == Rebuilt(s, e) && !e.wordMode && |e.prefix| < |w|
    ensures |w| <= 8 && j < |e.options| && e.options[j] == Letter(w[|e.prefix|])
  {
    var n := |e.prefix|;
    var c := w[n];
    var k :| 0 <= k < |s.list| && s.list[k] == w;
    assert IsWord(w);
    assert w[..n + 1] == e.prefix + [c];
    WordMatches(s.list, e.prefix + [c], w);
    assert w[n] in s.mask(w[..n]);
    LetterIsOffered(s, e.prefix, 26, c);
    var letters := Letters(s, e.prefix, 26);
    j :| 0 <= j < |letters| && letters[j] == Letter(c);
    hide Letters, AllMatches, Root;
    assert e.options == Options(s, e.prefix);
  }

  lemma RebuiltTwice(s: Setting, e: Entry)
    ensures Rebuilt(s, Rebuilt(s, e)) == Rebuilt(s, e)
  {
    hide Options, Root, AllMatches;
  }

  /** From a fresh word, any phrase of listed words that still fits can be entered by
      some keys, whether long option lists are flat or in blocks. */
  lemma {:induction false} EveryPhraseIsReachable(s: Setting, e: Entry, phrase: seq<Word>) returns (keys: seq<Key>)
    requires GoodSetting(s) && Inv(s, e) && e.prefix == [] && e == Rebuilt(s, e) && |e.words| + |phrase| <= e.target
    requires forall w | w in phrase :: w in s.list
    ensures Pressed(s, e, keys).words == e.words + phrase
    decreases |phrase|
  {
    hide Rebuilt, Inv, GoodSetting, Pressed;
    if |phrase| == 0 {
      keys := [];
      NoKeys(s, e);
      assert e.words + phrase == e.words;
    } else {
      assert phrase[0] in phrase;
      ShortPrefix(s, e, phrase[0]);
      var first := Spell(s, e, phrase[0]);
      var next := Pressed(s, e, first);
      assert Inv(s, next) by { PressedIsOk(s, e, first); }
      var rest := EveryPhraseIsReachable(s, next, phrase[1..]);
      keys := first + rest;
      PressedInTwo(s, e, first, rest);
      assert e.words + [phrase[0]] + phrase[1..] == e.words + phrase;
    }
  }

  lemma NoKeys(s: Setting, e: Entry)
    requires GoodSetting(s) && Inv(s, e)
    ensures Pressed(s, e, []) == e
  {}

  lemma ShortPrefix(s: Setting, e: Entry, w: Word)
    requires e.prefix == []
    ensures Starts(w, e.prefix)
  {}

  lemma PressedIsOk(s: Setting, e: Entry, keys: seq<Key>)
    requires GoodSetting(s) && Inv(s, e)
    ensures Inv(s, Pressed(s, e, keys))
  {}

  /** In particular from the first word, for 12 and for 24 words. */
  lemma EveryPhraseFromReset(s: Setting, targetWords: int, phrase: seq<Word>) returns (keys: seq<Key>)
    requires GoodSetting(s) && |phrase| == (if targetWords == 24 then 24 else 12) && forall w | w in phrase :: w in s.list
    ensures Inv(s, Reset(s, targetWords)) && Pressed(s, Reset(s, targetWords), keys).words == phrase
  {
    ResetIsOk(s, targetWords);
    RebuiltTwice(s, Entry([], if targetWords == 24 then 24 else 12, [], [], 0, false, [], 0, false));
    hide GoodSetting, Options, Root, AllMatches, Pressed;
    keys := EveryPhraseIsReachable(s, Reset(s, targetWords), phrase);
    assert [] + phrase == phrase;
  }

  // ---------------------------------------------------------------- the code

  class MnemonicEntry {
    const setting: Setting
    var words: seq<Word>
    var target: nat
    var prefix: Word
    var options: seq<Choice>
    var index: nat
    var wordMode: bool
    var candidates: seq<Word>
    var groupSize: nat
    var inGroup: bool

    ghost function View(): Entry
      reads this
    {
      Entry(words, target, prefix, options, index, wordMode, candidates, groupSize, inGroup)
    }

    /** A fresh entry; anything but 24 words means 12. */
    constructor (setting: Setting, targetWords: int)
      ensures this.setting == setting && View() == Reset(setting, targetWords) && Inv(setting, View())
    {
      this.setting := setting;
      words, prefix := [], [];
      target := if targetWords == 24 then 24 else 12;
      options, index, wordMode, candidates, groupSize, inGroup := [], 0, false, [], 0, false;
      new;
      ResetIsOk(setting, targetWords);
      Rebuild();
    }

    /** The words that start with a prefix, at most `cap` of them; one more is reported
        as too many. */
    method CollectMatches(p: Word, cap: nat) returns (found: seq<Word>, tooMany: bool)
      ensures tooMany <==> |AllMatches(setting.list, p)| > cap
      ensures !tooMany ==> found == AllMatches(setting.list, p)
    {
      found, tooMany := [], false;
      var i := 0;
      while i < |setting.list|
        invariant 0 <= i <= |setting.list| && found == Matches(setting.list, p, i) && |found| <= cap
      {
        if Starts(setting.list[i], p) {
          if |found| == cap {
            MatchesGrow(setting.list, p, i + 1, |setting.list|);
            return found, true;
          }
          found := found + [setting.list[i]];
        }
        i := i + 1;
      }
    }

    /** The options of letter mode: a, then b, and so on, where a word goes on with it. */
    method ViableLetters() returns (letters: seq<Choice>)
      ensures letters == Letters(setting, prefix, 26)
    {
      letters := [];
      var i := 0;
      while i < 26
        invariant 0 <= i <= 26 && letters == Letters(setting, prefix, i)
      {
        var c := LetterAt(i);
        if c in setting.mask(prefix) {
          var found, tooMany := CollectMatches(prefix + [c], 0);
          if tooMany { letters := letters + [Letter(c)]; }
        }
        i := i + 1;
      }
    }

    /** Fill `options` and its companions anew: what may follow the prefix as it now stands. */
    method Rebuild()
      modifies this`options, this`index, this`wordMode, this`candidates, this`groupSize, this`inGroup
      ensures View() == Rebuilt(setting, old(View()))
    {
      hide Letters, AllMatches, Root;
      wordMode, index, groupSize, inGroup, candidates := false, 0, 0, false, [];
      if |prefix| > 0 {
        var found, tooMany := CollectMatches(prefix, WORD_MODE_MAX);
        if !tooMany && |found| > 0 {
          wordMode := true;
          candidates := found;
          options := seq(|found|, i => Commit);
          return;
        }
      }
      options := ViableLetters();
      var only, several := CollectMatches(prefix, 1);
      if |prefix| > 0 && (prefix in setting.list || (!several && |only| == 1)) {
        options := options + [Commit];
      }
      if |options| == 0 { options := [Commit]; }
      if setting.blocks && |options| > GROUP_MIN {
        groupSize := SquareRoot(|options|);
      }
    }

    /** Blocks of about the square root of the list. */
    method SquareRoot(n: nat) returns (g: nat)
      requires n <= 27
      ensures g == Root(n, 1)
    {
      g := 1;
      while g * g < n
        invariant g > 0 && Root(n, 1) == Root(n, g)
        decreases 27 - g
      {
        if g >= 27 { MulMonotone(27, g, 27); MulMonotone(27, g, g); }
        g := g + 1;
      }
    }

    method ScrollBy(dir: int)
      requires Inv(setting, View())
      modifies this`index
      ensures Inv(setting, View()) && View() == Scroll(old(View()), dir)
      ensures inGroup ==> BlockStart(View()) == BlockStart(old(View())) && BlockEnd(View()) == BlockEnd(old(View()))
    {
      BlockFacts(View());
      ScrollIsOk(setting, View(), dir);
      if groupSize > 0 && !inGroup {
        var blocks := (|options| + groupSize - 1) / groupSize;
        var here := index / groupSize;
        var next := Rem(Rem(here + dir, blocks) + blocks, blocks);
        WrapsAround(here + dir, blocks);
        MulNonneg(next, groupSize);
        index := next * groupSize;
        return;
      }
      var start, end := 0, |options|;
      if groupSize > 0 {
        start := index / groupSize * groupSize;
        end := start + groupSize;
        if end > |options| { end := |options|; }
      }
      var span, rel := end - start, index - start;
      WrapsAround(rel + dir, span);
      index := start + Rem(Rem(rel + dir, span) + span, span);
    }

    method CommitWord(word: Word) returns (outcome: Outcome)
      modifies this
      ensures View() == Commits(setting, old(View()), word) && outcome == Stored(View())
    {
      words := words + [word];
      prefix := [];
      Rebuild();
      outcome := if |words| >= target then AllDone else WordDone;
    }

    /** Apply the selected option: open a block, append a letter, or commit a word.
        Nothing commits without being confirmed. */
    method AcceptSelected() returns (outcome: Outcome)
      requires Inv(setting, View())
      modifies this
      ensures Inv(setting, View()) && (View(), outcome) == Accept(setting, old(View()))
    {
      hide Matches;
      AcceptIsOk(setting, View());
      if |words| >= target { return AllDone; }
      if groupSize > 0 && !inGroup {
        inGroup := true;
        return Continue;
      }
      if wordMode && index < |candidates| {
        outcome := CommitWord(candidates[index]);
        return;
      }
      match options[index]
      case Commit =>
        var only, several := CollectMatches(prefix, 1);
        if |prefix| > 0 && !several && |only| == 1 {
          outcome := CommitWord(only[0]);
        } else if |prefix| > 0 && prefix in setting.list {
          outcome := CommitWord(prefix);
        } else {
          outcome := Continue;
        }
      case Letter(c) =>
        if |prefix| < WORD_LEN - 1 {
          prefix := prefix + [c];
          Rebuild();
        }
        outcome := Continue;
    }

    /** Back to choosing blocks: a navigation step undone deletes nothing. */
    method CloseBlock()
      requires inGroup && groupSize > 0
      modifies this`index, this`inGroup
      ensures View() == old(View()).(index := BlockStart(old(View())), inGroup := false)
    {
      MulNonneg(index / groupSize, groupSize);
      index := index / groupSize * groupSize;
      inGroup := false;
    }

    method Retype(p: Word)
      modifies this`prefix, this`options, this`index, this`wordMode, this`candidates, this`groupSize, this`inGroup
      ensures View() == Rebuilt(setting, old(View()).(prefix := p))
    {
      hide Rebuilt;
      prefix := p;
      Rebuild();
    }

    /** Close a block, drop a letter, or reopen the last word minus its last letter. */
    method GoBack() returns (changed: bool)
      requires GoodSetting(setting) && Inv(setting, View())
      modifies this
      ensures Inv(setting, View()) && (View(), changed) == Back(setting, old(View()))
    {
      BackIsOk(setting, View());
      hide Rebuilt, GoodSetting, Inv;
      changed := true;
      if inGroup {
        CloseBlock();
      } else if |prefix| > 0 {
        Retype(prefix[..|prefix| - 1]);
      } else if |words| > 0 {
        var last := words[|words| - 1];
        words := words[..|words| - 1];
        Retype(if |last| > 0 then last[..|last| - 1] else last);
      } else {
        changed := false;
      }
    }
  }

  lemma {:induction false} MatchesGrow(list: seq<Word>, prefix: Word, m: nat, n: nat)
    requires m <= n <= |list|
    ensures |Matches(list, prefix, m)| <= |Matches(list, prefix, n)|
  {
    if m < n { MatchesGrow(list, prefix, m, n - 1); }
  }
}
