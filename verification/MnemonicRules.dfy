/** What the keys of the phrase entry offer, take and undo. */
module MnemonicRules {
  import opened Arith
  import opened Mnemonic

  // The rules of the entry in terms of the word list alone, apart from how the selector
  // is computed.

  /** The words that start with a prefix, in the order of the list. */
  function Chosen(list: seq<Word>, prefix: Word): seq<Word> {
    if |list| == 0 then []
    else (if |prefix| <= |list[0]| && list[0][..|prefix|] == prefix then [list[0]] else []) + Chosen(list[1..], prefix)
  }

  lemma {:induction false} ChosenBehind(list: seq<Word>, last: Word, prefix: Word)
    ensures Chosen(list + [last], prefix) == Chosen(list, prefix) + if Starts(last, prefix) then [last] else []
  {
    if |list| == 0 {
      assert (list + [last])[1..] == [];
    } else {
      assert (list + [last])[1..] == list[1..] + [last];
      ChosenBehind(list[1..], last, prefix);
    }
  }

  lemma {:induction false} MatchesAreChosen(list: seq<Word>, prefix: Word, n: nat)
    requires n <= |list|
    ensures Matches(list, prefix, n) == Chosen(list[..n], prefix)
  {
    if n > 0 {
      MatchesAreChosen(list, prefix, n - 1);
      assert list[..n] == list[..n - 1] + [list[n - 1]];
      ChosenBehind(list[..n - 1], list[n - 1], prefix);
    }
  }

  lemma AllMatchesAreChosen(list: seq<Word>, prefix: Word)
    ensures AllMatches(list, prefix) == Chosen(list, prefix)
  {
    MatchesAreChosen(list, prefix, |list|);
    assert list[..|list|] == list;
  }

  /** The letter continues some word of the list, and the table admits it. */
  predicate Continues(s: Setting, prefix: Word, c: char) {
    'a' <= c <= 'z' && c in s.mask(prefix) && |Chosen(s.list, prefix + [c])| > 0
  }

  /** The letters that continue a word, from a to z and each once. */
  ghost predicate AreLetters(s: Setting, prefix: Word, l: seq<Choice>) {
    (forall i | 0 <= i < |l| :: l[i].Letter?)
    && (forall i, j | 0 <= i < j < |l| :: l[i].c < l[j].c)
    && (forall c: char :: Letter(c) in l <==> Continues(s, prefix, c))
  }

  /** In letter mode: those letters, then the commit when what is typed is a word or only one
      word is left; alone when there are no letters. */
  ghost predicate Offered(s: Setting, prefix: Word, options: seq<Choice>) {
    exists n: nat :: n <= |options| && AreLetters(s, prefix, options[..n])
      && options[n..] ==
           if n == 0 || (|prefix| > 0 && (prefix in s.list || |Chosen(s.list, prefix)| == 1)) then [Commit] else []
  }

  lemma {:induction false} LettersInOrder(s: Setting, prefix: Word, n: nat)
    requires n <= 26
    ensures var l := Letters(s, prefix, n);
      (forall i, j | 0 <= i < j < |l| :: l[i].c < l[j].c)
      && (forall c: char :: Letter(c) in l <==> Continues(s, prefix, c) && (c as int) < 97 + n)
  {
    hide AllMatches, Chosen;
    if n > 0 {
      LettersInOrder(s, prefix, n - 1);
      var c := LetterAt(n - 1);
      AllMatchesAreChosen(s.list, prefix + [c]);
      var before := Letters(s, prefix, n - 1);
      forall i | 0 <= i < |before| ensures before[i].c < c {
        assert Letter(before[i].c) == before[i];
        assert before[i] in before;
      }
    }
  }

  lemma OptionsAreOffered(s: Setting, prefix: Word)
    ensures Offered(s, prefix, Options(s, prefix))
  {
    LettersInOrder(s, prefix, 26);
    AllMatchesAreChosen(s.list, prefix);
    var l := Letters(s, prefix, 26);
    assert AreLetters(s, prefix, l);
    hide Letters, AllMatches, Chosen, AreLetters;
    var commit := |prefix| > 0 && (prefix in s.list || |Chosen(s.list, prefix)| == 1);
    var rest := if |l| == 0 || commit then [Commit] else [];
    assert Options(s, prefix) == l + rest;
    hide Options;
    assert (l + rest)[..|l|] == l && (l + rest)[|l|..] == rest;
  }

  lemma {:induction false} RootIsLeast(n: nat, from: nat, g: nat)
    requires from > 0 && (forall h | 0 < h < from :: h * h < n) && g == Root(n, from)
    ensures forall h | 0 < h < g :: h * h < n
    decreases if from * from < n then n - from * from else 0
  {
    if from * from < n {
      MulStrict(from, from + 1, from);
      MulAdd(from, 1, from + 1);
      forall h | 0 < h < from + 1 ensures h * h < n {}
      RootIsLeast(n, from + 1, g);
    }
  }

  /** What stands ready for the selector after a change: the words themselves once no more
      than eight start with what is typed, and else the letters, more than eight of them in
      blocks as wide as the least square allows when blocks are wanted. */
  lemma SelectorIsRebuilt(s: Setting, e: Entry)
    ensures var r := Rebuilt(s, e); var m := Chosen(s.list, e.prefix);
      r.words == e.words && r.prefix == e.prefix && r.target == e.target && r.index == 0 && !r.inGroup
      && (r.wordMode <==> |e.prefix| > 0 && 1 <= |m| <= 8)
      && (r.wordMode ==> r.candidates == m && |r.options| == |m| && r.groupSize == 0)
      && (!r.wordMode ==>
            r.candidates == [] && Offered(s, e.prefix, r.options)
            && (r.groupSize > 0 <==> s.blocks && |r.options| > 8)
            && (r.groupSize > 0 ==>
                  r.groupSize * r.groupSize >= |r.options| && forall h | 0 < h < r.groupSize :: h * h < |r.options|))
  {
    AllMatchesAreChosen(s.list, e.prefix);
    OptionsAreOffered(s, e.prefix);
    var o := Options(s, e.prefix);
    RootIsLeast(|o|, 1, Root(|o|, 1));
    hide Options, AllMatches, Chosen, Offered, Root;
  }

  /** Undo in a block leaves it, at its first option. */
  lemma UndoLeavesTheBlock(s: Setting, e: Entry)
    requires Inv(s, e) && e.inGroup
    ensures Back(s, e).1
    ensures var after := Back(s, e).0;
      after == e.(index := after.index, inGroup := false) && after.index % e.groupSize == 0
      && after.index <= e.index < after.index + e.groupSize
  {
    var g := e.groupSize;
    DivMod(e.index, g);
    DivUnique(e.index / g * g, g, e.index / g, 0);
  }

  /** Elsewhere it takes the last letter away; without one it opens the last word again
      without its last letter; and when nothing is left it says so. */
  lemma UndoTakesTheLast(s: Setting, e: Entry)
    requires GoodSetting(s) && Inv(s, e) && !e.inGroup
    ensures var (after, undone) := Back(s, e);
      (undone <==> |e.prefix| > 0 || |e.words| > 0) && (!undone ==> after == e)
      && (undone ==> after == Rebuilt(s, after) && after.target == e.target)
      && (|e.prefix| > 0 ==> after.words == e.words && e.prefix == after.prefix + [e.prefix[|e.prefix| - 1]])
      && (|e.prefix| == 0 && |e.words| > 0 ==>
            var word := e.words[|e.words| - 1];
            e.words == after.words + [word] && |word| > 0 && word == after.prefix + [word[|word| - 1]])
  {
    hide *;
    BackRebuilds(s, e);
    if |e.prefix| > 0 {
      WithoutLast(e.prefix);
    } else if |e.words| > 0 {
      CommittedIsLong(s, e);
      assert e.words == e.words[..|e.words| - 1] + [e.words[|e.words| - 1]];
      WithoutLast(e.words[|e.words| - 1]);
    }
  }

  lemma CommittedIsLong(s: Setting, e: Entry)
    requires GoodSetting(s) && Inv(s, e) && |e.words| > 0
    ensures |e.words[|e.words| - 1]| > 0
  {
    var word := e.words[|e.words| - 1];
    assert word in e.words && word in s.list;
    assert IsWord(word);
  }

  lemma WithoutLast(w: Word)
    requires |w| > 0
    ensures w == w[..|w| - 1] + [w[|w| - 1]]
  {}

  lemma BackRebuilds(s: Setting, e: Entry)
    requires Inv(s, e) && !e.inGroup
    ensures Placed(e)
    ensures var (after, undone) := Back(s, e);
      (undone <==> |e.prefix| > 0 || |e.words| > 0) && (!undone ==> after == e)
      && (undone ==> after == Rebuilt(s, after) && after.target == e.target)
      && (|e.prefix| > 0 ==> after.words == e.words && after.prefix == e.prefix[..|e.prefix| - 1])
      && (|e.prefix| == 0 && |e.words| > 0 && |e.words[|e.words| - 1]| > 0 ==>
            var word := e.words[|e.words| - 1]; after.words == e.words[..|e.words| - 1] && after.prefix == word[..|word| - 1])
  {
    hide Options, AllMatches, Root;
  }

  /** Taking: a finished phrase takes nothing; a block opens; a letter is appended; the one
      word left, or the word typed, is committed. The phrase is done when it has all its
      words. */
  lemma TakeAddsTheSelected(s: Setting, e: Entry)
    requires GoodSetting(s) && Inv(s, e)
    ensures var (after, outcome) := Accept(s, e); var m := Chosen(s.list, e.prefix);
      (outcome == AllDone <==> |after.words| >= e.target) && after.target == e.target
      && (outcome == WordDone <==> |e.words| < |after.words| < e.target)
      && (|e.words| >= e.target ==> after == e)
      && (|e.words| < e.target && e.groupSize > 0 && !e.inGroup ==> after == e.(inGroup := true))
      && (|e.words| < e.target && !(e.groupSize > 0 && !e.inGroup) ==>
            if e.wordMode then Committed(s, e, e.candidates[e.index], after)
            else
              match e.options[e.index]
              case Letter(c) =>
                if |e.prefix| < 9 then after == Rebuilt(s, after) && after.words == e.words && after.prefix == e.prefix + [c]
                else after == e
              case Commit =>
                if |e.prefix| > 0 && |m| == 1 then Committed(s, e, m[0], after)
                else if |e.prefix| > 0 && e.prefix in s.list then Committed(s, e, e.prefix, after)
                else after == e)
  {
    AllMatchesAreChosen(s.list, e.prefix);
    hide GoodSetting, AllMatches, Chosen, Options, Root;
  }

  lemma ThereAndBack(at: nat, n: nat)
    requires at < n
    ensures Around(Around(at, n, 1), n, -1) == at
    ensures Around(at, n, 1) == if at + 1 == n then 0 else at + 1
  {
    if at + 1 == n {
      DivUnique(at + 1, n, 1, 0);
      DivUnique(-1, n, -1, n - 1);
    } else {
      DivUnique(at + 1, n, 0, at + 1);
      DivUnique(at, n, 0, at);
    }
  }

  /** Up goes to the next option of the block, from the last one to the first; down goes
      back. */
  lemma UpAndDown(s: Setting, e: Entry)
    requires Inv(s, e) && !OnGroup(e)
    ensures Press(s, e, Up) == e.(index := if e.index + 1 == BlockEnd(e) then BlockStart(e) else e.index + 1)
    ensures Inv(s, Press(s, e, Up)) && Press(s, Press(s, e, Up), Down) == e
  {
    ScrollIsOk(s, e, 1);
    BlockFacts(e);
    ThereAndBack(e.index - BlockStart(e), BlockEnd(e) - BlockStart(e));
    var up := Scroll(e, 1);
    SameBlock(s, e);
    hide Around, BlockStart, BlockEnd, Inv;
  }

  lemma SameBlock(s: Setting, e: Entry)
    requires Inv(s, e) && !OnGroup(e)
    ensures Inv(s, Scroll(e, 1)) && !OnGroup(Scroll(e, 1))
    ensures BlockStart(Scroll(e, 1)) == BlockStart(e) && BlockEnd(Scroll(e, 1)) == BlockEnd(e)
  {
    ScrollIsOk(s, e, 1);
  }

  /** Over blocks they go from one block to the next, at its first option, and around. */
  lemma UpAndDownOverBlocks(s: Setting, e: Entry)
    requires Inv(s, e) && OnGroup(e)
    ensures var g, blocks := e.groupSize, (|e.options| + e.groupSize - 1) / e.groupSize;
      Press(s, e, Up) == e.(index := if e.index / g + 1 == blocks then 0 else e.index + g)
    ensures Inv(s, Press(s, e, Up)) && Press(s, Press(s, e, Up), Down) == e
  {
    ScrollIsOk(s, e, 1);
    BlockFacts(e);
    var g := e.groupSize;
    var k := Around(e.index / g, GroupCount(e), 1);
    ThereAndBack(e.index / g, GroupCount(e));
    DivMod(e.index, g);
    DivUnique(k * g, g, k, 0);
    MulAdd(e.index / g, 1, g);
    hide Around, Inv;
  }
}
