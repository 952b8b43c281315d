/** Which modules the function patterns take, and that what they leave is room
    for every codeword of the version. */
module QrRoom {
  import opened Arith
  import opened QrBits
  import opened QrTables
  import opened QrPatterns
  import opened QrZigzag

  /** Module (x, y) lies in the alignment pattern of centre (i, j). */
  predicate InAlignment(v: nat, i: nat, j: nat, x: int, y: int)
    requires 2 <= v <= 40
  {
    Abs(x - AlignPosition(v, i)) <= 2 && Abs(y - AlignPosition(v, j)) <= 2
  }

  ghost predicate Aligned(v: nat, x: int, y: int)
    requires 1 <= v <= 40
  {
    v >= 2 && exists i: nat, j: nat ::
      i < AlignCount(v) && j < AlignCount(v) && !AtFinder(AlignCount(v), i, j) && InAlignment(v, i, j, x, y)
  }

  /** The function modules of version v, region by region: timing lines, three
      corners with their format information, alignment patterns, version blocks. */
  ghost predicate IsFunctionModule(v: nat, x: nat, y: nat)
    requires 1 <= v <= 40
  {
    var size := Side(v);
    || x == 6 || y == 6
    || (x <= 8 && y <= 8) || (x >= size - 8 && y <= 8) || (x <= 8 && y >= size - 8)
    || Aligned(v, x, y)
    || (v >= 7 && VersionIndex(size, x, y) != -1)
  }

  ghost predicate Covered(ps: seq<Pattern>, size: nat, x: int, y: int) {
    exists i :: 0 <= i < |ps| && ps[i].Covers(size, x, y)
  }

  lemma CoveredConcat(ps: seq<Pattern>, qs: seq<Pattern>, size: nat, x: int, y: int)
    ensures Covered(ps + qs, size, x, y) <==> Covered(ps, size, x, y) || Covered(qs, size, x, y)
  {
    if Covered(ps, size, x, y) {
      var i :| 0 <= i < |ps| && ps[i].Covers(size, x, y);
      assert (ps + qs)[i].Covers(size, x, y);
    }
    if Covered(qs, size, x, y) {
      var i :| 0 <= i < |qs| && qs[i].Covers(size, x, y);
      assert (ps + qs)[|ps| + i].Covers(size, x, y);
    }
  }

  lemma CoveredOne(p: Pattern, size: nat, x: int, y: int)
    ensures Covered([p], size, x, y) <==> p.Covers(size, x, y)
  {
    if p.Covers(size, x, y) { assert [p][0].Covers(size, x, y); }
  }

  lemma {:induction false} MarkAllAt(f: Grid, size: nat, ps: seq<Pattern>, x: nat, y: nat)
    requires IsGrid(f, size) && x < size && y < size
    ensures MarkAll(f, size, ps)[y][x] <==> f[y][x] || Covered(ps, size, x, y)
  {
    if |ps| != 0 {
      var front, last := ps[..|ps| - 1], ps[|ps| - 1];
      MarkAllAt(f, size, front, x, y);
      assert ps == front + [last];
      CoveredConcat(front, [last], size, x, y);
      CoveredOne(last, size, x, y);
      hide Covered;
    }
  }

  /** Some centre before (i, j) in the scan has a pattern over (x, y). */
  ghost predicate CentreBefore(v: nat, i: nat, j: nat, x: int, y: int)
    requires 2 <= v <= 40
  {
    exists a: nat, b: nat ::
      a < AlignCount(v) && b < AlignCount(v) && !AtFinder(AlignCount(v), a, b)
      && InAlignment(v, a, b, x, y) && (a < i || (a == i && b < j))
  }

  lemma CentreBeforeStep(v: nat, i: nat, j: nat, x: int, y: int)
    requires 2 <= v <= 40 && i < AlignCount(v) && j < AlignCount(v)
    ensures CentreBefore(v, i, j + 1, x, y)
      <==> CentreBefore(v, i, j, x, y) || (!AtFinder(AlignCount(v), i, j) && InAlignment(v, i, j, x, y))
    ensures CentreBefore(v, i + 1, 0, x, y) <==> CentreBefore(v, i, AlignCount(v), x, y)
    ensures !CentreBefore(v, 0, 0, x, y)
  {
    hide AlignPosition, AtFinder, InAlignment;
  }

  /** The colour of the last pattern of the list that covers (x, y). */
  ghost function TopDark(ps: seq<Pattern>, size: nat, x: int, y: int): bool
    requires AllKnown(ps) && Covered(ps, size, x, y)
  {
    var front, last := ps[..|ps| - 1], ps[|ps| - 1];
    if last.Covers(size, x, y) then last.Dark(size, x, y) else TopDark(front, size, x, y)
  }

  lemma {:induction false} PaintAllAt(g: Grid, size: nat, ps: seq<Pattern>, x: nat, y: nat)
    requires IsGrid(g, size) && AllKnown(ps) && x < size && y < size
    ensures PaintAll(g, size, ps)[y][x] == if Covered(ps, size, x, y) then TopDark(ps, size, x, y) else g[y][x]
  {
    if |ps| != 0 {
      var front, last := ps[..|ps| - 1], ps[|ps| - 1];
      PaintAllAt(g, size, front, x, y);
      assert ps == front + [last];
      CoveredConcat(front, [last], size, x, y);
      CoveredOne(last, size, x, y);
      hide Covered;
    }
  }

  /** What a function module of a finished symbol shows. */
  ghost predicate FunctionDark(v: nat, ecc: nat, mask: nat, x: nat, y: nat)
    requires 1 <= v <= 40 && ecc < 4 && mask < 8
  {
    var size, ps := Side(v), FunctionPatterns(v, ecc);
    if FormatIndex(size, x, y) != -1 then Format(ecc, mask).Dark(size, x, y)
    else PatternsAreKnown(v, ecc); Covered(ps, size, x, y) && TopDark(ps, size, x, y)
  }

  lemma {:induction false} AlignmentsCover(v: nat, i: nat, j: nat, x: int, y: int)
    requires 2 <= v <= 40 && i <= AlignCount(v) && j <= AlignCount(v) && (i == AlignCount(v) ==> j == 0)
    ensures Covered(AlignmentsUpTo(v, i, j), Side(v), x, y) <==> CentreBefore(v, i, j, x, y)
    decreases i, j
  {
    hide AlignPosition, AtFinder, CentreBefore;
    var n := AlignCount(v);
    if j > 0 {
      AlignmentsCover(v, i, j - 1, x, y);
      CentreBeforeStep(v, i, j - 1, x, y);
      var before := AlignmentsUpTo(v, i, j - 1);
      var p := Alignment(AlignPosition(v, i), AlignPosition(v, j - 1));
      CoveredConcat(before, [p], Side(v), x, y);
      CoveredOne(p, Side(v), x, y);
      assert before + [] == before;
      hide Covered;
    } else if i > 0 {
      assert AlignmentsUpTo(v, i, 0) == AlignmentsUpTo(v, i - 1, n);
      AlignmentsCover(v, i - 1, n, x, y);
      CentreBeforeStep(v, i - 1, 0, x, y);
      hide Covered;
    } else {
      CentreBeforeStep(v, 0, 0, x, y);
    }
  }

  lemma FindersCover(size: nat, x: nat, y: nat)
    requires size >= 21 && x < size && y < size
    ensures Covered(Finders(size), size, x, y)
      <==> (x <= 7 && y <= 7) || (x >= size - 8 && y <= 7) || (x <= 7 && y >= size - 8)
  {
    var a, b, c := Finder(3, 3), Finder(size - 4, 3), Finder(3, size - 4);
    assert Finders(size) == [a] + [b] + [c];
    CoveredConcat([a] + [b], [c], size, x, y);
    CoveredConcat([a], [b], size, x, y);
    CoveredOne(a, size, x, y);
    CoveredOne(b, size, x, y);
    CoveredOne(c, size, x, y);
    hide Covered;
  }

  /** Every function module was painted. */
  lemma FunctionModulesAreCovered(v: nat, ecc: nat, x: nat, y: nat)
    requires 1 <= v <= 40 && x < Side(v) && y < Side(v)
    ensures Covered(FunctionPatterns(v, ecc), Side(v), x, y) <==> IsFunctionModule(v, x, y)
  {
    hide IsFunctionModule, Covered, FunctionPatterns, MarkAll;
    var blank := seq(Side(v), _ => seq(Side(v), _ => false));
    MarksAreFunctionModules(v, ecc, blank, x, y);
    MarkAllAt(blank, Side(v), FunctionPatterns(v, ecc), x, y);
  }

  /** The grid of marks that the drawing leaves is the set of function modules. */
  lemma MarksAreFunctionModules(v: nat, ecc: nat, blank: Grid, x: nat, y: nat)
    requires 1 <= v <= 40 && IsGrid(blank, Side(v)) && x < Side(v) && y < Side(v) && !blank[y][x]
    ensures MarkAll(blank, Side(v), FunctionPatterns(v, ecc))[y][x] <==> IsFunctionModule(v, x, y)
  {
    var size := Side(v);
    var ps := [Timing] + Finders(size);
    MarkAllAt(blank, size, FunctionPatterns(v, ecc), x, y);
    CoveredConcat(ps + Alignments(v) + [Format(ecc, 0)], [Version(v)], size, x, y);
    CoveredConcat(ps + Alignments(v), [Format(ecc, 0)], size, x, y);
    CoveredConcat(ps, Alignments(v), size, x, y);
    CoveredConcat([Timing], Finders(size), size, x, y);
    CoveredOne(Timing, size, x, y);
    CoveredOne(Format(ecc, 0), size, x, y);
    CoveredOne(Version(v), size, x, y);
    FindersCover(size, x, y);
    AlignedIsCovered(v, x, y);
    hide Covered, Aligned, MarkAll, Alignments, Finders, VersionIndex;
  }

  lemma AlignedIsCovered(v: nat, x: nat, y: nat)
    requires 1 <= v <= 40
    ensures Covered(Alignments(v), Side(v), x, y) <==> Aligned(v, x, y)
  {
    if v >= 2 { AlignmentsCover(v, AlignCount(v), 0, x, y); }
    hide AlignPosition, AlignmentsUpTo, AtFinder, InAlignment;
  }

  // ------------------------------------------------------------------- counting

  datatype Rect = Rect(x: int, y: int, w: nat, h: nat) {
    function Area(): nat { w * h }

    function Cells(): set<(int, int)> {
      set i, j | x <= i < x + w && y <= j < y + h :: (i, j)
    }
  }

  lemma {:induction false} RowSize(x: int, y: int, w: nat)
    ensures |Rect(x, y, w, 1).Cells()| == w
  {
    if w == 0 {
      assert Rect(x, y, 0, 1).Cells() == {};
    } else {
      RowSize(x, y, w - 1);
      assert Rect(x, y, w, 1).Cells() == Rect(x, y, w - 1, 1).Cells() + {(x + w - 1, y)};
    }
  }

  lemma {:induction false} RectSize(r: Rect)
    ensures |r.Cells()| == r.Area()
    decreases r.h
  {
    if r.h == 0 {
      assert r.Cells() == {};
    } else {
      var upper, last := Rect(r.x, r.y, r.w, r.h - 1), Rect(r.x, r.y + r.h - 1, r.w, 1);
      RectSize(upper);
      RowSize(last.x, last.y, last.w);
      assert r.Cells() == upper.Cells() + last.Cells();
      MulAdd(r.h - 1, 1, r.w);
    }
  }

  function Area(rs: seq<Rect>): nat {
    if |rs| == 0 then 0 else Area(rs[..|rs| - 1]) + rs[|rs| - 1].Area()
  }

  function Union(rs: seq<Rect>): set<(int, int)> {
    if |rs| == 0 then {} else Union(rs[..|rs| - 1]) + rs[|rs| - 1].Cells()
  }

  /** However the regions overlap, together they are no larger than their sum. */
  lemma {:induction false} UnionBound(rs: seq<Rect>)
    ensures |Union(rs)| <= Area(rs)
  {
    if |rs| != 0 {
      UnionBound(rs[..|rs| - 1]);
      RectSize(rs[|rs| - 1]);
    }
  }

  lemma {:induction false} InUnion(rs: seq<Rect>, i: nat, c: (int, int))
    requires i < |rs| && c in rs[i].Cells()
    ensures c in Union(rs)
  {
    if i < |rs| - 1 { InUnion(rs[..|rs| - 1], i, c); }
  }

  lemma {:induction false} AreaConcat(rs: seq<Rect>, ss: seq<Rect>)
    ensures Area(rs + ss) == Area(rs) + Area(ss)
    decreases |ss|
  {
    if |ss| == 0 {
      assert rs + ss == rs;
    } else {
      AreaConcat(rs, ss[..|ss| - 1]);
      assert (rs + ss)[..|rs + ss| - 1] == rs + ss[..|ss| - 1];
    }
  }

  /** The regions off column 6 (which the walk skips) and off the timing row but
      for its own piece: corners, timing row, version blocks. */
  function PlainRects(v: nat): seq<Rect>
    requires v >= 1
  {
    UpperRects(Side(v)) + LowerRects(Side(v)) + BlockRects(v)
  }

  function UpperRects(size: nat): seq<Rect> {
    [Rect(0, 0, 6, 9), Rect(7, 0, 2, 9), Rect(size - 8, 0, 8, 9)]
  }

  function LowerRects(size: nat): seq<Rect>
    requires size >= 21
  {
    [Rect(0, size - 8, 6, 8), Rect(7, size - 8, 2, 8), Rect(9, 6, size - 17, 1)]
  }

  function BlockRects(v: nat): seq<Rect> {
    if v < 7 then [] else [Rect(Side(v) - 11, 0, 3, 6), Rect(0, Side(v) - 11, 6, 3)]
  }

  /** What the alignment pattern of centre (i, j) adds: those on a timing line
      share their middle with it. */
  function CentreRects(v: nat, i: nat, j: nat): seq<Rect>
    requires 2 <= v <= 40
  {
    var px, py := AlignPosition(v, i), AlignPosition(v, j);
    if AtFinder(AlignCount(v), i, j) then []
    else if i == 0 then [Rect(4, py - 2, 2, 5), Rect(7, py - 2, 2, 5)]
    else if j == 0 then [Rect(px - 2, 4, 5, 2), Rect(px - 2, 7, 5, 2)]
    else [Rect(px - 2, py - 2, 5, 5)]
  }

  function CentreArea(n: nat, i: nat, j: nat): nat {
    if AtFinder(n, i, j) then 0 else if i == 0 || j == 0 then 20 else 25
  }

  function AlignRects(v: nat, i: nat, j: nat): seq<Rect>
    requires 2 <= v <= 40 && j <= AlignCount(v)
    decreases i, j
  {
    if j > 0 then AlignRects(v, i, j - 1) + CentreRects(v, i, j - 1)
    else if i > 0 then AlignRects(v, i - 1, AlignCount(v))
    else []
  }

  function AlignArea(n: nat, i: nat, j: nat): nat
    requires j <= n
    decreases i, j
  {
    if j > 0 then AlignArea(n, i, j - 1) + CentreArea(n, i, j - 1)
    else if i > 0 then AlignArea(n, i - 1, n)
    else 0
  }

  lemma CentreAreaIs(v: nat, i: nat, j: nat)
    requires 2 <= v <= 40
    ensures Area(CentreRects(v, i, j)) == CentreArea(AlignCount(v), i, j)
  {
    hide AlignPosition, AlignCount, AtFinder;
    var rs := CentreRects(v, i, j);
    if |rs| == 1 {
      AreaOne(rs[0]);
    } else if |rs| == 2 {
      AreaOne(rs[0]);
      AreaOne(rs[1]);
      AreaConcat([rs[0]], [rs[1]]);
      assert rs == [rs[0]] + [rs[1]];
    }
  }

  lemma AreaOne(r: Rect)
    ensures Area([r]) == r.Area()
  {
    assert [r][..0] == [];
  }

  lemma {:induction false} AlignAreaIs(v: nat, i: nat, j: nat)
    requires 2 <= v <= 40 && j <= AlignCount(v)
    ensures Area(AlignRects(v, i, j)) == AlignArea(AlignCount(v), i, j)
    decreases i, j
  {
    hide AlignPosition, CentreRects, CentreArea;
    if j > 0 {
      AlignAreaIs(v, i, j - 1);
      CentreAreaIs(v, i, j - 1);
      AreaConcat(AlignRects(v, i, j - 1), CentreRects(v, i, j - 1));
    } else if i > 0 {
      AlignAreaIs(v, i - 1, AlignCount(v));
    }
  }

  /** The closed form of one row of centres. */
  lemma {:induction false} RowArea(n: nat, i: nat, j: nat)
    requires 2 <= n && i < n && j <= n
    ensures AlignArea(n, i, j) == AlignArea(n, i, 0)
      + (if j == 0 then 0 else if i == 0 then 20 * (if j == n then n - 2 else j - 1)
         else (if i == n - 1 then 0 else 20) + 25 * (j - 1))
  {
    if j > 0 { RowArea(n, i, j - 1); }
  }

  lemma {:induction false} RowsArea(n: nat, i: nat)
    requires 2 <= n <= 7 && 1 <= i <= n - 1
    ensures AlignArea(n, i, 0) == 20 * (n - 2) + (i - 1) * (25 * n - 5)
  {
    RowArea(n, i - 1, n);
    assert AlignArea(n, i, 0) == AlignArea(n, i - 1, n);
    if i > 1 {
      RowsArea(n, i - 1);
      MulAdd(i - 2, 1, 25 * n - 5);
    }
  }

  lemma AllRowsArea(n: nat)
    requires 2 <= n <= 7
    ensures AlignArea(n, n, 0) == 25 * (n - 1) * (n - 1) + 40 * (n - 2)
  {
    RowsArea(n, n - 1);
    RowArea(n, n - 1, n);
    assert AlignArea(n, n, 0) == AlignArea(n, n - 1, n);
    if n == 2 { } else if n == 3 { } else if n == 4 { } else if n == 5 { } else if n == 6 { } else { assert n == 7; }
  }

  function FunctionRects(v: nat): seq<Rect>
    requires 1 <= v <= 40
  {
    PlainRects(v) + (if v == 1 then [] else AlignRects(v, AlignCount(v), 0))
  }

  lemma PlainArea(v: nat)
    requires v >= 1
    ensures Area(PlainRects(v)) == 208 + Side(v) - 17 + (if v < 7 then 0 else 36)
  {
    var size := Side(v);
    assert Area(UpperRects(size)) == 144 by {
      var rs := UpperRects(size);
      assert rs[..2][..1] == [rs[0]];
      AreaOne(rs[0]);
    }
    assert Area(LowerRects(size)) == 64 + size - 17 by {
      var rs := LowerRects(size);
      assert rs[..2][..1] == [rs[0]];
      AreaOne(rs[0]);
    }
    assert Area(BlockRects(v)) == if v < 7 then 0 else 36 by {
      var rs := BlockRects(v);
      if v >= 7 {
        assert rs[..1] == [rs[0]];
        AreaOne(rs[0]);
      }
    }
    hide Area, UpperRects, LowerRects, BlockRects;
    AreaConcat(UpperRects(size), LowerRects(size));
    AreaConcat(UpperRects(size) + LowerRects(size), BlockRects(v));
  }

  lemma FunctionAreaIs(v: nat)
    requires 1 <= v <= 40
    ensures Area(FunctionRects(v)) == FunctionModules(v) - Side(v)
  {
    var aligned := if v == 1 then [] else AlignRects(v, AlignCount(v), 0);
    assert Area([]) == 0;
    hide Area, AlignRects, PlainRects;
    PlainArea(v);
    AreaConcat(PlainRects(v), aligned);
    if v >= 2 {
      AlignAreaIs(v, AlignCount(v), 0);
      AllRowsArea(AlignCount(v));
    }
  }

  lemma {:induction false} UnionConcat(rs: seq<Rect>, ss: seq<Rect>)
    ensures Union(rs + ss) == Union(rs) + Union(ss)
    decreases |ss|
  {
    if |ss| == 0 {
      assert rs + ss == rs;
    } else {
      UnionConcat(rs, ss[..|ss| - 1]);
      assert (rs + ss)[..|rs + ss| - 1] == rs + ss[..|ss| - 1];
    }
  }

  lemma CentreInRects(v: nat, i: nat, j: nat, x: int, y: int)
    requires 2 <= v <= 40 && i < AlignCount(v) && j < AlignCount(v)
    requires !AtFinder(AlignCount(v), i, j) && InAlignment(v, i, j, x, y) && x != 6 && y != 6
    ensures (x, y) in Union(CentreRects(v, i, j))
  {
    AlignmentRoom(v, i);
    AlignmentRoom(v, j);
    var rs := CentreRects(v, i, j);
    hide AlignPosition, AlignCount, AtFinder;
    if (i == 0 && x > 6) || (j == 0 && i != 0 && y > 6) {
      assert (x, y) in rs[1].Cells();
      InUnion(rs, 1, (x, y));
    } else {
      assert (x, y) in rs[0].Cells();
      InUnion(rs, 0, (x, y));
    }
  }

  lemma {:induction false} CentresInRects(v: nat, i: nat, j: nat, x: int, y: int)
    requires 2 <= v <= 40 && i <= AlignCount(v) && j <= AlignCount(v) && (i == AlignCount(v) ==> j == 0)
    requires CentreBefore(v, i, j, x, y) && x != 6 && y != 6
    ensures (x, y) in Union(AlignRects(v, i, j))
    decreases i, j
  {
    hide AlignPosition, AtFinder, InAlignment, CentreBefore, CentreRects, Union;
    if j > 0 {
      CentreBeforeStep(v, i, j - 1, x, y);
      UnionConcat(AlignRects(v, i, j - 1), CentreRects(v, i, j - 1));
      if CentreBefore(v, i, j - 1, x, y) {
        CentresInRects(v, i, j - 1, x, y);
      } else {
        CentreInRects(v, i, j - 1, x, y);
      }
    } else if i > 0 {
      CentreBeforeStep(v, i - 1, 0, x, y);
      CentresInRects(v, i - 1, AlignCount(v), x, y);
    } else {
      CentreBeforeStep(v, 0, 0, x, y);
    }
  }

  lemma PlainInRects(v: nat, x: nat, y: nat)
    requires 1 <= v <= 40 && x < Side(v) && y < Side(v) && x != 6
    requires y == 6 || (x <= 8 && y <= 8) || (x >= Side(v) - 8 && y <= 8) || (x <= 8 && y >= Side(v) - 8)
      || (v >= 7 && VersionIndex(Side(v), x, y) != -1)
    ensures (x, y) in Union(PlainRects(v))
  {
    var size, rs := Side(v), PlainRects(v);
    var i :=
      if x < 6 && y <= 8 then 0 else if x <= 8 && y <= 8 then 1 else if x >= size - 8 && y <= 8 then 2
      else if x < 6 && y >= size - 8 then 3 else if x <= 8 && y >= size - 8 then 4 else if y == 6 then 5
      else if y < 6 then 6 else 7;
    assert (x, y) in rs[i].Cells();
    InUnion(rs, i, (x, y));
  }

  /** Function modules off column 6 lie in the regions that were measured. */
  lemma FunctionModulesInRects(v: nat, x: nat, y: nat)
    requires 1 <= v <= 40 && x < Side(v) && y < Side(v) && x != 6 && IsFunctionModule(v, x, y)
    ensures (x, y) in Union(FunctionRects(v))
  {
    var aligned := if v == 1 then [] else AlignRects(v, AlignCount(v), 0);
    UnionConcat(PlainRects(v), aligned);
    hide Union, PlainRects, AlignRects, VersionIndex;
    if Aligned(v, x, y) && y != 6 {
      hide AlignPosition, AtFinder, InAlignment;
      CentresInRects(v, AlignCount(v), 0, x, y);
    } else {
      hide Aligned;
      PlainInRects(v, x, y);
    }
  }

  /** The steps of the walk that find a function module, as modules. */
  ghost function TakenCells(f: Grid, size: nat, k: nat): set<(int, int)>
    requires IsSide(size) && IsGrid(f, size) && k <= Steps(size)
  {
    set i: nat | i < k && !Free(f, size, i) :: (CellAt(size, i).0 as int, CellAt(size, i).1 as int)
  }

  lemma {:induction false} TakenCount(f: Grid, size: nat, k: nat)
    requires IsSide(size) && IsGrid(f, size) && k <= Steps(size)
    ensures |TakenCells(f, size, k)| == k - FreeBefore(f, size, k)
  {
    hide CellAt, StepOf, Free;
    if k == 0 {
      assert TakenCells(f, size, 0) == {};
    } else {
      TakenCount(f, size, k - 1);
      var c := (CellAt(size, k - 1).0 as int, CellAt(size, k - 1).1 as int);
      if Free(f, size, k - 1) {
        assert TakenCells(f, size, k) == TakenCells(f, size, k - 1);
      } else {
        assert TakenCells(f, size, k) == TakenCells(f, size, k - 1) + {c};
        assert c !in TakenCells(f, size, k - 1);
      }
    }
  }

  lemma {:induction false} SubsetSize<T>(a: set<T>, b: set<T>)
    requires a <= b
    ensures |a| <= |b|
  {
    if a != {} {
      var x :| x in a;
      SubsetSize(a - {x}, b - {x});
    }
  }

  lemma TakenInRects(v: nat, f: Grid)
    requires 1 <= v <= 40 && IsGrid(f, Side(v))
    requires forall y: nat, x: nat | y < Side(v) && x < Side(v) && f[y][x] :: IsFunctionModule(v, x, y)
    ensures TakenCells(f, Side(v), Steps(Side(v))) <= Union(FunctionRects(v))
  {
    hide IsFunctionModule, CellAt, FunctionRects, Union;
    var size := Side(v);
    forall i: nat | i < Steps(size) && !Free(f, size, i)
      ensures (CellAt(size, i).0 as int, CellAt(size, i).1 as int) in Union(FunctionRects(v))
    {
      FunctionModulesInRects(v, CellAt(size, i).0, CellAt(size, i).1);
    }
  }

  /** The walk has a free module for every raw data module of the version. */
  lemma RoomForAllCodewords(v: nat, f: Grid)
    requires 1 <= v <= 40 && IsGrid(f, Side(v))
    requires forall y: nat, x: nat | y < Side(v) && x < Side(v) && f[y][x] :: IsFunctionModule(v, x, y)
    ensures FreeBefore(f, Side(v), Steps(Side(v))) >= RawModules(v)
  {
    hide IsFunctionModule, CellAt, RawModules, FunctionModules, FunctionRects, TakenCells, FreeBefore, Union;
    var size := Side(v);
    TakenCount(f, size, Steps(size));
    TakenInRects(v, f);
    SubsetSize(TakenCells(f, size, Steps(size)), Union(FunctionRects(v)));
    UnionBound(FunctionRects(v));
    FunctionAreaIs(v);
    RawModulesIsTheRest(v);
    MulAdd(size - 1, 1, size);
  }
}
