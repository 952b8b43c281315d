/** The capacity tables of ISO/IEC 18004:2015 (section 7.5.1, table 9) as the
    source lists them: one row an error correction level in the order of the
    format bits (0 = M, 1 = L, 2 = H, 3 = Q), one column a version 1..40. */
module QrTables {
  function EccM(v: nat): nat {
    match v
    case 1 => 10 case 2 => 16 case 3 => 26 case 4 => 36 case 5 => 48 case 6 => 64 case 7 => 72 case 8 => 88
    case 9 => 110 case 10 => 130 case 11 => 150 case 12 => 176 case 13 => 198 case 14 => 216 case 15 => 240
    case 16 => 280 case 17 => 308 case 18 => 338 case 19 => 364 case 20 => 416 case 21 => 442 case 22 => 476
    case 23 => 504 case 24 => 560 case 25 => 588 case 26 => 644 case 27 => 700 case 28 => 728 case 29 => 784
    case 30 => 812 case 31 => 868 case 32 => 924 case 33 => 980 case 34 => 1036 case 35 => 1064 case 36 => 1120
    case 37 => 1204 case 38 => 1260 case 39 => 1316 case _ => 1372
  }

  function EccL(v: nat): nat {
    match v
    case 1 => 7 case 2 => 10 case 3 => 15 case 4 => 20 case 5 => 26 case 6 => 36 case 7 => 40 case 8 => 48
    case 9 => 60 case 10 => 72 case 11 => 80 case 12 => 96 case 13 => 104 case 14 => 120 case 15 => 132
    case 16 => 144 case 17 => 168 case 18 => 180 case 19 => 196 case 20 => 224 case 21 => 224 case 22 => 252
    case 23 => 270 case 24 => 300 case 25 => 312 case 26 => 336 case 27 => 360 case 28 => 390 case 29 => 420
    case 30 => 450 case 31 => 480 case 32 => 510 case 33 => 540 case 34 => 570 case 35 => 570 case 36 => 600
    case 37 => 630 case 38 => 660 case 39 => 720 case _ => 750
  }

  function EccH(v: nat): nat {
    match v
    case 1 => 17 case 2 => 28 case 3 => 44 case 4 => 64 case 5 => 88 case 6 => 112 case 7 => 130 case 8 => 156
    case 9 => 192 case 10 => 224 case 11 => 264 case 12 => 308 case 13 => 352 case 14 => 384 case 15 => 432
    case 16 => 480 case 17 => 532 case 18 => 588 case 19 => 650 case 20 => 700 case 21 => 750 case 22 => 816
    case 23 => 900 case 24 => 960 case 25 => 1050 case 26 => 1110 case 27 => 1200 case 28 => 1260
    case 29 => 1350 case 30 => 1440 case 31 => 1530 case 32 => 1620 case 33 => 1710 case 34 => 1800
    case 35 => 1890 case 36 => 1980 case 37 => 2100 case 38 => 2220 case 39 => 2310 case _ => 2430
  }

  function EccQ(v: nat): nat {
    match v
    case 1 => 13 case 2 => 22 case 3 => 36 case 4 => 52 case 5 => 72 case 6 => 96 case 7 => 108 case 8 => 132
    case 9 => 160 case 10 => 192 case 11 => 224 case 12 => 260 case 13 => 288 case 14 => 320 case 15 => 360
    case 16 => 408 case 17 => 448 case 18 => 504 case 19 => 546 case 20 => 600 case 21 => 644 case 22 => 690
    case 23 => 750 case 24 => 810 case 25 => 870 case 26 => 952 case 27 => 1020 case 28 => 1050 case 29 => 1140
    case 30 => 1200 case 31 => 1290 case 32 => 1350 case 33 => 1440 case 34 => 1530 case 35 => 1590
    case 36 => 1680 case 37 => 1770 case 38 => 1860 case 39 => 1950 case _ => 2040
  }

  function BlocksM(v: nat): nat {
    match v
    case 1 => 1 case 2 => 1 case 3 => 1 case 4 => 2 case 5 => 2 case 6 => 4 case 7 => 4 case 8 => 4 case 9 => 5
    case 10 => 5 case 11 => 5 case 12 => 8 case 13 => 9 case 14 => 9 case 15 => 10 case 16 => 10 case 17 => 11
    case 18 => 13 case 19 => 14 case 20 => 16 case 21 => 17 case 22 => 17 case 23 => 18 case 24 => 20
    case 25 => 21 case 26 => 23 case 27 => 25 case 28 => 26 case 29 => 28 case 30 => 29 case 31 => 31
    case 32 => 33 case 33 => 35 case 34 => 37 case 35 => 38 case 36 => 40 case 37 => 43 case 38 => 45
    case 39 => 47 case _ => 49
  }

  function BlocksL(v: nat): nat {
    match v
    case 1 => 1 case 2 => 1 case 3 => 1 case 4 => 1 case 5 => 1 case 6 => 2 case 7 => 2 case 8 => 2 case 9 => 2
    case 10 => 4 case 11 => 4 case 12 => 4 case 13 => 4 case 14 => 4 case 15 => 6 case 16 => 6 case 17 => 6
    case 18 => 6 case 19 => 7 case 20 => 8 case 21 => 8 case 22 => 9 case 23 => 9 case 24 => 10 case 25 => 12
    case 26 => 12 case 27 => 12 case 28 => 13 case 29 => 14 case 30 => 15 case 31 => 16 case 32 => 17
    case 33 => 18 case 34 => 19 case 35 => 19 case 36 => 20 case 37 => 21 case 38 => 22 case 39 => 24
    case _ => 25
  }

  function BlocksH(v: nat): nat {
    match v
    case 1 => 1 case 2 => 1 case 3 => 2 case 4 => 4 case 5 => 4 case 6 => 4 case 7 => 5 case 8 => 6 case 9 => 8
    case 10 => 8 case 11 => 11 case 12 => 11 case 13 => 16 case 14 => 16 case 15 => 18 case 16 => 16
    case 17 => 19 case 18 => 21 case 19 => 25 case 20 => 25 case 21 => 25 case 22 => 34 case 23 => 30
    case 24 => 32 case 25 => 35 case 26 => 37 case 27 => 40 case 28 => 42 case 29 => 45 case 30 => 48
    case 31 => 51 case 32 => 54 case 33 => 57 case 34 => 60 case 35 => 63 case 36 => 66 case 37 => 70
    case 38 => 74 case 39 => 77 case _ => 81
  }

  function BlocksQ(v: nat): nat {
    match v
    case 1 => 1 case 2 => 1 case 3 => 2 case 4 => 2 case 5 => 4 case 6 => 4 case 7 => 6 case 8 => 6 case 9 => 8
    case 10 => 8 case 11 => 8 case 12 => 10 case 13 => 12 case 14 => 16 case 15 => 12 case 16 => 17
    case 17 => 16 case 18 => 18 case 19 => 21 case 20 => 20 case 21 => 23 case 22 => 23 case 23 => 25
    case 24 => 27 case 25 => 29 case 26 => 34 case 27 => 34 case 28 => 35 case 29 => 38 case 30 => 40
    case 31 => 43 case 32 => 45 case 33 => 48 case 34 => 51 case 35 => 53 case 36 => 56 case 37 => 59
    case 38 => 62 case 39 => 65 case _ => 68
  }

  /** Modules left for data once the function patterns are drawn. */
  function RawModules(v: nat): nat {
    match v
    case 1 => 208 case 2 => 359 case 3 => 567 case 4 => 807 case 5 => 1079 case 6 => 1383 case 7 => 1568
    case 8 => 1936 case 9 => 2336 case 10 => 2768 case 11 => 3232 case 12 => 3728 case 13 => 4256
    case 14 => 4651 case 15 => 5243 case 16 => 5867 case 17 => 6523 case 18 => 7211 case 19 => 7931
    case 20 => 8683 case 21 => 9252 case 22 => 10068 case 23 => 10916 case 24 => 11796 case 25 => 12708
    case 26 => 13652 case 27 => 14628 case 28 => 15371 case 29 => 16411 case 30 => 17483 case 31 => 18587
    case 32 => 19723 case 33 => 20891 case 34 => 22091 case 35 => 23008 case 36 => 24272 case 37 => 25568
    case 38 => 26896 case 39 => 28256 case _ => 29648
  }

  function EccCodewords(ecc: nat, v: nat): nat {
    if ecc == 0 then EccM(v) else if ecc == 1 then EccL(v) else if ecc == 2 then EccH(v) else EccQ(v)
  }

  function EccBlocks(ecc: nat, v: nat): nat {
    if ecc == 0 then BlocksM(v) else if ecc == 1 then BlocksL(v) else if ecc == 2 then BlocksH(v) else BlocksQ(v)
  }

  /** What the code assumes of one table column: the blocks share the check
      codewords evenly, every block has data, and no block outgrows a byte. */
  predicate ColumnIsSound(ecc: nat, blocks: nat, raw: nat) {
    && blocks >= 1 && ecc % blocks == 0
    && 1 <= ecc / blocks <= 30
    && 1 <= raw / 8 / blocks - ecc / blocks <= 254
    && raw / 8 - ecc >= 1
  }

  /** An upper bound on the data codewords of a version, level by level of the
      width of the character count. */
  function Capacity(v: nat): nat {
    if v <= 9 then 232 else if v <= 26 then 1370 else 2956
  }

  predicate Sound(ecc: nat, v: nat) {
    && ColumnIsSound(EccCodewords(ecc, v), EccBlocks(ecc, v), RawModules(v))
    && RawModules(v) / 8 - EccCodewords(ecc, v) <= Capacity(v)
  }

  lemma ShareM(v: nat)
    requires 1 <= v <= 40
    ensures BlocksM(v) >= 1 && EccM(v) % BlocksM(v) == 0
  {
  }

  lemma CheckM(v: nat)
    requires 1 <= v <= 40 && BlocksM(v) >= 1
    ensures 1 <= EccM(v) / BlocksM(v) <= 30
  {
  }

  lemma DataM(v: nat)
    requires 1 <= v <= 40 && BlocksM(v) >= 1
    ensures 1 <= RawModules(v) / 8 / BlocksM(v) - EccM(v) / BlocksM(v) <= 254
  {
  }

  lemma RoomM(v: nat)
    requires 1 <= v <= 40
    ensures 1 <= RawModules(v) / 8 - EccM(v) <= Capacity(v)
  {
  }

  lemma ShareL(v: nat)
    requires 1 <= v <= 40
    ensures BlocksL(v) >= 1 && EccL(v) % BlocksL(v) == 0
  {
  }

  lemma CheckL(v: nat)
    requires 1 <= v <= 40 && BlocksL(v) >= 1
    ensures 1 <= EccL(v) / BlocksL(v) <= 30
  {
  }

  lemma DataL(v: nat)
    requires 1 <= v <= 40 && BlocksL(v) >= 1
    ensures 1 <= RawModules(v) / 8 / BlocksL(v) - EccL(v) / BlocksL(v) <= 254
  {
  }

  lemma RoomL(v: nat)
    requires 1 <= v <= 40
    ensures 1 <= RawModules(v) / 8 - EccL(v) <= Capacity(v)
  {
  }

  lemma ShareH(v: nat)
    requires 1 <= v <= 40
    ensures BlocksH(v) >= 1 && EccH(v) % BlocksH(v) == 0
  {
  }

  lemma CheckH(v: nat)
    requires 1 <= v <= 40 && BlocksH(v) >= 1
    ensures 1 <= EccH(v) / BlocksH(v) <= 30
  {
  }

  lemma DataH(v: nat)
    requires 1 <= v <= 40 && BlocksH(v) >= 1
    ensures 1 <= RawModules(v) / 8 / BlocksH(v) - EccH(v) / BlocksH(v) <= 254
  {
  }

  lemma RoomH(v: nat)
    requires 1 <= v <= 40
    ensures 1 <= RawModules(v) / 8 - EccH(v) <= Capacity(v)
  {
  }

  lemma ShareQ(v: nat)
    requires 1 <= v <= 40
    ensures BlocksQ(v) >= 1 && EccQ(v) % BlocksQ(v) == 0
  {
  }

  lemma CheckQ(v: nat)
    requires 1 <= v <= 40 && BlocksQ(v) >= 1
    ensures 1 <= EccQ(v) / BlocksQ(v) <= 30
  {
  }

  lemma DataQ(v: nat)
    requires 1 <= v <= 40 && BlocksQ(v) >= 1
    ensures 1 <= RawModules(v) / 8 / BlocksQ(v) - EccQ(v) / BlocksQ(v) <= 254
  {
  }

  lemma RoomQ(v: nat)
    requires 1 <= v <= 40
    ensures 1 <= RawModules(v) / 8 - EccQ(v) <= Capacity(v)
  {
  }

  lemma ColumnsAreSound(ecc: nat, v: nat)
    requires ecc < 4 && 1 <= v <= 40
    ensures Sound(ecc, v)
  {
    ShareM(v);
    CheckM(v);
    DataM(v);
    RoomM(v);
    ShareL(v);
    CheckL(v);
    DataL(v);
    RoomL(v);
    ShareH(v);
    CheckH(v);
    DataH(v);
    RoomH(v);
    ShareQ(v);
    CheckQ(v);
    DataQ(v);
    RoomQ(v);
    hide EccM, EccL, EccH, EccQ, BlocksM, BlocksL, BlocksH, BlocksQ, RawModules, Capacity;
  }

  function Side(v: nat): nat { 4 * v + 17 }

  /** Alignment patterns per side; version 1 has none. */
  function AlignCount(v: nat): nat {
    if v == 1 then 0 else v / 7 + 2
  }

  /** Modules of the function patterns, counted piece by piece: the three corners
      with their format areas, the two timing lines between them, the alignment
      patterns off and on the timing lines, and the version areas. */
  function FunctionModules(v: nat): nat {
    225 + 2 * (Side(v) - 17)
    + (if v == 1 then 0 else 25 * (AlignCount(v) - 1) * (AlignCount(v) - 1) + 40 * (AlignCount(v) - 2))
    + (if v < 7 then 0 else 36)
  }

  /** The table of raw data modules is the area of the symbol less its function
      patterns. */
  lemma RawModulesIsTheRest(v: nat)
    requires 1 <= v <= 40
    ensures Side(v) * Side(v) == RawModules(v) + FunctionModules(v)
  {
    var n := AlignCount(v);
    if v < 7 { } else if n == 3 { } else if n == 4 { } else if n == 5 { } else if n == 6 { } else { assert n == 7; }
  }
}
