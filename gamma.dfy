/** The gamma-correction table applied to every channel before it is encoded. */
module GammaMap {
  import opened Led

  // The 256 entries of the table, in order, written as sixteen rows of
  // sixteen so that the prover can look entries up without unfolding one long
  // sequence display.
  const GAMMA_ROW_0: seq<u8> := [0, 0, 0, 0, 0, 1, 1, 1, 1, 1, 1, 1, 1, 1, 2, 2]
  const GAMMA_ROW_1: seq<u8> := [2, 2, 2, 2, 2, 2, 2, 3, 3, 3, 3, 3, 3, 3, 3, 4]
  const GAMMA_ROW_2: seq<u8> := [4, 4, 4, 4, 4, 5, 5, 5, 5, 5, 6, 6, 6, 6, 6, 7]
  const GAMMA_ROW_3: seq<u8> := [7, 7, 7, 8, 8, 8, 8, 9, 9, 9, 10, 10, 10, 10, 11, 11]
  const GAMMA_ROW_4: seq<u8> := [11, 12, 12, 12, 13, 13, 13, 14, 14, 15, 15, 15, 16, 16, 17, 17]
  const GAMMA_ROW_5: seq<u8> := [17, 18, 18, 19, 19, 20, 20, 21, 21, 22, 22, 23, 23, 24, 24, 25]
  const GAMMA_ROW_6: seq<u8> := [25, 26, 26, 27, 28, 28, 29, 29, 30, 31, 31, 32, 32, 33, 34, 34]
  const GAMMA_ROW_7: seq<u8> := [35, 36, 37, 37, 38, 39, 39, 40, 41, 42, 43, 43, 44, 45, 46, 47]
  const GAMMA_ROW_8: seq<u8> := [47, 48, 49, 50, 51, 52, 53, 54, 54, 55, 56, 57, 58, 59, 60, 61]
  const GAMMA_ROW_9: seq<u8> := [62, 63, 64, 65, 66, 67, 68, 70, 71, 72, 73, 74, 75, 76, 77, 79]
  const GAMMA_ROW_A: seq<u8> := [80, 81, 82, 83, 85, 86, 87, 88, 90, 91, 92, 94, 95, 96, 98, 99]
  const GAMMA_ROW_B: seq<u8> := [100, 102, 103, 105, 106, 108, 109, 110, 112, 113, 115, 116, 118, 120, 121, 123]
  const GAMMA_ROW_C: seq<u8> := [124, 126, 128, 129, 131, 132, 134, 136, 138, 139, 141, 143, 145, 146, 148, 150]
  const GAMMA_ROW_D: seq<u8> := [152, 154, 155, 157, 159, 161, 163, 165, 167, 169, 171, 173, 175, 177, 179, 181]
  const GAMMA_ROW_E: seq<u8> := [183, 185, 187, 189, 191, 193, 196, 198, 200, 202, 204, 207, 209, 211, 214, 216]
  const GAMMA_ROW_F: seq<u8> := [218, 220, 223, 225, 228, 230, 232, 235, 237, 240, 242, 245, 247, 250, 252, 255]

  /** The lookup table: entry `v` is the drive value for raw channel value `v`. */
  const GAMMA_MAP: seq<u8> :=
    GAMMA_ROW_0
    + GAMMA_ROW_1
    + GAMMA_ROW_2
    + GAMMA_ROW_3
    + GAMMA_ROW_4
    + GAMMA_ROW_5
    + GAMMA_ROW_6
    + GAMMA_ROW_7
    + GAMMA_ROW_8
    + GAMMA_ROW_9
    + GAMMA_ROW_A
    + GAMMA_ROW_B
    + GAMMA_ROW_C
    + GAMMA_ROW_D
    + GAMMA_ROW_E
    + GAMMA_ROW_F

  /** Gamma-correct one channel value by table lookup. The lookup steps along
      the table (see `GammaIsLookup` for the direct index), which keeps the
      prover from unfolding the whole table wherever a corrected value appears. */
  function Gamma(v: u8): (r: u8)
    ensures r <= v
  {
    GammaTableBelow();
    LookupIndex(GAMMA_MAP, v);
    Lookup(GAMMA_MAP, v)
  }

  /** Entry `i` of `table`, found by stepping along it one entry at a time. */
  function Lookup(table: seq<u8>, i: nat): u8
    requires i < |table|
  {
    if i == 0 then table[0] else Lookup(table[1..], i - 1)
  }

  /** Stepping along the table reaches the entry at position `i`. */
  lemma {:induction false} LookupIndex(table: seq<u8>, i: nat)
    requires i < |table|
    ensures Lookup(table, i) == table[i]
  {
    if i > 0 {
      LookupIndex(table[1..], i - 1);
    }
  }

  /** `Gamma` is the table lookup. */
  lemma GammaIsLookup(v: u8)
    ensures Gamma(v) == GAMMA_MAP[v]
  {
    GammaTable();
    LookupIndex(GAMMA_MAP, v);
  }

  /** Each entry is at most the next one. */
  ghost predicate NonDecreasing(s: seq<int>)
  {
    forall i :: 0 <= i < |s| - 1 ==> s[i] <= s[i + 1]
  }

  /** Adjacent order extends to any two positions. */
  lemma {:induction false} NonDecreasingOrdered(s: seq<int>, i: nat, j: nat)
    requires NonDecreasing(s)
    requires i <= j < |s|
    ensures s[i] <= s[j]
    decreases j - i
  {
    if i < j {
      NonDecreasingOrdered(s, i + 1, j);
    }
  }

  lemma NonDecreasingAppend(a: seq<int>, b: seq<int>)
    requires NonDecreasing(a) && NonDecreasing(b)
    requires |a| > 0 && |b| > 0 && a[|a| - 1] <= b[0]
    ensures NonDecreasing(a + b)
  {
  }

  lemma GammaRows0To3()
    ensures NonDecreasing(GAMMA_ROW_0)
    ensures NonDecreasing(GAMMA_ROW_1)
    ensures NonDecreasing(GAMMA_ROW_2)
    ensures NonDecreasing(GAMMA_ROW_3)
  {
  }

  lemma GammaRows4To7()
    ensures NonDecreasing(GAMMA_ROW_4)
    ensures NonDecreasing(GAMMA_ROW_5)
    ensures NonDecreasing(GAMMA_ROW_6)
    ensures NonDecreasing(GAMMA_ROW_7)
  {
  }

  lemma GammaRows8ToB()
    ensures NonDecreasing(GAMMA_ROW_8)
    ensures NonDecreasing(GAMMA_ROW_9)
    ensures NonDecreasing(GAMMA_ROW_A)
    ensures NonDecreasing(GAMMA_ROW_B)
  {
  }

  lemma GammaRowsCToF()
    ensures NonDecreasing(GAMMA_ROW_C)
    ensures NonDecreasing(GAMMA_ROW_D)
    ensures NonDecreasing(GAMMA_ROW_E)
    ensures NonDecreasing(GAMMA_ROW_F)
  {
  }

  /** The table has one entry per byte value, fixes black and full brightness,
      and never decreases. */
  lemma GammaTable()
    ensures |GAMMA_MAP| == 256
    ensures GAMMA_MAP[0] == 0 && GAMMA_MAP[255] == 255
    ensures NonDecreasing(GAMMA_MAP)
  {
    GammaRows0To3();
    GammaRows4To7();
    GammaRows8ToB();
    GammaRowsCToF();
    var prefix := GAMMA_ROW_0;
    NonDecreasingAppend(prefix, GAMMA_ROW_1);
    prefix := prefix + GAMMA_ROW_1;
    NonDecreasingAppend(prefix, GAMMA_ROW_2);
    prefix := prefix + GAMMA_ROW_2;
    NonDecreasingAppend(prefix, GAMMA_ROW_3);
    prefix := prefix + GAMMA_ROW_3;
    NonDecreasingAppend(prefix, GAMMA_ROW_4);
    prefix := prefix + GAMMA_ROW_4;
    NonDecreasingAppend(prefix, GAMMA_ROW_5);
    prefix := prefix + GAMMA_ROW_5;
    NonDecreasingAppend(prefix, GAMMA_ROW_6);
    prefix := prefix + GAMMA_ROW_6;
    NonDecreasingAppend(prefix, GAMMA_ROW_7);
    prefix := prefix + GAMMA_ROW_7;
    NonDecreasingAppend(prefix, GAMMA_ROW_8);
    prefix := prefix + GAMMA_ROW_8;
    NonDecreasingAppend(prefix, GAMMA_ROW_9);
    prefix := prefix + GAMMA_ROW_9;
    NonDecreasingAppend(prefix, GAMMA_ROW_A);
    prefix := prefix + GAMMA_ROW_A;
    NonDecreasingAppend(prefix, GAMMA_ROW_B);
    prefix := prefix + GAMMA_ROW_B;
    NonDecreasingAppend(prefix, GAMMA_ROW_C);
    prefix := prefix + GAMMA_ROW_C;
    NonDecreasingAppend(prefix, GAMMA_ROW_D);
    prefix := prefix + GAMMA_ROW_D;
    NonDecreasingAppend(prefix, GAMMA_ROW_E);
    prefix := prefix + GAMMA_ROW_E;
    NonDecreasingAppend(prefix, GAMMA_ROW_F);
    prefix := prefix + GAMMA_ROW_F;
  }

  /** No entry exceeds its own position, counting positions from `base`. */
  ghost predicate AtMostPosition(s: seq<int>, base: int)
  {
    forall i :: 0 <= i < |s| ==> s[i] <= base + i
  }

  lemma AtMostPositionAppend(a: seq<int>, b: seq<int>, base: int)
    requires AtMostPosition(a, base) && AtMostPosition(b, base + |a|)
    ensures AtMostPosition(a + b, base)
  {
  }

  lemma GammaRowsBelow0To3()
    ensures AtMostPosition(GAMMA_ROW_0, 0)
    ensures AtMostPosition(GAMMA_ROW_1, 16)
    ensures AtMostPosition(GAMMA_ROW_2, 32)
    ensures AtMostPosition(GAMMA_ROW_3, 48)
  {
  }

  lemma GammaRowsBelow4To7()
    ensures AtMostPosition(GAMMA_ROW_4, 64)
    ensures AtMostPosition(GAMMA_ROW_5, 80)
    ensures AtMostPosition(GAMMA_ROW_6, 96)
    ensures AtMostPosition(GAMMA_ROW_7, 112)
  {
  }

  lemma GammaRowsBelow8ToB()
    ensures AtMostPosition(GAMMA_ROW_8, 128)
    ensures AtMostPosition(GAMMA_ROW_9, 144)
    ensures AtMostPosition(GAMMA_ROW_A, 160)
    ensures AtMostPosition(GAMMA_ROW_B, 176)
  {
  }

  lemma GammaRowsBelowCToF()
    ensures AtMostPosition(GAMMA_ROW_C, 192)
    ensures AtMostPosition(GAMMA_ROW_D, 208)
    ensures AtMostPosition(GAMMA_ROW_E, 224)
    ensures AtMostPosition(GAMMA_ROW_F, 240)
  {
  }

  /** No entry of the table exceeds its index: correction never brightens a
      channel. */
  lemma GammaTableBelow()
    ensures |GAMMA_MAP| == 256
    ensures AtMostPosition(GAMMA_MAP, 0)
  {
    GammaRowsBelow0To3();
    GammaRowsBelow4To7();
    GammaRowsBelow8ToB();
    GammaRowsBelowCToF();
    var prefix := GAMMA_ROW_0;
    AtMostPositionAppend(prefix, GAMMA_ROW_1, 0);
    prefix := prefix + GAMMA_ROW_1;
    AtMostPositionAppend(prefix, GAMMA_ROW_2, 0);
    prefix := prefix + GAMMA_ROW_2;
    AtMostPositionAppend(prefix, GAMMA_ROW_3, 0);
    prefix := prefix + GAMMA_ROW_3;
    AtMostPositionAppend(prefix, GAMMA_ROW_4, 0);
    prefix := prefix + GAMMA_ROW_4;
    AtMostPositionAppend(prefix, GAMMA_ROW_5, 0);
    prefix := prefix + GAMMA_ROW_5;
    AtMostPositionAppend(prefix, GAMMA_ROW_6, 0);
    prefix := prefix + GAMMA_ROW_6;
    AtMostPositionAppend(prefix, GAMMA_ROW_7, 0);
    prefix := prefix + GAMMA_ROW_7;
    AtMostPositionAppend(prefix, GAMMA_ROW_8, 0);
    prefix := prefix + GAMMA_ROW_8;
    AtMostPositionAppend(prefix, GAMMA_ROW_9, 0);
    prefix := prefix + GAMMA_ROW_9;
    AtMostPositionAppend(prefix, GAMMA_ROW_A, 0);
    prefix := prefix + GAMMA_ROW_A;
    AtMostPositionAppend(prefix, GAMMA_ROW_B, 0);
    prefix := prefix + GAMMA_ROW_B;
    AtMostPositionAppend(prefix, GAMMA_ROW_C, 0);
    prefix := prefix + GAMMA_ROW_C;
    AtMostPositionAppend(prefix, GAMMA_ROW_D, 0);
    prefix := prefix + GAMMA_ROW_D;
    AtMostPositionAppend(prefix, GAMMA_ROW_E, 0);
    prefix := prefix + GAMMA_ROW_E;
    AtMostPositionAppend(prefix, GAMMA_ROW_F, 0);
    prefix := prefix + GAMMA_ROW_F;
  }

  /** Gamma correction preserves the order of channel values. */
  lemma GammaMonotone(a: u8, b: u8)
    requires a <= b
    ensures Gamma(a) <= Gamma(b)
  {
    GammaTable();
    GammaIsLookup(a);
    GammaIsLookup(b);
    NonDecreasingOrdered(GAMMA_MAP, a, b);
  }
}
