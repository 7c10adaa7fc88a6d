/** The bit search of the scheduler, and the bitmaps of non-empty ready lists that it searches,
  in their one-level and their two-level form.
 */
module Bitmaps {
  import opened Arith

  // __lowest_bit_bitmap: sixteen rows, which differ in their first entry only.
  const FIRST: seq<nat> := [0, 4, 5, 4, 6, 4, 5, 4, 7, 4, 5, 4, 6, 4, 5, 4]
  const REST: seq<nat> := [0, 1, 0, 2, 0, 1, 0, 3, 0, 1, 0, 2, 0, 1, 0]

  function Entry(b: nat): nat
    requires b < 256
  {
    if b % 16 == 0 then FIRST[b / 16] else REST[b % 16 - 1]
  }

  // __rt_ffs on an unsigned word: the table is asked about the lowest byte that is not zero.
  function Ffs(v: nat): nat
    requires v < 0x1_0000_0000
  {
    if v == 0 then 0
    else if v % 0x100 != 0 then Entry(v % 0x100) + 1
    else if v / 0x100 % 0x100 != 0 then Entry(v / 0x100 % 0x100) + 9
    else if v / 0x1_0000 % 0x100 != 0 then Entry(v / 0x1_0000 % 0x100) + 17
    else Entry(v / 0x100_0000) + 25
  }

  // The index of the lowest bit of v that is set.
  function LowestBit(v: nat): nat
    requires v > 0
  {
    if v % 2 == 1 then 0 else LowestBit(v / 2) + 1
  }

  lemma LowestShift(v: nat)
    ensures v > 0 ==> LowestBit(2 * v) == LowestBit(v) + 1
    ensures LowestBit(2 * v + 1) == 0
  {
    assert 2 * v / 2 == v;
  }

  lemma LowestShift4(v: nat)
    requires v > 0
    ensures LowestBit(16 * v) == LowestBit(v) + 4
  {
    LowestShift(v);
    LowestShift(2 * v);
    LowestShift(4 * v);
    LowestShift(8 * v);
  }

  lemma LowestShift8(v: nat)
    requires v > 0
    ensures LowestBit(256 * v) == LowestBit(v) + 8
  {
    LowestShift4(v);
    LowestShift4(16 * v);
  }

  // If the low end of a number is not zero, what is above it does not matter.
  lemma LowestLow4(h: nat, l: nat)
    requires 0 < l < 4
    ensures LowestBit(4 * h + l) == LowestBit(l)
  {
    if l == 2 {
      assert 4 * h + 2 == 2 * (2 * h + 1);
      LowestShift(2 * h + 1);
      LowestShift(1);
    } else {
      assert 4 * h + l == 2 * (2 * h + l / 2) + 1 && l == 2 * (l / 2) + 1;
      LowestShift(2 * h + l / 2);
      LowestShift(l / 2);
    }
  }

  lemma LowestLow8(h: nat, l: nat)
    requires 0 < l < 8
    ensures LowestBit(8 * h + l) == LowestBit(l)
  {
    LowestShift(l / 2);
    LowestShift(4 * h + l / 2);
    if l % 2 == 0 {
      var m := l / 2;
      assert 8 * h + l == 2 * (4 * h + m);
      LowestShift(4 * h + m);
      LowestShift(m);
      LowestLow4(h, m);
    }
  }

  lemma LowestLow16(h: nat, l: nat)
    requires 0 < l < 16
    ensures LowestBit(16 * h + l) == LowestBit(l)
  {
    LowestShift(l / 2);
    LowestShift(8 * h + l / 2);
    if l % 2 == 0 {
      var m := l / 2;
      assert 16 * h + l == 2 * (8 * h + m);
      LowestShift(8 * h + m);
      LowestShift(m);
      LowestLow8(h, m);
    }
  }

  lemma LowestLow256(h: nat, l: nat)
    requires 0 < l < 256
    ensures LowestBit(256 * h + l) == LowestBit(l)
  {
    var m, k := l / 16, l % 16;
    assert l == 16 * m + k && 256 * h + l == 16 * (16 * h + m) + k;
    if k == 0 {
      LowestShift4(16 * h + m);
      LowestShift4(m);
      LowestLow16(h, m);
    } else {
      LowestLow16(16 * h + m, k);
      LowestLow16(m, k);
    }
  }

  lemma RestLowest(l: nat)
    requires 0 < l < 16
    ensures REST[l - 1] == LowestBit(l)
  {
    LowestShift(1);
    LowestShift(2);
    LowestShift(4);
    LowestShift(3);
    LowestShift(5);
    LowestShift(7);
    LowestShift(6);
    assert l % 2 == 1 || l == 2 || l == 4 || l == 6 || l == 8 || l == 10 || l == 12 || l == 14;
    assert l % 2 == 1 ==> l == 1 || l == 3 || l == 5 || l == 7 || l == 9 || l == 11 || l == 13 || l == 15;
  }

  lemma FirstLowest(h: nat)
    requires 0 < h < 16
    ensures FIRST[h] == REST[h - 1] + 4
  {
    assert h == 1 || h == 2 || h == 3 || h == 4 || h == 5 || h == 6 || h == 7 || h == 8 || h == 9 || h == 10
      || h == 11 || h == 12 || h == 13 || h == 14 || h == 15;
  }

  // The table is right for every byte but zero.
  lemma EntryLowest(b: nat)
    requires 0 < b < 256
    ensures Entry(b) == LowestBit(b)
  {
    var h, l := Split16(b);
    EntryRight(h, l);
  }

  lemma Split16(b: nat) returns (h: nat, l: nat)
    requires 0 < b < 256
    ensures b == 16 * h + l && h < 16 && l < 16 && (l == 0 ==> h > 0)
    ensures Entry(b) == EntryOf(h, l)
  {
    h, l := b / 16, b % 16;
  }

  // The table by rows.
  function EntryOf(h: nat, l: nat): nat
    requires h < 16 && l < 16
  {
    if l == 0 then FIRST[h] else REST[l - 1]
  }

  lemma EntryRight(h: nat, l: nat)
    requires h < 16 && l < 16 && (l == 0 ==> h > 0)
    ensures EntryOf(h, l) == LowestBit(16 * h + l)
  {
    if l == 0 {
      RowStart(h);
    } else {
      RowRest(h, l);
    }
  }

  lemma RowRest(h: nat, l: nat)
    requires 0 < l < 16
    ensures REST[l - 1] == LowestBit(16 * h + l)
  {
    RestLowest(l);
    LowestLow16(h, l);
  }

  lemma RowStart(h: nat)
    requires 0 < h < 16
    ensures FIRST[h] == LowestBit(16 * h)
  {
    FirstLowest(h);
    RestLowest(h);
    LowestShift4(h);
  }

  // The lowest byte decides, unless it is zero.
  lemma ByteStep(v: nat)
    requires v > 0
    ensures v % 0x100 != 0 ==> LowestBit(v) == Entry(v % 0x100)
    ensures v % 0x100 == 0 ==> v / 0x100 > 0 && LowestBit(v) == LowestBit(v / 0x100) + 8
  {
    if v % 0x100 != 0 {
      EntryLowest(v % 0x100);
      LowestLow256(v / 0x100, v % 0x100);
    } else {
      LowestShift8(v / 0x100);
    }
  }

  lemma Bytes(v: nat)
    ensures v / 0x1_0000 == v / 0x100 / 0x100 && v / 0x100_0000 == v / 0x100 / 0x100 / 0x100
  {
  }

  // The search finds the lowest bit of every word, and answers zero for zero only.
  lemma FfsLowest(v: nat)
    requires v < 0x1_0000_0000
    ensures Ffs(v) == if v == 0 then 0 else LowestBit(v) + 1
  {
    if v > 0 {
      Bytes(v);
      ByteStep(v);
      if v % 0x100 == 0 {
        ByteStep(v / 0x100);
        if v / 0x100 % 0x100 == 0 {
          ByteStep(v / 0x100 / 0x100);
          if v / 0x1_0000 % 0x100 == 0 {
            assert 0 < v / 0x100_0000 < 0x100;
            EntryLowest(v / 0x100_0000);
          }
        }
      }
    }
  }

  /* ------------------------------- words ------------------------------- */

  // A word by its bits, the lowest first, and its value.
  type Word = seq<bool>

  function Value(w: Word): nat {
    if w == [] then 0 else (if w[0] then 1 else 0) + 2 * Value(w[1..])
  }

  lemma {:induction false} ValueBound(w: Word)
    ensures Value(w) < Pow2(|w|)
  {
    if w != [] {
      ValueBound(w[1..]);
    }
  }

  // The bit that is set first.
  function FirstSet(w: Word): (k: nat)
    ensures k <= |w|
    ensures forall i :: 0 <= i < k ==> !w[i]
    ensures k < |w| ==> w[k]
  {
    if w == [] then 0 else if w[0] then 0
    else
      assert forall i :: 0 < i < |w| ==> w[i] == w[1..][i - 1];
      FirstSet(w[1..]) + 1
  }

  lemma {:induction false} ValueLowest(w: Word)
    ensures Value(w) == 0 <==> FirstSet(w) == |w|
    ensures Value(w) > 0 ==> LowestBit(Value(w)) == FirstSet(w)
  {
    if w != [] {
      ValueLowest(w[1..]);
      LowestOfTwice(Value(w[1..]), w[0]);
    }
  }

  lemma LowestOfTwice(v: nat, odd: bool)
    ensures odd ==> LowestBit(2 * v + 1) == 0
    ensures !odd && v > 0 ==> LowestBit(2 * v) == LowestBit(v) + 1
  {
    LowestShift(v);
  }

  lemma Pow32()
    ensures Pow2(32) == 0x1_0000_0000 && Pow2(8) == 0x100
  {
    assert Pow2(8) == 0x100;
    assert Pow2(16) == 0x1_0000 by {
      PowAdd(8, 8);
    }
    PowAdd(16, 16);
  }

  lemma {:induction false} PowAdd(m: nat, n: nat)
    ensures Pow2(m + n) == Pow2(m) * Pow2(n)
  {
    if m > 0 {
      PowAdd(m - 1, n);
    }
  }

  // What the search makes of a word of at most 32 bits.
  lemma FfsWord(w: Word)
    requires |w| == 32 || |w| == 8
    ensures Value(w) < 0x1_0000_0000
    ensures Ffs(Value(w)) == if FirstSet(w) == |w| then 0 else FirstSet(w) + 1
  {
    ValueSmall(w);
    ValueLowest(w);
    FfsLowest(Value(w));
  }

  lemma ValueSmall(w: Word)
    requires |w| == 32 || |w| == 8
    ensures Value(w) < 0x1_0000_0000
  {
    ValueBound(w);
    Pow32();
  }

  /* ------------------------------- bitmaps ------------------------------- */

  // With more than 32 priorities there is a byte for every eight of them, and the group says
  // which bytes are not zero.
  datatype Bitmap =
    | OneLevel(group: Word)
    | TwoLevel(group: Word, table: seq<Word>)

  ghost predicate WellFormed(m: Bitmap) {
    |m.group| == 32 && (m.TwoLevel? ==> |m.table| == 32 && forall i :: 0 <= i < 32 ==> |m.table[i]| == 8)
  }

  function Priorities(m: Bitmap): nat {
    if m.OneLevel? then 32 else 256
  }

  function IsSet(m: Bitmap, p: nat): bool
    requires WellFormed(m) && p < Priorities(m)
  {
    if m.OneLevel? then m.group[p] else m.table[p / 8][p % 8]
  }

  // The group bit of every byte says whether the byte has a bit set.
  ghost predicate GroupRight(m: Bitmap)
    requires WellFormed(m)
  {
    m.TwoLevel? ==> forall i :: 0 <= i < 32 ==> (m.group[i] <==> FirstSet(m.table[i]) < 8)
  }

  function Empty(two: bool): (m: Bitmap)
    ensures WellFormed(m) && GroupRight(m) && forall p :: 0 <= p < Priorities(m) ==> !IsSet(m, p)
  {
    var zero := seq(8, _ => false);
    if two then TwoLevel(seq(32, _ => false), seq(32, _ => zero)) else OneLevel(seq(32, _ => false))
  }

  function Set(m: Bitmap, p: nat): (r: Bitmap)
    requires WellFormed(m) && p < Priorities(m)
    ensures WellFormed(r) && r.TwoLevel? == m.TwoLevel?
  {
    if m.OneLevel? then OneLevel(m.group[p := true])
    else TwoLevel(m.group[p / 8 := true], m.table[p / 8 := m.table[p / 8][p % 8 := true]])
  }

  function Clear(m: Bitmap, p: nat): (r: Bitmap)
    requires WellFormed(m) && p < Priorities(m)
    ensures WellFormed(r) && r.TwoLevel? == m.TwoLevel?
  {
    if m.OneLevel? then OneLevel(m.group[p := false])
    else
      var byte := m.table[p / 8][p % 8 := false];
      TwoLevel(if FirstSet(byte) == 8 then m.group[p / 8 := false] else m.group, m.table[p / 8 := byte])
  }

  lemma ByteSet(w: Word, i: nat)
    requires |w| == 8 && i < 8 && w[i]
    ensures FirstSet(w) < 8
  {
  }

  lemma SetRight(m: Bitmap, p: nat)
    requires WellFormed(m) && GroupRight(m) && p < Priorities(m)
    ensures GroupRight(Set(m, p))
    ensures forall q :: 0 <= q < Priorities(m) ==> (IsSet(Set(m, p), q) <==> q == p || IsSet(m, q))
  {
    if m.TwoLevel? {
      ByteSet(m.table[p / 8][p % 8 := true], p % 8);
      assert forall q: nat :: q / 8 == p / 8 && q % 8 == p % 8 ==> q == p;
    }
  }

  lemma ClearRight(m: Bitmap, p: nat)
    requires WellFormed(m) && GroupRight(m) && p < Priorities(m) && IsSet(m, p)
    ensures GroupRight(Clear(m, p))
    ensures forall q :: 0 <= q < Priorities(m) ==> (IsSet(Clear(m, p), q) <==> q != p && IsSet(m, q))
  {
    if m.TwoLevel? {
      ByteSet(m.table[p / 8], p % 8);
      forall q | 0 <= q < 256
        ensures IsSet(Clear(m, p), q) <==> q != p && IsSet(m, q)
      {
        if q / 8 == p / 8 && q % 8 == p % 8 {
          assert q == p;
        }
      }
    }
  }

  // highest_ready_priority, as rt_schedule computes it; meaningless if no bit is set.
  function Highest(m: Bitmap): int
    requires WellFormed(m)
  {
    FfsWord(m.group);
    if m.OneLevel? then Ffs(Value(m.group)) - 1
    else
      var number := Ffs(Value(m.group)) - 1;
      if 0 <= number < 32 then
        FfsWord(m.table[number]);
        number * 8 + Ffs(Value(m.table[number])) - 1
      else -1
  }

  // It is the lowest number whose bit is set.
  lemma HighestRight(m: Bitmap, p: nat)
    requires WellFormed(m) && GroupRight(m) && p < Priorities(m) && IsSet(m, p)
    ensures var h := Highest(m); 0 <= h < Priorities(m) && IsSet(m, h)
    ensures forall q :: 0 <= q < Highest(m) ==> !IsSet(m, q)
  {
    FfsWord(m.group);
    if m.TwoLevel? {
      TwoLevelFound(m, p);
    }
  }

  lemma TwoLevelFound(m: Bitmap, p: nat)
    requires WellFormed(m) && GroupRight(m) && m.TwoLevel? && p < 256 && IsSet(m, p)
    ensures var h := Highest(m); 0 <= h < 256 && IsSet(m, h)
    ensures forall q :: 0 <= q < Highest(m) ==> !IsSet(m, q)
  {
    FfsWord(m.group);
    ByteSet(m.table[p / 8], p % 8);
    FfsWord(m.table[FirstSet(m.group)]);
    TwoLevelHighest(m);
    assert Highest(m) == FirstSet(m.group) * 8 + FirstSet(m.table[FirstSet(m.group)]);
  }

  lemma TwoLevelHighest(m: Bitmap)
    requires WellFormed(m) && GroupRight(m) && m.TwoLevel? && FirstSet(m.group) < 32
    ensures var n := FirstSet(m.group); var k := FirstSet(m.table[n]);
      && k < 8 && IsSet(m, n * 8 + k) && forall q :: 0 <= q < n * 8 + k ==> !IsSet(m, q)
  {
    var n := FirstSet(m.group);
    var k := FirstSet(m.table[n]);
    assert (n * 8 + k) / 8 == n && (n * 8 + k) % 8 == k;
    forall q | 0 <= q < n * 8 + k
      ensures !IsSet(m, q)
    {
      if q / 8 < n {
        assert !m.group[q / 8];
        assert FirstSet(m.table[q / 8]) == 8;
      } else {
        assert q / 8 == n && q % 8 < k;
      }
    }
  }
}
