/** The CRC-16 of MODBUS in its two implementations, and the errors that it is sure to detect.
  A word is the sequence of its bits, the lowest first.
 */
module Crc {
  import opened Arith
  import opened Folds

  type Word = w: seq<bool> | |w| == 16 witness seq(16, _ => false)
  type Byte = b: seq<bool> | |b| == 8 witness seq(8, _ => false)

  /* ------------------------------- operations on words ------------------------------- */

  function Xor(a: Word, b: Word): (c: Word)
    ensures forall i {:trigger c[i]} :: 0 <= i < 16 ==> c[i] == (a[i] != b[i])
  {
    seq(16, i requires 0 <= i < 16 => a[i] != b[i])
  }

  function Shr(a: Word): (c: Word)
    ensures forall i {:trigger c[i]} :: 0 <= i < 16 ==> c[i] == (i < 15 && a[i + 1])
  {
    seq(16, i requires 0 <= i < 16 => i < 15 && a[i + 1])
  }

  function ShrByte(a: Byte): (c: Byte)
    ensures forall i {:trigger c[i]} :: 0 <= i < 8 ==> c[i] == (i < 7 && a[i + 1])
  {
    seq(8, i requires 0 <= i < 8 => i < 7 && a[i + 1])
  }

  // A byte as a word.
  function Wide(b: Byte): (c: Word)
    ensures forall i {:trigger c[i]} :: 0 <= i < 16 ==> c[i] == (i < 8 && b[i])
  {
    seq(16, i requires 0 <= i < 16 => i < 8 && b[i])
  }

  // A byte moved up by n bits.
  function Lifted(b: Byte, n: nat): (c: Word)
    requires n <= 8
    ensures forall i {:trigger c[i]} :: 0 <= i < 16 ==> c[i] == (n <= i < n + 8 && b[i - n])
  {
    seq(16, i requires 0 <= i < 16 => n <= i < n + 8 && b[i - n])
  }

  // The word with these bits set.
  function Mask(bits: set<nat>): (c: Word)
    ensures forall i {:trigger c[i]} :: 0 <= i < 16 ==> c[i] == (i in bits)
  {
    seq(16, i requires 0 <= i < 16 => i in bits)
  }

  function LowByte(w: Word): Byte {
    w[..8]
  }

  function HighByte(w: Word): Byte {
    w[8..]
  }

  lemma Same(a: Word, b: Word)
    requires forall i :: 0 <= i < 16 ==> a[i] == b[i]
    ensures a == b
  {
  }

  /* ------------------------------- one bit ------------------------------- */

  const INIT: Word := seq(16, _ => true)  // 0xFFFF
  const POLY: Word := Mask({0, 13, 15})  // 0xA001

  function BitStep(crc: Word): Word {
    if crc[0] then Xor(Shr(crc), POLY) else Shr(crc)
  }

  // A bit step loses nothing: the top bit tells which way it has gone.
  lemma BitStepInjective(a: Word, b: Word)
    requires BitStep(a) == BitStep(b)
    ensures a == b
  {
    var c, d := BitStep(a), BitStep(b);
    assert c[15] == a[0] && d[15] == b[0];
    forall i | 0 <= i < 16
      ensures a[i] == b[i]
    {
      if i > 0 {
        assert c[i - 1] == (a[i] != (a[0] && i - 1 in {0, 13, 15}));
        assert d[i - 1] == (b[i] != (b[0] && i - 1 in {0, 13, 15}));
      }
    }
  }

  // Bits that are still above the lowest may be mixed in before a step as well as, one lower,
  // after it.
  lemma BitShifts(crc: Word, b: Byte, n: nat)
    requires n < 8
    ensures BitStep(Xor(crc, Lifted(b, n + 1))) == Xor(BitStep(crc), Lifted(b, n))
  {
    var x := Xor(crc, Lifted(b, n + 1));
    assert x[0] == crc[0];
    Same(BitStep(x), Xor(BitStep(crc), Lifted(b, n)));
  }

  // n bit steps.
  function Steps(crc: Word, n: nat): Word {
    Iterate(BitStep, crc, n)
  }

  lemma StepsInjective(a: Word, b: Word, n: nat)
    requires Steps(a, n) == Steps(b, n)
    ensures a == b
  {
    forall x, y | BitStep(x) == BitStep(y)
      ensures x == y
    {
      BitStepInjective(x, y);
    }
    IterateInjective(BitStep, a, b, n);
  }

  lemma StepsAdd(crc: Word, m: nat, n: nat)
    ensures Steps(crc, m + n) == Steps(Steps(crc, m), n)
  {
    IterateAdd(BitStep, crc, m, n);
  }

  lemma StepsFirst(crc: Word, n: nat)
    ensures n > 0 ==> Steps(crc, n) == Steps(BitStep(crc), n - 1)
  {
  }

  // A byte may be mixed in after n steps, or n bits higher before them.
  lemma {:induction false} StepsShift(crc: Word, b: Byte, n: nat)
    requires n <= 8
    ensures Steps(Xor(crc, Lifted(b, n)), n) == Xor(Steps(crc, n), Lifted(b, 0))
    decreases n
  {
    if n > 0 {
      BitShifts(crc, b, n - 1);
      StepsShift(BitStep(crc), b, n - 1);
    }
  }

  /* ------------------------------- one byte ------------------------------- */

  function ByteStep(crc: Word, byte: Byte): Word {
    Steps(Xor(crc, Wide(byte)), 8)
  }

  // The CRC of a message.
  function Modbus(data: seq<Byte>): Word {
    Fold(ByteStep, INIT, data)
  }

  lemma XorCancels(a: Word, b: Word, c: Word)
    ensures Xor(a, c) == Xor(b, c) ==> a == b
    ensures Xor(c, a) == Xor(c, b) ==> a == b
  {
    if Xor(a, c) == Xor(b, c) {
      forall i | 0 <= i < 16
        ensures a[i] == b[i]
      {
        assert Xor(a, c)[i] == Xor(b, c)[i];
      }
    } else if Xor(c, a) == Xor(c, b) {
      forall i | 0 <= i < 16
        ensures a[i] == b[i]
      {
        assert Xor(c, a)[i] == Xor(c, b)[i];
      }
    }
  }

  lemma WideSame(x: Byte, y: Byte)
    requires Wide(x) == Wide(y)
    ensures x == y
  {
    forall i | 0 <= i < 8
      ensures x[i] == y[i]
    {
      assert Wide(x)[i] == Wide(y)[i];
    }
  }

  // Two bytes in a row are sixteen steps from a state with both mixed in.
  lemma TwoBytes(crc: Word, x: Byte, y: Byte)
    ensures ByteStep(ByteStep(crc, x), y) == Steps(Xor(crc, Both(x, y)), 16)
  {
    var c := Xor(crc, Wide(x));
    StepsShift(c, y, 8);
    Same(Lifted(y, 0), Wide(y));
    Same(Xor(c, Lifted(y, 8)), Xor(crc, Both(x, y)));
    StepsAdd(Xor(crc, Both(x, y)), 8, 8);
  }

  // The word made of a low and a high byte.
  function Both(x: Byte, y: Byte): (c: Word)
    ensures forall i {:trigger c[i]} :: 0 <= i < 16 ==> c[i] == if i < 8 then x[i] else y[i - 8]
  {
    x + y
  }

  // The update is injective in the state and in the byte, and in two bytes in a row.
  lemma ByteStepKeeps()
    ensures KeepsStates(ByteStep) && KeepsBytes(ByteStep) && KeepsPairs(ByteStep)
  {
    forall a, b, x | ByteStep(a, x) == ByteStep(b, x)
      ensures a == b
    {
      StepsInjective(Xor(a, Wide(x)), Xor(b, Wide(x)), 8);
      XorCancels(a, b, Wide(x));
    }
    forall a, x, y | ByteStep(a, x) == ByteStep(a, y)
      ensures x == y
    {
      StepsInjective(Xor(a, Wide(x)), Xor(a, Wide(y)), 8);
      XorCancels(Wide(x), Wide(y), a);
      WideSame(x, y);
    }
    forall a, x, y, x', y' | ByteStep(ByteStep(a, x), y) == ByteStep(ByteStep(a, x'), y')
      ensures x == x' && y == y'
    {
      PairInjective(a, x, y, x', y');
    }
  }

  lemma PairInjective(a: Word, x: Byte, y: Byte, x': Byte, y': Byte)
    requires ByteStep(ByteStep(a, x), y) == ByteStep(ByteStep(a, x'), y')
    ensures x == x' && y == y'
  {
    TwoBytes(a, x, y);
    TwoBytes(a, x', y');
    StepsInjective(Xor(a, Both(x, y)), Xor(a, Both(x', y')), 16);
    XorCancels(Both(x, y), Both(x', y'), a);
    BothSame(x, y, x', y');
  }

  lemma BothSame(x: Byte, y: Byte, x': Byte, y': Byte)
    requires Both(x, y) == Both(x', y')
    ensures x == x' && y == y'
  {
    assert Both(x, y)[..8] == x && Both(x', y')[..8] == x';
    assert Both(x, y)[8..] == y && Both(x', y')[8..] == y';
  }

  /* ------------------------------- whole messages ------------------------------- */

  // Changing exactly one byte always changes the CRC.
  lemma OneByteDetected(data: seq<Byte>, i: nat, x: Byte)
    requires i < |data| && x != data[i]
    ensures Modbus(data[i := x]) != Modbus(data)
  {
    ByteStepKeeps();
    OneChange(ByteStep, INIT, data, i, x);
  }

  // Changes confined to two neighbouring bytes, such as every burst of up to nine bits, are
  // always detected.
  lemma TwoBytesDetected(data: seq<Byte>, i: nat, x: Byte, y: Byte)
    requires i + 1 < |data| && (x != data[i] || y != data[i + 1])
    ensures Modbus(data[i := x][i + 1 := y]) != Modbus(data)
  {
    ByteStepKeeps();
    TwoChanges(ByteStep, INIT, data, i, x, y);
  }

  // A message followed by its own CRC, low byte first, has the CRC zero.
  lemma FrameIsZero(data: seq<Byte>)
    ensures Modbus(data + [LowByte(Modbus(data)), HighByte(Modbus(data))]) == Mask({})
  {
    var crc := Modbus(data);
    var lo, hi := LowByte(crc), HighByte(crc);
    FoldConcat(ByteStep, INIT, data, [lo, hi]);
    FoldTwo(crc, lo, hi);
    OwnBytes(crc);
  }

  // The generator is x^16 + x^15 + x^2 + 1, whose terms below x^16 the polynomial has with the
  // highest first.
  lemma GeneratorIs()
    ensures forall i :: 0 <= i < 16 ==> (POLY[i] <==> 15 - i == 15 || 15 - i == 2 || 15 - i == 0)
  {
  }

  // A bit step divides by x: the word moves down, and the generator comes in if a one drops out.
  // The CRC of no bytes at all is 0xFFFF.
  lemma BitStepIs(crc: Word)
    ensures forall i :: 0 <= i < 16 ==>
      (BitStep(crc)[i] <==> (i < 15 && crc[i + 1]) != (crc[0] && (15 - i == 15 || 15 - i == 2 || 15 - i == 0)))
    ensures forall i :: 0 <= i < 16 ==> Modbus([])[i]
  {
    GeneratorIs();
  }

  lemma OwnBytes(crc: Word)
    ensures ByteStep(ByteStep(crc, LowByte(crc)), HighByte(crc)) == Mask({})
  {
    TwoBytes(crc, LowByte(crc), HighByte(crc));
    Same(Xor(crc, Both(LowByte(crc), HighByte(crc))), Mask({}));
    ZeroSteps(16);
  }

  lemma FoldTwo(crc: Word, lo: Byte, hi: Byte)
    ensures Fold(ByteStep, crc, [lo, hi]) == ByteStep(ByteStep(crc, lo), hi)
  {
    FoldConcat(ByteStep, crc, [lo], [hi]);
    FoldOne(ByteStep, crc, lo);
    FoldOne(ByteStep, ByteStep(crc, lo), hi);
    assert [lo] + [hi] == [lo, hi];
  }

  lemma {:induction false} ZeroSteps(n: nat)
    ensures Steps(Mask({}), n) == Mask({})
    decreases n
  {
    if n > 0 {
      Same(BitStep(Mask({})), Mask({}));
      ZeroSteps(n - 1);
    }
  }

  /* ------------------------------- the two programs ------------------------------- */

  method Crc16Modbus(data: array<Byte>, len: nat) returns (crc: Word)
    requires len <= data.Length
    ensures crc == Modbus(data[..len])
  {
    crc := INIT;
    for i := 0 to len
      invariant crc == Modbus(data[..i])
    {
      crc := MixByte(crc, data[i]);
      assert data[..i + 1][..i] == data[..i];
    }
  }

  // The body of its loop.
  method MixByte(crc0: Word, byte: Byte) returns (crc: Word)
    ensures crc == ByteStep(crc0, byte)
  {
    crc := Xor(crc0, Wide(byte));
    crc := ManySteps(crc, 8);
  }

  // The inner loop.
  method ManySteps(crc0: Word, n: nat) returns (crc: Word)
    ensures crc == Steps(crc0, n)
  {
    crc := crc0;
    for j := 0 to n
      invariant Steps(crc, n - j) == Steps(crc0, n)
    {
      StepsFirst(crc, n - j);
      crc := OneStep(crc);
    }
  }

  method OneStep(crc0: Word) returns (crc: Word)
    ensures crc == BitStep(crc0)
  {
    if crc0[0] {
      crc := Xor(Shr(crc0), POLY);
    } else {
      crc := Shr(crc0);
    }
  }

  // The bits of the byte that have not been mixed in are carried along beside the state: one
  // round of crcu8, with x the exclusive or of the lowest bits.
  lemma RoundIsStep(data: Byte, crc: Word, next: Word)
    requires next == RoundOf(data, crc)
    ensures Xor(next, Wide(ShrByte(data))) == BitStep(Xor(crc, Wide(data)))
  {
    Same(Xor(next, Wide(ShrByte(data))), BitStep(Xor(crc, Wide(data))));
  }

  // crcu8 of CoreMark computes the same update.
  method Crcu8(data0: Byte, crc0: Word) returns (crc: Word)
    ensures crc == ByteStep(crc0, data0)
  {
    var data := data0;
    crc := crc0;
    ghost var goal := Steps(Xor(crc, Wide(data)), 8);
    for i := 0 to 8
      invariant Steps(Xor(crc, Wide(data)), 8 - i) == goal
      invariant Empty(data, 8 - i)
    {
      StepsFirst(Xor(crc, Wide(data)), 8 - i);
      RoundIsStep(data, crc, RoundOf(data, crc));
      crc := OneRound(data, crc);
      data := ShrByte(data);
    }
    Same(Xor(crc, Wide(data)), crc);
  }

  // No bit from n on is set.
  ghost predicate Empty(data: Byte, n: nat) {
    forall k :: n <= k < 8 ==> !data[k]
  }

  function RoundOf(data: Byte, crc: Word): Word {
    if data[0] != crc[0] then Shr(Xor(crc, Mask({1, 14})))[15 := true] else Shr(crc)[15 := false]
  }

  // The body of its loop, but for the shift of the byte.
  method OneRound(data: Byte, crc0: Word) returns (crc: Word)
    ensures crc == RoundOf(data, crc0)
  {
    var x16 := data[0] != crc0[0];
    var carry := false;
    crc := crc0;
    if x16 {
      crc := Xor(crc, Mask({1, 14}));
      carry := true;
    }
    crc := Shr(crc);
    if carry {
      crc := crc[15 := true];
    } else {
      crc := crc[15 := false];
    }
  }

  // crcu16: the low byte first, then the high one.
  method Crcu16(newval: Word, crc0: Word) returns (crc: Word)
    ensures crc == Fold(ByteStep, crc0, [LowByte(newval), HighByte(newval)])
  {
    crc := Crcu8(LowByte(newval), crc0);
    crc := Crcu8(HighByte(newval), crc);
    FoldTwo(crc0, LowByte(newval), HighByte(newval));
  }

  /* ------------------------------- the built-in test ------------------------------- */

  const SIZE: nat := 2048    // CRC_SIZE
  const ROUNDS: nat := 300   // CRC_LOOP_COUNT

  function ByteOf(n: int): Byte {
    seq(8, i requires 0 <= i < 8 => n / Pow2(i) % 2 == 1)
  }

  // 0x5A
  function Flipped(b: Byte): (c: Byte)
    ensures c != b
  {
    assert seq(8, i requires 0 <= i < 8 => b[i] != (i in {1, 3, 4, 6}))[1] != b[1];
    seq(8, i requires 0 <= i < 8 => b[i] != (i in {1, 3, 4, 6}))
  }

  // It differs from b in the bits of 0x5A.
  lemma FlippedIs(b: Byte, i: nat)
    requires i < 8
    ensures Flipped(b)[i] != b[i] <==> 0x5A / Pow2(i) % 2 == 1
  {
    PowersUpTo7();
    assert i == 0 || i == 1 || i == 2 || i == 3 || i == 4 || i == 5 || i == 6 || i == 7;
  }

  lemma PowersUpTo7()
    ensures Pow2(0) == 1 && Pow2(1) == 2 && Pow2(2) == 4 && Pow2(3) == 8
    ensures Pow2(4) == 16 && Pow2(5) == 32 && Pow2(6) == 64 && Pow2(7) == 128
  {
    assert Pow2(2) == 4;
    assert Pow2(4) == 16;
    assert Pow2(6) == 64;
  }

  lemma FlippedTwice(b: Byte)
    ensures Flipped(Flipped(b)) == b
  {
  }

  lemma CorruptionShows(data: seq<Byte>, k: nat)
    requires k < |data|
    ensures var bad := data[k := Flipped(data[k])];
      Modbus(bad) != Modbus(data) && bad[k := Flipped(bad[k])] == data
  {
    FlippedTwice(data[k]);
    OneByteDetected(data, k, Flipped(data[k]));
  }

  // Corrupts byte k and repairs it, taking the CRC before, in between and after.
  method CorruptAndRepair(buffer: array<Byte>, k: nat) returns (ok: Word, err: Word, again: Word)
    requires buffer.Length == SIZE && k < SIZE
    modifies buffer
    ensures ok != err && again == ok
  {
    ghost var data := buffer[..];
    CorruptionShows(data, k);
    ok := WholeCrc(buffer);
    buffer[k] := Flipped(buffer[k]);
    assert buffer[..] == data[k := Flipped(data[k])];
    err := WholeCrc(buffer);
    buffer[k] := Flipped(buffer[k]);
    assert buffer[..] == data;
    again := WholeCrc(buffer);
  }

  method WholeCrc(buffer: array<Byte>) returns (crc: Word)
    requires buffer.Length == SIZE
    ensures crc == Modbus(buffer[..])
  {
    crc := Crc16Modbus(buffer, SIZE);
    assert buffer[..SIZE] == buffer[..];
  }

  // run_crc_test: every corruption is detected and every repair recognised, so that it always
  // answers one.
  method RunCrcTest(buffer: array<Byte>) returns (r: int)
    requires buffer.Length == SIZE
    modifies buffer
    ensures r == 1
  {
    for round := 0 to ROUNDS {
      for i := 0 to SIZE {
        buffer[i] := ByteOf((i * 17 + round * 23 + 29) % 256);
      }
      var ok, err, again := CorruptAndRepair(buffer, round * 123 % SIZE);
      if ok == err {
        return 0;
      }
      if again != ok {
        return 0;
      }
    }
    r := 1;
  }
}
