/**
  The Rabin hash of the delta encoder and its rolling form: sliding a sixteen-byte
  window by one byte through tables T and U gives the hash of the new window.
*/
module RabinHash {
  import opened Bytes
  import opened RabinTables

  const RABIN_WINDOW := 16

  const HASH_BOUND: bv32 := 0x8000_0000

  /** Hash values: thirty-one bits, so that `val >> 23` is an index into table T. */
  type hash = v: bv32 | v < HASH_BOUND

  function Widen(b: byte): (w: bv32)
    ensures w < 256
  {
    b as bv32
  }

  /** One step of the hash: shift in a byte and reduce what was shifted out. */
  function Step(val: hash, c: bv32): (r: hash)
    requires c < 256
  {
    StepBounded(val, c);
    Xor(Low(val, c), T(High(val)))
  }

  // The eight bits shifted out, and the twenty-three that stay with the new byte behind them.
  function High(val: bv32): bv32 {
    val >> 23
  }

  function Low(val: bv32, c: bv32): bv32 {
    (val << 8) | c
  }

  /** The direct hash of a string of bytes, continuing from `val`. */
  function Fold(val: hash, s: seq<byte>): hash {
    if s == [] then val else Step(Fold(val, s[..|s| - 1]), Widen(s[|s| - 1]))
  }

  function Hash(s: seq<byte>): hash {
    Fold(0, s)
  }

  /** The hash of `val` followed by `n` zero bytes. */
  function Shift(val: hash, n: nat): hash {
    if n == 0 then val else Step(Shift(val, n - 1), 0)
  }

  /** How the encoder drops the oldest byte of its window from the hash. */
  function Forget(val: hash, oldest: byte): hash {
    UBounded(val, Widen(oldest));
    Xor(val, U(Widen(oldest)))
  }

  // --- bit-level facts

  lemma StepBounded(val: bv32, c: bv32)
    requires val < HASH_BOUND && c < 256
    ensures High(val) < 256
    ensures Xor(Low(val, c), T(High(val))) < HASH_BOUND
  {
    TTopBit(High(val));
    hide T;
  }

  // The two facts hold entry by entry of the first rows and columns.
  lemma TParts(r: bv32)
    requires r < 16
    ensures TColumn(r) >> 31 == 0 && TRow0(r) >> 31 == r & 1
  {
  }

  lemma UParts(r: bv32)
    requires r < 16
    ensures UColumn(r) < HASH_BOUND && URow0(r) < HASH_BOUND
  {
  }

  lemma Nibbles(i: bv32)
    requires i < 256
    ensures i >> 4 < 16 && i & 15 < 16 && (i & 15) & 1 == i & 1
  {
  }

  lemma TopBits(a: bv32, b: bv32)
    ensures a >> 31 == 0 ==> Xor(a, b) >> 31 == b >> 31
    ensures a < HASH_BOUND && b < HASH_BOUND ==> Xor(a, b) < HASH_BOUND
  {
  }

  lemma TTopBit(i: bv32)
    requires i < 256
    ensures T(i) >> 31 == i & 1
  {
    hide T, TColumn, TRow0, Xor;
    Nibbles(i);
    TSplit(i);
    TParts(i >> 4);
    TParts(i & 15);
    TopBits(TColumn(i >> 4), TRow0(i & 15));
  }

  lemma UBounded(val: bv32, i: bv32)
    requires val < HASH_BOUND && i < 256
    ensures Xor(val, U(i)) < HASH_BOUND
  {
    hide U, UColumn, URow0, Xor;
    Nibbles(i);
    USplit(i);
    UParts(i >> 4);
    UParts(i & 15);
    TopBits(UColumn(i >> 4), URow0(i & 15));
    TopBits(val, U(i));
  }

  lemma XorBounded(v: hash, w: hash)
    ensures Xor(v, w) < HASH_BOUND
  {
  }

  lemma ShiftIn(v: hash, w: hash, c: bv32)
    requires c < 256
    ensures Low(Xor(v, w), c) == Xor(Low(v, c), Low(w, 0))
    ensures High(Xor(v, w)) == Xor(High(v), High(w))
    ensures High(v) < 256 && High(w) < 256
  {
  }

  // --- linearity of the hash

  lemma StepLinear(v: hash, w: hash, c: bv32)
    requires c < 256
    ensures Xor(v, w) < HASH_BOUND
    ensures Step(Xor(v, w), c) == Xor(Step(v, c), Step(w, 0))
  {
    hide Xor, T, High, Low;
    XorBounded(v, w);
    ShiftIn(v, w, c);
    TLinear(High(v), High(w));
    XorRegroup(Low(v, c), Low(w, 0), T(High(v)), T(High(w)));
  }

  lemma {:induction false} ShiftLinear(v: hash, w: hash, n: nat)
    ensures Xor(v, w) < HASH_BOUND
    ensures Shift(Xor(v, w), n) == Xor(Shift(v, n), Shift(w, n))
  {
    hide Xor, Step;
    XorBounded(v, w);
    if n > 0 {
      ShiftLinear(v, w, n - 1);
      StepLinear(Shift(v, n - 1), Shift(w, n - 1), 0);
    }
  }

  /** What was in the hash before `s` came in is carried along as if zeros had come in. */
  lemma {:induction false} FoldLinear(v: hash, w: hash, s: seq<byte>)
    ensures Xor(v, w) < HASH_BOUND
    ensures Fold(Xor(v, w), s) == Xor(Fold(v, s), Shift(w, |s|))
  {
    hide Xor, Step;
    XorBounded(v, w);
    if s != [] {
      var init := s[..|s| - 1];
      FoldLinear(v, w, init);
      StepLinear(Fold(v, init), Shift(w, |init|), Widen(s[|s| - 1]));
    }
  }

  lemma {:induction false} FoldFirst(v: hash, s: seq<byte>)
    requires s != []
    ensures Fold(v, s) == Fold(Step(v, Widen(s[0])), s[1..])
  {
    hide Step;
    if |s| == 1 {
      assert Fold(v, s) == Step(Fold(v, []), Widen(s[0]));
    } else {
      FoldFirst(v, s[..|s| - 1]);
      assert s[..|s| - 1][1..] == s[1..][..|s| - 2];
    }
  }

  lemma StepFromZero(c: bv32)
    requires c < 256
    ensures Step(0, c) == c == Xor(0, c)
  {
    assert High(0) == 0 && Low(0, c) == c;
    assert T(0) == 0;
  }

  lemma XorCancels(a: bv32, u: bv32)
    ensures Xor(Xor(a, u), u) == a
  {
  }

  // --- table U

  // A zero byte shifted in, with the table split into its first row and first column.
  function Zero(v: bv32): bv32 {
    Xor(Low(v, 0), Xor(TColumn(High(v) >> 4), TRow0(High(v) & 15)))
  }

  lemma ZeroIsStep(v: hash)
    ensures Step(v, 0) == Zero(v)
  {
    StepBounded(v, 0);
    hide T, TRow0, TColumn, Xor, Low, High;
    TSplit(High(v));
  }

  function Zero3(v: bv32): bv32 {
    Zero(Zero(Zero(v)))
  }

  lemma ShiftBy3(v: hash, n: nat)
    ensures Shift(v, n + 3) == Zero3(Shift(v, n))
  {
    hide Step, Zero;
    ZeroIsStep(Shift(v, n));
    ZeroIsStep(Shift(v, n + 1));
    ZeroIsStep(Shift(v, n + 2));
  }

  lemma ShiftNothing(v: hash)
    ensures Shift(v, 0) == v
  {
  }

  lemma ShiftBy15(v: hash)
    ensures Shift(v, 15) == Zero3(Zero3(Zero3(Zero3(Zero3(v)))))
  {
    hide Shift, Zero3;
    ShiftNothing(v);
    ShiftBy3(v, 0);
    ShiftBy3(v, 3);
    ShiftBy3(v, 6);
    ShiftBy3(v, 9);
    ShiftBy3(v, 12);
  }

  lemma UChain1()
    ensures U(1) == Shift(1, 15)
  {
    assert Zero3(0x1) == 0x1000000;
    assert Zero3(0x1000000) == 0x177eae38;
    assert Zero3(0x177eae38) == 0xd19fd2c;
    assert Zero3(0xd19fd2c) == 0x1cb666be;
    assert Zero3(0x1cb666be) == 0x7eb5200d;
    assert U(1) == 0x7eb5200d;
    hide Zero3, U;
    ShiftBy15(1);
  }

  lemma UChain2()
    ensures U(2) == Shift(2, 15)
  {
    assert Zero3(0x2) == 0x2000000;
    assert Zero3(0x2000000) == 0x2efd5c70;
    assert Zero3(0x2efd5c70) == 0x1a33fa58;
    assert Zero3(0x1a33fa58) == 0x396ccd7c;
    assert Zero3(0x396ccd7c) == 0x5633f4cb;
    assert U(2) == 0x5633f4cb;
    hide Zero3, U;
    ShiftBy15(2);
  }

  lemma UChain4()
    ensures U(4) == Shift(4, 15)
  {
    assert Zero3(0x4) == 0x4000000;
    assert Zero3(0x4000000) == 0x5dfab8e0;
    assert Zero3(0x5dfab8e0) == 0x3467f4b0;
    assert Zero3(0x3467f4b0) == 0x72d99af8;
    assert Zero3(0x72d99af8) == 0x73e5d47;
    assert U(4) == 0x73e5d47;
    hide Zero3, U;
    ShiftBy15(4);
  }

  lemma UChain8()
    ensures U(8) == Shift(8, 15)
  {
    assert Zero3(0x8) == 0x8000000;
    assert Zero3(0x8000000) == 0x10acc511;
    assert Zero3(0x10acc511) == 0x68cfe960;
    assert Zero3(0x68cfe960) == 0x4eea8121;
    assert Zero3(0x4eea8121) == 0xe7cba8e;
    assert U(8) == 0xe7cba8e;
    hide Zero3, U;
    ShiftBy15(8);
  }

  lemma UChain16()
    ensures U(16) == Shift(16, 15)
  {
    assert Zero3(0x10) == 0x10000000;
    assert Zero3(0x10000000) == 0x21598a22;
    assert Zero3(0x21598a22) == 0x7ac66611;
    assert Zero3(0x7ac66611) == 0x368cb693;
    assert Zero3(0x368cb693) == 0x1cf9751c;
    assert U(16) == 0x1cf9751c;
    hide Zero3, U;
    ShiftBy15(16);
  }

  lemma UChain32()
    ensures U(32) == Shift(32, 15)
  {
    assert Zero3(0x20) == 0x20000000;
    assert Zero3(0x20000000) == 0x42b31444;
    assert Zero3(0x42b31444) == 0x5ed578f3;
    assert Zero3(0x5ed578f3) == 0x6d196d26;
    assert Zero3(0x6d196d26) == 0x39f2ea38;
    assert U(32) == 0x39f2ea38;
    hide Zero3, U;
    ShiftBy15(32);
  }

  lemma UChain64()
    ensures U(64) == Shift(64, 15)
  {
    assert Zero3(0x40) == 0x40000000;
    assert Zero3(0x40000000) == 0x2e3f9c59;
    assert Zero3(0x2e3f9c59) == 0x16f34537;
    assert Zero3(0x16f34537) == 0x716b6e9d;
    assert Zero3(0x716b6e9d) == 0x73e5d470;
    assert U(64) == 0x73e5d470;
    hide Zero3, U;
    ShiftBy15(64);
  }

  lemma UChain128()
    ensures U(128) == Shift(128, 15)
  {
    assert Zero3(0x80) == 0x2b59b4d1;
    assert Zero3(0x2b59b4d1) == 0x5c7f38b2;
    assert Zero3(0x5c7f38b2) == 0x2de68a6e;
    assert Zero3(0x2de68a6e) == 0x498f69eb;
    assert Zero3(0x498f69eb) == 0x4c921c31;
    assert U(128) == 0x4c921c31;
    hide Zero3, U;
    ShiftBy15(128);
  }

  /** Table U holds, for each byte, its hash after fifteen more zero bytes. */
  lemma UIsShift(b: bv32)
    requires b < 256
    ensures U(b) == Shift(b, 15)
  {
    UChain1();
    UChain2();
    UChain4();
    UChain8();
    UChain16();
    UChain32();
    UChain64();
    UChain128();
    UZero();
    SplitByte(b);
    hide U, Shift, Xor;
    USum(b & 1, b & 2);
    USum(b & 3, b & 4);
    USum(b & 7, b & 8);
    USum(b & 15, b & 16);
    USum(b & 31, b & 32);
    USum(b & 63, b & 64);
    USum(b & 127, b & 128);
  }

  lemma UZero()
    ensures U(0) == Shift(0, 15) == 0
  {
    StepFromZero(0);
    ShiftBy15(0);
  }

  lemma SplitByte(b: bv32)
    requires b < 256
    ensures b & 1 == 0 || b & 1 == 1
    ensures b & 2 == 0 || b & 2 == 2
    ensures b & 4 == 0 || b & 4 == 4
    ensures b & 8 == 0 || b & 8 == 8
    ensures b & 16 == 0 || b & 16 == 16
    ensures b & 32 == 0 || b & 32 == 32
    ensures b & 64 == 0 || b & 64 == 64
    ensures b & 128 == 0 || b & 128 == 128
    ensures b & 3 == Xor(b & 1, b & 2) && b & 7 == Xor(b & 3, b & 4) && b & 15 == Xor(b & 7, b & 8)
    ensures b & 31 == Xor(b & 15, b & 16) && b & 63 == Xor(b & 31, b & 32)
    ensures b & 127 == Xor(b & 63, b & 64) && b == Xor(b & 127, b & 128)
    ensures b & 1 < 256 && b & 2 < 256 && b & 3 < 256 && b & 4 < 256 && b & 7 < 256 && b & 8 < 256 && b & 15 < 256
    ensures b & 16 < 256 && b & 31 < 256 && b & 32 < 256 && b & 63 < 256 && b & 64 < 256 && b & 127 < 256 && b & 128 < 256
  {
  }

  lemma USum(i: bv32, j: bv32)
    requires i < 256 && j < 256
    requires U(i) == Shift(i, 15) && U(j) == Shift(j, 15)
    ensures Xor(i, j) < 256
    ensures U(Xor(i, j)) == Shift(Xor(i, j), 15)
  {
    hide U, Shift, Xor;
    ULinear(i, j);
    ShiftLinear(i, j, 15);
  }

  // --- the rolling hash

  /** Forgetting the oldest byte of a full window leaves the hash of the other fifteen. */
  lemma ForgetIsHash(window: seq<byte>)
    requires |window| == RABIN_WINDOW
    ensures Forget(Hash(window), window[0]) == Hash(window[1..])
  {
    hide Xor, U, Step, Fold, Shift;
    var oldest := Widen(window[0]);
    FoldFirst(0, window);
    StepFromZero(oldest);
    FoldLinear(0, oldest, window[1..]);
    UIsShift(oldest);
    XorCancels(Hash(window[1..]), U(oldest));
  }

  /** The rolling hash is the direct hash: sliding the window gives the hash of the new window. */
  lemma RollIsHash(window: seq<byte>, newest: byte)
    requires |window| == RABIN_WINDOW
    ensures Step(Forget(Hash(window), window[0]), Widen(newest)) == Hash(window[1..] + [newest])
  {
    ForgetIsHash(window);
    var slid := window[1..] + [newest];
    assert slid[..|slid| - 1] == window[1..] && slid[|slid| - 1] == newest;
    hide Step, Forget;
  }
}
