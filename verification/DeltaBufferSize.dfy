/**
  How large the output buffer of the delta encoder gets: the sizes it grows through,
  the most bytes it has to hold, and when the two do not fit together.
*/
module DeltaBufferSize {
  import opened Bytes
  import opened RabinHash
  import opened DeltaBlocks
  import opened DeltaFormat
  import opened DeltaSearch
  import opened DeltaEncoding

  /** The most bytes the header, a window of literals and one instruction can take. */
  const MAX_OP_SIZE := 5 + 5 + 1 + RABIN_WINDOW + 7

  const FIRST_SIZE := 8192

  /** The largest buffer size whose growth by half does not wrap around in 32 bits. */
  const NO_WRAP := 0x5555_5555

  /** The first size above NO_WRAP that the buffer grows to; the next one is smaller. */
  const LAST_SIZE := 1_570_824_171

  function FirstSize(maxSize: nat): nat {
    if maxSize > 0 && FIRST_SIZE >= maxSize then maxSize + MAX_OP_SIZE + 1 else FIRST_SIZE
  }

  /** The next buffer size; the product is taken in 32 bits. */
  function Grown(outsize: nat, maxSize: nat): nat {
    var half := outsize * 3 % SIZE_LIMIT / 2;
    if maxSize > 0 && half >= maxSize then maxSize + MAX_OP_SIZE + 1 else half
  }

  /** Without a limit on the delta, a buffer grows exactly when tripling its size does not wrap around. */
  lemma GrowthWraps(outsize: nat)
    requires FIRST_SIZE <= outsize < SIZE_LIMIT
    ensures Grown(outsize, 0) > outsize <==> outsize <= NO_WRAP
  {
    if outsize > NO_WRAP {
      assert outsize * 3 % SIZE_LIMIT <= outsize * 3 - SIZE_LIMIT;
    }
  }

  // ---------- the sizes reached ----------

  /** The size after `k` growths, without a limit and without wrapping around. */
  function SizeAt(k: nat): (n: nat)
    ensures n >= FIRST_SIZE
  {
    if k == 0 then FIRST_SIZE else SizeAt(k - 1) * 3 / 2
  }

  lemma SizeNext(k: nat)
    ensures SizeAt(0) == FIRST_SIZE && SizeAt(k + 1) == SizeAt(k) * 3 / 2
  {
  }

  lemma SizeAt10()
    ensures SizeAt(10) == 472_392
  {
    hide SizeAt;
    SizeNext(0);
    assert SizeAt(1) == 12_288;
    SizeNext(1);
    assert SizeAt(2) == 18_432;
    SizeNext(2);
    assert SizeAt(3) == 27_648;
    SizeNext(3);
    assert SizeAt(4) == 41_472;
    SizeNext(4);
    assert SizeAt(5) == 62_208;
    SizeNext(5);
    assert SizeAt(6) == 93_312;
    SizeNext(6);
    assert SizeAt(7) == 139_968;
    SizeNext(7);
    assert SizeAt(8) == 209_952;
    SizeNext(8);
    assert SizeAt(9) == 314_928;
    SizeNext(9);
  }

  lemma SizeAt20()
    ensures SizeAt(20) == 27_240_495
  {
    hide SizeAt;
    SizeAt10();
    SizeNext(10);
    assert SizeAt(11) == 708_588;
    SizeNext(11);
    assert SizeAt(12) == 1_062_882;
    SizeNext(12);
    assert SizeAt(13) == 1_594_323;
    SizeNext(13);
    assert SizeAt(14) == 2_391_484;
    SizeNext(14);
    assert SizeAt(15) == 3_587_226;
    SizeNext(15);
    assert SizeAt(16) == 5_380_839;
    SizeNext(16);
    assert SizeAt(17) == 8_071_258;
    SizeNext(17);
    assert SizeAt(18) == 12_106_887;
    SizeNext(18);
    assert SizeAt(19) == 18_160_330;
    SizeNext(19);
  }

  lemma SizeAt29()
    ensures SizeAt(29) == 1_047_216_114
  {
    hide SizeAt;
    SizeAt20();
    SizeNext(20);
    assert SizeAt(21) == 40_860_742;
    SizeNext(21);
    assert SizeAt(22) == 61_291_113;
    SizeNext(22);
    assert SizeAt(23) == 91_936_669;
    SizeNext(23);
    assert SizeAt(24) == 137_905_003;
    SizeNext(24);
    assert SizeAt(25) == 206_857_504;
    SizeNext(25);
    assert SizeAt(26) == 310_286_256;
    SizeNext(26);
    assert SizeAt(27) == 465_429_384;
    SizeNext(27);
    assert SizeAt(28) == 698_144_076;
    SizeNext(28);
  }

  lemma SizesAtTheEnd()
    ensures SizeAt(29) == 1_047_216_114 && SizeAt(30) == LAST_SIZE
  {
    hide SizeAt;
    SizeAt29();
    SizeNext(29);
  }

  lemma {:induction false} SizesGrow(j: nat, k: nat)
    requires j <= k
    ensures SizeAt(j) <= SizeAt(k)
    decreases k
  {
    if j < k {
      SizesGrow(j, k - 1);
    }
  }

  ghost predicate OnChain(outsize: nat) {
    exists k: nat :: k <= 30 && outsize == SizeAt(k)
  }

  /** Without a limit the sizes are those of the chain, and the growth from its last size shrinks the buffer. */
  lemma ChainGrows(outsize: nat)
    requires OnChain(outsize)
    ensures FIRST_SIZE <= outsize <= LAST_SIZE
    ensures
      if outsize < LAST_SIZE then
        Grown(outsize, 0) == outsize * 3 / 2 && OnChain(Grown(outsize, 0)) && outsize <= 1_047_216_114
      else
        Grown(outsize, 0) == 208_752_608
  {
    hide SizeAt;
    var k: nat :| k <= 30 && outsize == SizeAt(k);
    SizesAtTheEnd();
    if k < 30 {
      SizesGrow(k, 29);
      SizeNext(k);
      assert OnChain(SizeAt(k + 1));
    }
  }

  /** A limit that stops the buffer from growing to where its size wraps around. */
  predicate Limited(maxSize: nat) {
    0 < maxSize <= LAST_SIZE
  }

  /** How many bytes in the buffer after a round end the encoding: past the limit, or past what can be grown. */
  function Threshold(maxSize: nat): nat {
    if Limited(maxSize) then maxSize + 1 else LAST_SIZE - MAX_OP_SIZE
  }

  /** A buffer size is one of the chain, below the limit, or the final one just above the limit. */
  ghost predicate IsSize(outsize: nat, maxSize: nat) {
    || (Limited(maxSize) && outsize == maxSize + MAX_OP_SIZE + 1)
    || (OnChain(outsize) && (maxSize > 0 ==> outsize < maxSize))
  }

  lemma FirstSizeIsSize(maxSize: nat)
    ensures IsSize(FirstSize(maxSize), maxSize) && FirstSize(maxSize) >= MAX_OP_SIZE + 1
  {
    assert FIRST_SIZE == SizeAt(0);
  }

  /** In every buffer the encoder gets, the three outcomes of making room are decided by the threshold. */
  lemma RoomIsThreshold(outsize: nat, maxSize: nat, outpos: nat)
    requires IsSize(outsize, maxSize) && outpos <= outsize
    ensures outpos < outsize - MAX_OP_SIZE ==> outpos < Threshold(maxSize)
    ensures
      outpos >= outsize - MAX_OP_SIZE ==>
        if maxSize > 0 && outpos > maxSize then Limited(maxSize) && outpos >= Threshold(maxSize)
        else if Grown(outsize, maxSize) < outpos + MAX_OP_SIZE then !Limited(maxSize) && outpos >= Threshold(maxSize)
        else outpos < Threshold(maxSize) && IsSize(Grown(outsize, maxSize), maxSize)
  {
    hide OnChain;
    if OnChain(outsize) && (maxSize > 0 ==> outsize < maxSize) {
      ChainGrows(outsize);
    }
  }

  // ---------- the bytes held ----------

  ghost function Header(src: seq<byte>, trg: seq<byte>): seq<byte> {
    EncodeSize(|src|) + EncodeSize(|trg|)
  }

  /** The bytes in the buffer in a state of the encoder. */
  ghost function Written(src: seq<byte>, trg: seq<byte>, s: Enc): nat
    requires ValidOps(src, s.ops)
  {
    |Header(src, trg)| + EncodedSize(src, s)
  }

  /** The most bytes in the buffer after any round from `s` on, or in `s` itself when no round is left. */
  ghost function Peak(src: seq<byte>, hsize: nat, trg: seq<byte>, s: Enc): nat
    requires |src| < SIZE_LIMIT && hsize > 0 && Sound(src, trg, s)
    decreases |trg| - s.data
  {
    hide Sound, Next, Written;
    SoundData(src, trg, s);
    if s.data == |trg| then Written(src, trg, s)
    else
      NextKeeps(src, hsize, trg, s);
      var s' := Next(src, hsize, trg, s);
      SoundData(src, trg, s');
      var later := Peak(src, hsize, trg, s');
      if Written(src, trg, s') > later then Written(src, trg, s') else later
  }

  /** Some round of encoding `trg` leaves at least `bytes` bytes in the buffer. */
  ghost predicate Fills(src: seq<byte>, hsize: nat, trg: seq<byte>, bytes: nat)
    requires |src| < SIZE_LIMIT && hsize > 0
  {
    InitIsSound(src, trg);
    Peak(src, hsize, trg, Init(trg)) >= bytes
  }

  /** Up to state `s` no round has left `bytes` bytes, so what is left decides. */
  ghost predicate NotYet(src: seq<byte>, hsize: nat, trg: seq<byte>, s: Enc, bytes: nat)
    requires |src| < SIZE_LIMIT && hsize > 0
  {
    Sound(src, trg, s) && (Fills(src, hsize, trg, bytes) <==> Peak(src, hsize, trg, s) >= bytes)
  }

  lemma NotYetAtFirst(src: seq<byte>, hsize: nat, trg: seq<byte>, bytes: nat)
    requires |src| < SIZE_LIMIT && hsize > 0
    ensures NotYet(src, hsize, trg, Init(trg), bytes)
  {
    hide Sound, Peak;
    InitIsSound(src, trg);
  }

  lemma NotYetAfter(src: seq<byte>, hsize: nat, trg: seq<byte>, s: Enc, bytes: nat)
    requires |src| < SIZE_LIMIT && hsize > 0 && NotYet(src, hsize, trg, s, bytes) && s.data < |trg|
    ensures
      var s' := Next(src, hsize, trg, s);
      && ValidOps(src, s'.ops)
      && if Written(src, trg, s') >= bytes then Fills(src, hsize, trg, bytes) else NotYet(src, hsize, trg, s', bytes)
  {
    hide Sound, Next, Written, Fills;
    NextKeeps(src, hsize, trg, s);
    SoundData(src, trg, Next(src, hsize, trg, s));
  }

  lemma NotYetAtLast(src: seq<byte>, hsize: nat, trg: seq<byte>, s: Enc, bytes: nat)
    requires |src| < SIZE_LIMIT && hsize > 0 && NotYet(src, hsize, trg, s, bytes) && s.data == |trg|
    ensures ValidOps(src, s.ops)
    ensures Fills(src, hsize, trg, bytes) <==> Written(src, trg, s) >= bytes
  {
    hide Sound, Next, Written, Fills;
    SoundData(src, trg, s);
  }

  lemma HeaderIsShort(src: seq<byte>, trg: seq<byte>)
    requires |src| < SIZE_LIMIT && |trg| < SIZE_LIMIT
    ensures |Header(src, trg)| <= 10
  {
    hide EncodeSize;
    SizeIsShort(|src|);
    SizeIsShort(|trg|);
  }

  lemma {:induction false} PeakIsShort(src: seq<byte>, hsize: nat, trg: seq<byte>, s: Enc)
    requires |src| < SIZE_LIMIT && hsize > 0 && Sound(src, trg, s) && EncodedSize(src, s) <= 2 * s.data
    ensures Peak(src, hsize, trg, s) <= |Header(src, trg)| + 2 * |trg|
    decreases |trg| - s.data
  {
    hide Sound, Next, EncodedSize, Header;
    SoundData(src, trg, s);
    if s.data < |trg| {
      NextKeeps(src, hsize, trg, s);
      NextSize(src, hsize, trg, s);
      SoundData(src, trg, Next(src, hsize, trg, s));
      PeakIsShort(src, hsize, trg, Next(src, hsize, trg, s));
    }
  }

  /** A target never fills more than twice its size and the two sizes of the header. */
  lemma FillsAtMostTwice(src: seq<byte>, hsize: nat, trg: seq<byte>, bytes: nat)
    requires |src| < SIZE_LIMIT && |trg| < SIZE_LIMIT && hsize > 0 && trg != []
    ensures Fills(src, hsize, trg, bytes) ==> bytes <= 2 * |trg| + 10
  {
    hide Sound, Peak, Header;
    InitIsSound(src, trg);
    HeaderIsShort(src, trg);
    PeakIsShort(src, hsize, trg, Init(trg));
  }

  // ---------- sources without blocks ----------

  lemma ShortSourceFindsNothing(src: seq<byte>, hsize: nat, trg: seq<byte>, s: Enc)
    requires |src| <= RABIN_WINDOW && hsize > 0 && RABIN_WINDOW <= s.data < |trg|
    ensures Choose(src, hsize, trg, s) == s.m
  {
    hide Hash, WindowAt, Bucket, Common;
    var i := Bucket(WindowAt(trg, s.data), hsize);
    assert Blocks(src, 0) == [];
    assert BucketList(src, i, hsize) == [];
  }

  /** The bytes of instructions that insert `n` bytes. */
  function LiteralBytes(n: nat): nat {
    n + (n + MAX_INSERT - 1) / MAX_INSERT
  }

  /** Everything so far was inserted, in runs as long as can be. */
  ghost predicate AllLiteral(src: seq<byte>, s: Enc) {
    && ValidOps(src, s.ops) && s.m.size == 0
    && |s.lit| == s.data % MAX_INSERT
    && |EncodeAll(src, s.ops)| == (MAX_INSERT + 1) * (s.data / MAX_INSERT)
  }

  lemma AllLiteralSize(src: seq<byte>, s: Enc)
    requires AllLiteral(src, s)
    ensures EncodedSize(src, s) == LiteralBytes(s.data)
  {
    hide EncodeAll, ValidOps;
  }

  lemma AllLiteralGoesOn(src: seq<byte>, hsize: nat, trg: seq<byte>, s: Enc)
    requires |src| <= RABIN_WINDOW && hsize > 0 && s.data < |trg| && Sound(src, trg, s) && AllLiteral(src, s)
    ensures
      var s' := Next(src, hsize, trg, s);
      s'.data == s.data + 1 && AllLiteral(src, s')
  {
    hide Choose, EncodeAll, MeaningAll, ValidOps, Matches;
    ShortSourceFindsNothing(src, hsize, trg, s);
    var lit := s.lit + [trg[s.data]];
    if |lit| == MAX_INSERT {
      assert ValidOp(src, Insert(lit));
      MeaningSnoc(src, s.ops, Insert(lit));
    }
  }

  lemma {:induction false} LiteralPeak(src: seq<byte>, hsize: nat, trg: seq<byte>, s: Enc)
    requires |src| <= RABIN_WINDOW && hsize > 0 && Sound(src, trg, s) && AllLiteral(src, s)
    ensures Peak(src, hsize, trg, s) == |Header(src, trg)| + LiteralBytes(|trg|)
    decreases |trg| - s.data
  {
    hide Sound, Next, EncodedSize, Header, AllLiteral;
    SoundData(src, trg, s);
    AllLiteralSize(src, s);
    if s.data < |trg| {
      NextKeeps(src, hsize, trg, s);
      AllLiteralGoesOn(src, hsize, trg, s);
      var s' := Next(src, hsize, trg, s);
      SoundData(src, trg, s');
      AllLiteralSize(src, s');
      LiteralPeak(src, hsize, trg, s');
    }
  }

  lemma SizeIsLong(n: nat)
    requires 0x1000_0000 <= n < SIZE_LIMIT
    ensures |EncodeSize(n)| == 5
  {
    SizeIsShort(n);
    var n1 := n / 0x80;
    var n2 := n1 / 0x80;
    var n3 := n2 / 0x80;
    var n4 := n3 / 0x80;
    assert |EncodeSize(n4)| == 1;
    assert |EncodeSize(n3)| == 2;
    assert |EncodeSize(n2)| == 3;
    assert |EncodeSize(n1)| == 4;
  }

  /** From a source of at most sixteen bytes, a target fills all that can be grown exactly from a certain size on. */
  lemma ShortSourceFills(src: seq<byte>, hsize: nat, trg: seq<byte>)
    requires |src| <= RABIN_WINDOW && hsize > 0 && trg != [] && |trg| < SIZE_LIMIT
    ensures Fills(src, hsize, trg, LAST_SIZE - MAX_OP_SIZE) <==> |trg| >= 1_558_552_067
  {
    hide Sound, Peak, EncodeSize;
    InitIsSound(src, trg);
    AllLiteralAtFirst(src, trg);
    LiteralPeak(src, hsize, trg, Init(trg));
    SizeStops(|src|);
    SizeIsShort(|trg|);
    if |trg| >= 0x1000_0000 {
      SizeIsLong(|trg|);
    }
  }

  lemma AllLiteralAtFirst(src: seq<byte>, trg: seq<byte>)
    ensures AllLiteral(src, Init(trg))
  {
  }

  /** When no limit is given, this input fills more than the buffer it is left with. */
  lemma OverrunExample(hsize: nat)
    requires hsize > 0
    ensures !Limited(0) && Fills([0], hsize, seq(1_558_552_067, _ => 0), Threshold(0))
  {
    hide Fills;
    ShortSourceFills([0], hsize, seq(1_558_552_067, _ => 0));
  }
}
