/** Size classes of the native allocator: which free list serves a request, and how large the
    block really is. */
module MemCommon {
  import opened Words

  const MAX_BYTES: nat := 256 * 1024
  const NFREELIST: nat := 208

  /** All ones except the bits of `m`. */
  function Complement(m: nat): nat
    requires m < WORD
  {
    WORD - 1 - m
  }

  function SizeRoundUp(bytes: nat, alignNum: nat): nat
    requires 1 <= alignNum <= WORD
  {
    BitAnd(Wrap64(bytes + alignNum - 1), Complement(alignNum - 1))
  }

  function SizeIndex(bytes: nat, alignShift: nat): nat {
    PowPositive(alignShift);
    Wrap64(ShiftRight(Wrap64(bytes + Pow2(alignShift) - 1), alignShift) - 1)
  }

  function RoundUp(bytes: nat): nat {
    if bytes <= 128 then SizeRoundUp(bytes, 8)
    else if bytes <= 1024 then SizeRoundUp(bytes, 16)
    else if bytes <= 8 * 1024 then SizeRoundUp(bytes, 128)
    else if bytes <= 64 * 1024 then SizeRoundUp(bytes, 1024)
    else if bytes <= 256 * 1024 then SizeRoundUp(bytes, 8 * 1028)
    else WORD - 1
  }

  /** A band of sizes: where it starts, its granule as a shift, and its first index. */
  datatype Band = Band(low: nat, shift: nat, first: nat)

  function BandOf(bytes: nat): Band {
    if bytes <= 128 then Band(0, 3, 0)
    else if bytes <= 1024 then Band(128, 4, 16)
    else if bytes <= 8 * 1024 then Band(1024, 7, 72)
    else if bytes <= 64 * 1024 then Band(8 * 1024, 10, 128)
    else Band(64 * 1024, 13, 184)
  }

  function Index(bytes: nat): nat {
    if bytes <= MAX_BYTES then
      var band := BandOf(bytes);
      Wrap64(SizeIndex(bytes - band.low, band.shift) + band.first)
    else WORD - 1
  }

  // ---------- masks that are not powers of two ----------

  lemma {:induction false} AndBound(x: nat, m: nat)
    ensures BitAnd(x, m) <= m && BitAnd(x, m) <= x
    decreases x
  {
    if x > 0 && m > 0 {
      AndBound(x / 2, m / 2);
    }
  }

  /** Masking with a complement takes away exactly the masked bits. */
  lemma {:induction false} AndSplit(x: nat, m: nat, w: nat)
    requires x < Pow2(w) && m < Pow2(w)
    ensures BitAnd(x, Pow2(w) - 1 - m) + BitAnd(x, m) == x
    decreases w
  {
    if w > 0 && x > 0 {
      var c := Pow2(w) - 1 - m;
      assert c / 2 == Pow2(w - 1) - 1 - m / 2 && c % 2 == 1 - m % 2;
      AndSplit(x / 2, m / 2, w - 1);
      AndStep(x, c);
      AndStep(x, m);
    }
  }

  lemma {:induction false} AndStep(x: nat, m: nat)
    requires x > 0
    ensures BitAnd(x, m) == 2 * BitAnd(x / 2, m / 2) + if x % 2 == 1 && m % 2 == 1 then 1 else 0
  {
    if m == 0 {
      assert BitAnd(x / 2, 0) == 0;
    }
  }

  lemma {:induction false} NoWrap(x: nat)
    requires x < WORD
    ensures Wrap64(x) == x
  {
  }

  lemma {:induction false} AndWord(x: nat, m: nat)
    requires x < WORD && m < WORD
    ensures BitAnd(x, Complement(m)) + BitAnd(x, m) == x
  {
    WordIsPow();
    AndSplit(x, m, 64);
  }

  /** Any mask rounds up by at most the mask itself. */
  lemma {:induction false} RoundUpBounds(bytes: nat, alignNum: nat)
    requires 1 <= alignNum && bytes + alignNum - 1 < WORD
    ensures bytes <= SizeRoundUp(bytes, alignNum) <= bytes + alignNum - 1
  {
    var x := bytes + alignNum - 1;
    NoWrap(x);
    AndWord(x, alignNum - 1);
    AndBound(bytes + alignNum - 1, alignNum - 1);
  }

  lemma {:induction false} FloorOfWord(x: nat, shift: nat)
    requires shift < 64 && x < WORD
    ensures 1 <= Pow2(shift) <= WORD && BitAnd(x, Complement(Pow2(shift) - 1)) == x / Pow2(shift) * Pow2(shift)
  {
    WordIsPow();
    MaskIsFloor(x, shift, 64);
  }

  /** A power-of-two mask rounds up to the next multiple. */
  lemma {:induction false} RoundUpPower(bytes: nat, shift: nat)
    requires shift < 64 && bytes + Pow2(shift) <= WORD
    ensures 1 <= Pow2(shift) <= WORD
    ensures SizeRoundUp(bytes, Pow2(shift)) == (bytes + Pow2(shift) - 1) / Pow2(shift) * Pow2(shift)
  {
    PowPositive(shift);
    NoWrap(bytes + Pow2(shift) - 1);
    FloorOfWord(bytes + Pow2(shift) - 1, shift);
  }

  lemma {:induction false} Powers()
    ensures Pow2(3) == 8 && Pow2(4) == 16 && Pow2(7) == 128 && Pow2(10) == 1024 && Pow2(13) == 8192
  {
    assert Pow2(7) == 128;
    PowAdd(7, 3);
    PowAdd(10, 3);
  }

  // ---------- both functions in closed form ----------

  /** The number of granules of `g` bytes that cover `bytes`. */
  function Granules(bytes: nat, g: nat): nat
    requires g >= 1
  {
    (bytes + g - 1) / g
  }

  lemma {:induction false} IndexPlain(bytes: nat, shift: nat, g: nat, first: nat)
    requires 1 <= bytes <= MAX_BYTES && g == Pow2(shift) && 1 <= g <= 8192 && first < NFREELIST
    ensures Wrap64(SizeIndex(bytes, shift) + first) == Granules(bytes, g) - 1 + first
  {
    var q := ShiftRight(bytes + g - 1, shift);
    ShiftDivides(bytes + g - 1, shift);
    QuotientSize(bytes + g - 1, g);
    assert q == Granules(bytes, g);
    assert SizeIndex(bytes, shift) == q - 1 by {
      NoWrap(bytes + g - 1);
      NoWrap(q - 1);
    }
    NoWrap(q - 1 + first);
  }

  lemma {:induction false} QuotientSize(n: nat, g: nat)
    requires 1 <= g <= n
    ensures 1 <= n / g <= n
  {
    assert n / g <= n;
  }

  /** The index, without wrap-around or shifts. */
  function PlainIndex(b: nat): int {
    if b <= 128 then Granules(b, 8) - 1
    else if b <= 1024 then Granules(b - 128, 16) + 15
    else if b <= 8192 then Granules(b - 1024, 128) + 71
    else if b <= 65536 then Granules(b - 8192, 1024) + 127
    else Granules(b - 65536, 8192) + 183
  }

  lemma {:induction false} IndexIsPlain(b: nat)
    requires 1 <= b <= MAX_BYTES
    ensures Index(b) == PlainIndex(b)
  {
    Powers();
    var band := BandOf(b);
    IndexPlain(b - band.low, band.shift, Pow2(band.shift), band.first);
  }

  /** The rounded size up to 64K, without masks. */
  function PlainRoundUp(b: nat): nat {
    if b <= 128 then Granules(b, 8) * 8
    else if b <= 1024 then Granules(b, 16) * 16
    else if b <= 8192 then Granules(b, 128) * 128
    else Granules(b, 1024) * 1024
  }

  lemma {:induction false} RoundUpIsPlain(b: nat)
    requires 1 <= b <= 65536
    ensures RoundUp(b) == PlainRoundUp(b)
  {
    Powers();
    if b <= 128 {
      RoundUpPower(b, 3);
    } else if b <= 1024 {
      RoundUpPower(b, 4);
    } else if b <= 8192 {
      RoundUpPower(b, 7);
    } else {
      RoundUpPower(b, 10);
    }
  }

  // ---------- classes ----------

  /** The largest size of class `i`. */
  function Largest(i: nat): nat {
    if i < 16 then 8 * (i + 1)
    else if i < 72 then 128 + 16 * (i - 15)
    else if i < 128 then 1024 + 128 * (i - 71)
    else if i < 184 then 8192 + 1024 * (i - 127)
    else 65536 + 8192 * (i - 183)
  }

  /** Sizes fall into consecutive classes: those up to `Largest(i)` have index at most `i`. */
  lemma {:induction false} IndexSplits(b: nat, i: nat)
    requires 1 <= b <= MAX_BYTES && i < NFREELIST
    ensures Index(b) <= i <==> b <= Largest(i)
  {
    IndexIsPlain(b);
  }

  /** The bands in plain numbers: how far a size reaches into its list, and the size up to
      64K that its block has. */
  lemma {:induction false} Bands(b: nat)
    requires 1 <= b <= 0x4_0000
    ensures b <= 128 ==> 8 * Index(b) < b <= 8 * Index(b) + 8 == RoundUp(b)
    ensures 128 < b <= 1024 ==> 16 * (Index(b) - 16) < b - 128 <= 16 * (Index(b) - 15) && RoundUp(b) == 128 + 16 * (Index(b) - 15)
    ensures 1024 < b <= 8192 ==> 128 * (Index(b) - 72) < b - 1024 <= 128 * (Index(b) - 71) && RoundUp(b) == 1024 + 128 * (Index(b) - 71)
    ensures 8192 < b <= 65536 ==> 1024 * (Index(b) - 128) < b - 8192 <= 1024 * (Index(b) - 127) && RoundUp(b) == 8192 + 1024 * (Index(b) - 127)
    ensures 65536 < b ==> 8192 * (Index(b) - 184) < b - 65536 <= 8192 * (Index(b) - 183)
  {
    IndexIsPlain(b);
    if b <= 65536 {
      RoundUpIsPlain(b);
    }
  }

  /** Outside the table: the empty request wraps in its index, and larger requests have none. */
  lemma {:induction false} OutsideTable(b: nat)
    ensures Index(0) == 0xffff_ffff_ffff_ffff && RoundUp(0) == 0
    ensures b > 0x4_0000 ==> Index(b) == RoundUp(b) == 0xffff_ffff_ffff_ffff
  {
    PowPositive(3);
    assert Pow2(3) == 8;
    ShiftDivides(7, 3);
    AndOnes(7, 3);
    Powers();
    RoundUpPower(0, 3);
  }

  /** The index is monotone, below 208, and every list is some size's. */
  lemma {:induction false} IndexMonotoneOnto(a: nat, b: nat, i: nat)
    requires 1 <= a <= b <= MAX_BYTES && i < NFREELIST
    ensures Index(a) <= Index(b) < NFREELIST
    ensures 1 <= Largest(i) <= MAX_BYTES && Index(Largest(i)) == i
  {
    IndexSplits(b, NFREELIST - 1);
    IndexSplits(b, Index(b));
    IndexSplits(a, Index(b));
    IndexSplits(Largest(i), i);
    if i > 0 {
      IndexSplits(Largest(i), i - 1);
    }
  }

  /** Up to 64K the rounded size is the largest of its class and wastes under an eighth of a
      request of 129 bytes or more. */
  lemma {:induction false} RoundUpIsLargest(b: nat)
    requires 1 <= b <= 65536
    ensures Index(b) < NFREELIST && RoundUp(b) == Largest(Index(b)) >= b
    ensures b >= 129 ==> 8 * (RoundUp(b) - b) < b
  {
    IndexIsPlain(b);
    RoundUpIsPlain(b);
  }

  /** So there two sizes share a list exactly when they round to the same size. */
  lemma {:induction false} SameListSameSize(a: nat, b: nat)
    requires 1 <= a <= 65536 && 1 <= b <= 65536
    ensures Index(a) == Index(b) <==> RoundUp(a) == RoundUp(b)
  {
    RoundUpIsLargest(a);
    RoundUpIsLargest(b);
    IndexSplits(a, Index(b));
    IndexSplits(b, Index(a));
  }

  /** Above 64K the alignment is not a power of two and only bounds remain. */
  lemma {:induction false} LargeRoundUp(b: nat)
    requires 65536 < b <= MAX_BYTES
    ensures b <= RoundUp(b) <= b + 8223
  {
    RoundUpBounds(b, 8 * 1028);
  }

  lemma {:induction false} AndOdd(x: nat, m: nat, m': nat)
    requires m' == 2 * m + 1
    ensures BitAnd(x, m') == 2 * BitAnd(x / 2, m) + x % 2
  {
    assert m' / 2 == m && m' % 2 == 1;
    if x > 0 {
      AndStep(x, m');
    }
  }

  /** Ones at the low end of a mask. */
  lemma {:induction false} AndLow2(x: nat, m: nat, m': nat)
    requires m' == 4 * m + 3
    ensures BitAnd(x, m') == 4 * BitAnd(x / 4, m) + x % 4
  {
    AndOdd(x, 2 * m + 1, m');
    AndOdd(x / 2, m, 2 * m + 1);
  }

  lemma {:induction false} AndLow4(x: nat, m: nat, m': nat)
    requires m' == 16 * m + 15
    ensures BitAnd(x, m') == 16 * BitAnd(x / 16, m) + x % 16
  {
    var half := 4 * m + 3;
    assert BitAnd(x, m') == 4 * BitAnd(x / 4, half) + x % 4 by { AndLow2(x, half, m'); }
    assert BitAnd(x / 4, half) == 4 * BitAnd(x / 16, m) + x / 4 % 4 by {
      AndLow2(x / 4, m, half);
      assert x / 4 / 4 == x / 16;
    }
    Digits(x);
  }

  lemma {:induction false} Digits(x: nat)
    ensures 4 * (x / 4 % 4) + x % 4 == x % 16
  {
  }

  lemma {:induction false} AndLow5(x: nat, m: nat, m': nat)
    requires m' == 32 * m + 31
    ensures BitAnd(x, m') == 32 * BitAnd(x / 32, m) + x % 32
  {
    AndOdd(x, 16 * m + 15, m');
    AndLow4(x / 2, m, 16 * m + 15);
  }

  /** A mask of a single bit. */
  lemma {:induction false} AndBit(x: nat, k: nat)
    ensures BitAnd(x, Pow2(k)) == Pow2(k) * (ShiftRight(x, k) % 2)
    decreases k
  {
    if k == 0 {
      AndOdd(x, 0, 1);
    } else {
      AndEven(x, Pow2(k - 1));
      AndBit(x / 2, k - 1);
    }
  }

  /** The mask of the last band: the five low bits and bit 13. */
  lemma {:induction false} LastMask(x: nat)
    ensures BitAnd(x, 8223) == x % 32 + 8192 * (x / 8192 % 2)
  {
    AndLow5(x, 256, 8223);
    Powers();
    PowAdd(4, 4);
    AndBit(x / 32, 8);
    ShiftDivides(x / 32, 8);
    assert x / 32 / 256 == x / 8192;
  }

  /** Rounding above 64K, without masks: whole granules of 32 bytes, and bit 13 cleared. */
  lemma {:induction false} LargeByGranules(b: nat, g: nat)
    requires 65536 < b <= MAX_BYTES && g == Granules(b, 32)
    ensures RoundUp(b) == 32 * g + 8192 * (g / 256 % 2)
  {
    var x := b + 8223;
    LargeMask(b, x);
    LastMask(x);
    Positions(b, x, g);
    OddOrEven(RoundUp(b), x, x % 32, x / 8192, g, g / 256);
  }

  lemma {:induction false} OddOrEven(size: nat, x: nat, low: nat, q: nat, g: nat, h: nat)
    requires size + low + 8192 * (q % 2) == x && x - low == 32 * g + 8192 && q == h + 1
    ensures size == 32 * g + 8192 * (h % 2)
  {
  }

  lemma {:induction false} LargeMask(b: nat, x: nat)
    requires 65536 < b <= MAX_BYTES && x == b + 8223
    ensures RoundUp(b) + BitAnd(x, 8223) == x
  {
    NoWrap(x);
    AndWord(x, 8223);
  }

  lemma {:induction false} Positions(b: nat, x: nat, g: nat)
    requires x == b + 8223 && g == Granules(b, 32)
    ensures x - x % 32 == 32 * g + 8192 && x / 8192 == g / 256 + 1
  {
    assert x / 32 == g + 256;
    assert x / 8192 == x / 32 / 256;
  }

  lemma {:induction false} LargestByGranules(b: nat, g: nat)
    requires 65536 < b <= MAX_BYTES && g == Granules(b, 32)
    ensures Index(b) < NFREELIST && Largest(Index(b)) == 8192 * ((g + 255) / 256)
  {
    IndexIsPlain(b);
  }

  /** There a size rounds to the largest of its class exactly when it lies within 32 bytes
      below a multiple of 16K. Farther below it rounds past its class, or, in the lower half,
      to less than its class holds. */
  lemma {:induction false} LargeAgrees(b: nat, k: nat, d: nat)
    requires 65536 < b <= MAX_BYTES && b + d == 16384 * k && d < 16384
    ensures Index(b) < NFREELIST
    ensures RoundUp(b) == Largest(Index(b)) <==> d < 32
    ensures RoundUp(b) > Largest(Index(b)) <==> 32 <= d < 8224
  {
    var g := Granules(b, 32);
    LargeByGranules(b, g);
    LargestByGranules(b, g);
    var e := d / 32;
    assert g == 512 * k - e;
    Halves(g, k, e);
  }

  lemma {:induction false} Halves(g: nat, k: nat, e: nat)
    requires e < 512 && g + e == 512 * k
    ensures 32 * g + 8192 * (g / 256 % 2) == 8192 * ((g + 255) / 256) <==> e == 0
    ensures 32 * g + 8192 * (g / 256 % 2) > 8192 * ((g + 255) / 256) <==> 1 <= e <= 256
  {
    if e == 0 {
      HalfAt(g, 2 * k, 0);
    } else if e <= 256 {
      HalfAt(g, 2 * k - 1, 256 - e);
    } else {
      HalfAt(g, 2 * k - 2, 512 - e);
    }
  }

  lemma {:induction false} HalfAt(g: nat, q: nat, r: nat)
    requires g == 256 * q + r && r < 256
    ensures g / 256 == q && (g + 255) / 256 == if r == 0 then q else q + 1
  {
  }

  /** And two sizes on one list round to the same size exactly when they need the same number
      of 32-byte granules. */
  lemma {:induction false} LargeAlike(a: nat, b: nat)
    requires 65536 < a <= MAX_BYTES && 65536 < b <= MAX_BYTES && Index(a) == Index(b)
    ensures RoundUp(a) == RoundUp(b) <==> Granules(a, 32) == Granules(b, 32)
  {
    LargeByGranules(a, Granules(a, 32));
    LargeByGranules(b, Granules(b, 32));
    LargestByGranules(a, Granules(a, 32));
    LargestByGranules(b, Granules(b, 32));
    OneClass(Granules(a, 32), Granules(b, 32));
  }

  lemma {:induction false} OneClass(g: nat, h: nat)
    requires (g + 255) / 256 == (h + 255) / 256
    ensures 32 * g + 8192 * (g / 256 % 2) == 32 * h + 8192 * (h / 256 % 2) <==> g == h
  {
    assert -256 < g - h < 256;
  }

  lemma {:induction false} LastClass(b: nat)
    requires 253952 < b <= MAX_BYTES
    ensures Index(b) == 207
  {
    IndexIsPlain(b);
  }

  /** So sizes on the last list of which the smaller rounds to the larger block, past 256K. */
  lemma {:induction false} LargeDisagrees(b: nat, top: nat)
    requires 253952 < b <= MAX_BYTES - 32 && top == MAX_BYTES
    ensures Index(b) == Index(top) == 207 && RoundUp(b) > RoundUp(top) == top
  {
    LastClass(b);
    LastClass(top);
    LargeAgrees(b, 16, MAX_BYTES - b);
    LargeAgrees(top, 16, 0);
  }
}
