/**
 * Byte-level operations of the frame mutator: single-bit flips, the clipped
 * byte patch, and the hex text that the packet tracker records.
 */
module RawBytes {
  import opened Wrappers

  type byte = bv8

  // ---------------------------------------------------------------------
  // Bit flips
  // ---------------------------------------------------------------------

  /** One random choice of the mutator: `random.randint(0, L - 1)` picks the
      byte and `random.randint(0, 7)` the bit. */
  datatype Flip = Flip(byteIdx: nat, bitIdx: nat)

  predicate FlipInRange(f: Flip, len: nat) {
    f.byteIdx < len && f.bitIdx < 8
  }

  predicate AllInRange(fs: seq<Flip>, len: nat) {
    forall i :: 0 <= i < |fs| ==> FlipInRange(fs[i], len)
  }

  /** `1 << bit_idx`, tabulated. */
  function Mask(bit: nat): (m: byte)
    requires bit < 8
    ensures m == (1 as byte) << bit
  {
    if bit == 0 then 1 else if bit == 1 then 2 else if bit == 2 then 4 else if bit == 3 then 8
    else if bit == 4 then 16 else if bit == 5 then 32 else if bit == 6 then 64 else 128
  }

  /** `packet_bytes[byte_idx] ^= (1 << bit_idx)` */
  function FlipBit(bs: seq<byte>, f: Flip): (r: seq<byte>)
    requires FlipInRange(f, |bs|)
    ensures |r| == |bs|
  {
    bs[f.byteIdx := bs[f.byteIdx] ^ Mask(f.bitIdx)]
  }

  /** The buffer after the flips `fs`, applied first to last. */
  function ApplyFlips(bs: seq<byte>, fs: seq<Flip>): (r: seq<byte>)
    requires AllInRange(fs, |bs|)
    ensures |r| == |bs|
    decreases |fs|
  {
    if fs == [] then bs
    else FlipBit(ApplyFlips(bs, fs[..|fs| - 1]), fs[|fs| - 1])
  }

  /** One more pick applies one more flip to the buffer. */
  lemma ApplyFlipsStep(bs: seq<byte>, fs: seq<Flip>, i: nat)
    requires i < |fs| && AllInRange(fs[..i + 1], |bs|)
    ensures AllInRange(fs[..i], |bs|) && FlipInRange(fs[i], |bs|)
    ensures ApplyFlips(bs, fs[..i + 1]) == FlipBit(ApplyFlips(bs, fs[..i]), fs[i])
  {
    assert fs[..i + 1][..i] == fs[..i];
    assert fs[..i + 1][i] == fs[i];
  }

  /** The value (0 or 1) of bit `k` of `b`. */
  function Bit(b: byte, k: nat): nat
    requires k < 8
  {
    if b & Mask(k) == 0 then 0 else 1
  }

  /** Number of set bits among the lowest `n` bits of `b`. */
  function Bits(b: byte, n: nat): nat
    requires n <= 8
  {
    if n == 0 then 0 else Bits(b, n - 1) + Bit(b, n - 1)
  }

  /** Number of set bits of a byte. */
  function PopCount(b: byte): nat {
    Bits(b, 8)
  }

  /** Number of bit positions in which two bytes differ. */
  function BitDiff(x: byte, y: byte): nat {
    PopCount(x ^ y)
  }

  /** Number of bit positions in which two equally long buffers differ. */
  function Distance(a: seq<byte>, b: seq<byte>): nat
    requires |a| == |b|
  {
    if a == [] then 0 else BitDiff(a[0], b[0]) + Distance(a[1..], b[1..])
  }

  lemma BitToggle(z: byte, k: nat, i: nat)
    requires k < 8 && i < 8
    ensures Bit(z ^ Mask(k), i) == if i == k then 1 - Bit(z, i) else Bit(z, i)
  {
    var m, n := Mask(k), Mask(i);
    assert (z ^ m) & n == (z & n) ^ (m & n);
    if i == k {
      assert z & n == 0 || z & n == n;
    } else {
      assert m & n == 0;
    }
  }

  /** Toggling bit `k` changes the count of the lowest `n` bits only if `k < n`,
      and then by one in the direction away from the old bit. */
  lemma {:induction false} BitsToggle(z: byte, k: nat, n: nat)
    requires k < 8 && n <= 8
    ensures Bits(z ^ Mask(k), n) == Bits(z, n) + (if k < n then 1 - 2 * Bit(z, k) else 0)
  {
    if n > 0 {
      BitsToggle(z, k, n - 1);
      BitToggle(z, k, n - 1);
    }
  }

  /** Toggling one bit moves the bit count by exactly one. */
  lemma PopCountToggle(z: byte, k: nat)
    requires k < 8
    ensures PopCount(z ^ Mask(k)) == PopCount(z) + 1 || PopCount(z ^ Mask(k)) + 1 == PopCount(z)
  {
    BitsToggle(z, k, 8);
  }

  lemma {:induction false} BitsOfZero(n: nat)
    requires n <= 8
    ensures Bits(0, n) == 0
  {
    if n > 0 {
      BitsOfZero(n - 1);
      assert (0 as byte) & Mask(n - 1) == 0;
    }
  }

  lemma BitDiffSelf(x: byte)
    ensures BitDiff(x, x) == 0
  {
    assert x ^ x == 0;
    BitsOfZero(8);
  }

  lemma BitDiffToggle(x: byte, y: byte, k: nat)
    requires k < 8
    ensures BitDiff(x, y ^ Mask(k)) == BitDiff(x, y) + 1 || BitDiff(x, y ^ Mask(k)) + 1 == BitDiff(x, y)
  {
    assert x ^ (y ^ Mask(k)) == (x ^ y) ^ Mask(k);
    PopCountToggle(x ^ y, k);
  }

  lemma BitDiffMask(x: byte, k: nat)
    requires k < 8
    ensures BitDiff(x, x ^ Mask(k)) == 1
  {
    assert x ^ (x ^ Mask(k)) == 0 ^ Mask(k);
    BitsToggle(0, k, 8);
    BitsOfZero(8);
    assert (0 as byte) & Mask(k) == 0;
  }

  lemma {:induction false} DistanceSelf(a: seq<byte>)
    ensures Distance(a, a) == 0
  {
    if a != [] {
      BitDiffSelf(a[0]);
      DistanceSelf(a[1..]);
    }
  }

  /** Replacing one byte of the second buffer changes the distance only at that byte. */
  lemma {:induction false} DistanceUpdate(a: seq<byte>, c: seq<byte>, j: nat, v: byte)
    requires |a| == |c| && j < |a|
    ensures Distance(a, c[j := v]) + BitDiff(a[j], c[j]) == Distance(a, c) + BitDiff(a[j], v)
  {
    if j > 0 {
      assert c[j := v][1..] == c[1..][j - 1 := v];
      DistanceUpdate(a[1..], c[1..], j - 1, v);
    } else {
      assert c[j := v][1..] == c[1..];
    }
  }

  /** Each flip changes exactly one bit of the buffer. */
  lemma FlipBitOneBit(bs: seq<byte>, f: Flip)
    requires FlipInRange(f, |bs|)
    ensures Distance(bs, FlipBit(bs, f)) == 1
  {
    var j, v := f.byteIdx, bs[f.byteIdx] ^ Mask(f.bitIdx);
    assert FlipBit(bs, f) == bs[j := v];
    DistanceUpdate(bs, bs, j, v);
    DistanceSelf(bs);
    BitDiffSelf(bs[j]);
    BitDiffMask(bs[j], f.bitIdx);
  }

  /** A flip leaves every other byte as it was. */
  lemma FlipBitElsewhere(bs: seq<byte>, f: Flip, k: nat)
    requires FlipInRange(f, |bs|) && k < |bs| && k != f.byteIdx
    ensures FlipBit(bs, f)[k] == bs[k]
  {
  }

  /** XOR is an involution: flipping the same bit twice restores the buffer. */
  lemma FlipBitInvolution(bs: seq<byte>, f: Flip)
    requires FlipInRange(f, |bs|)
    ensures FlipBit(FlipBit(bs, f), f) == bs
  {
    var j, m := f.byteIdx, Mask(f.bitIdx);
    assert (bs[j] ^ m) ^ m == bs[j];
  }

  /** Flipping against a fixed reference buffer moves the distance by exactly one. */
  lemma FlipBitDistanceStep(a: seq<byte>, c: seq<byte>, f: Flip)
    requires |a| == |c| && FlipInRange(f, |c|)
    ensures Distance(a, FlipBit(c, f)) == Distance(a, c) + 1 || Distance(a, FlipBit(c, f)) + 1 == Distance(a, c)
  {
    var j, v := f.byteIdx, c[f.byteIdx] ^ Mask(f.bitIdx);
    assert FlipBit(c, f) == c[j := v];
    DistanceUpdate(a, c, j, v);
    BitDiffToggle(a[j], c[j], f.bitIdx);
  }

  /** One more flip moves the changed-bit count by one, up or down. */
  lemma CountStep(n: nat, d0: nat, d1: nat)
    requires d0 <= n && (n - d0) % 2 == 0
    requires d1 == d0 + 1 || d1 + 1 == d0
    ensures d1 <= n + 1 && (n + 1 - d1) % 2 == 0
  {
  }

  /** `n` flips change at most `n` bits, and the number of changed bits has the
      parity of `n`: repeated positions cancel in pairs. */
  lemma {:induction false} ApplyFlipsDistance(bs: seq<byte>, fs: seq<Flip>)
    requires AllInRange(fs, |bs|)
    ensures Distance(bs, ApplyFlips(bs, fs)) <= |fs|
    ensures (|fs| - Distance(bs, ApplyFlips(bs, fs))) % 2 == 0
    decreases |fs|
  {
    if fs == [] {
      DistanceSelf(bs);
      assert ApplyFlips(bs, fs) == bs;
    } else {
      var init, last := fs[..|fs| - 1], fs[|fs| - 1];
      assert |fs| == |init| + 1;
      assert AllInRange(init, |bs|);
      var c := ApplyFlips(bs, init);
      assert ApplyFlips(bs, fs) == FlipBit(c, last);
      ApplyFlipsDistance(bs, init);
      FlipBitDistanceStep(bs, c, last);
      CountStep(|init|, Distance(bs, c), Distance(bs, ApplyFlips(bs, fs)));
    }
  }

  /** A byte that no flip names keeps its value. */
  lemma {:induction false} ApplyFlipsUntouched(bs: seq<byte>, fs: seq<Flip>, k: nat)
    requires AllInRange(fs, |bs|) && k < |bs|
    requires forall i :: 0 <= i < |fs| ==> fs[i].byteIdx != k
    ensures ApplyFlips(bs, fs)[k] == bs[k]
    decreases |fs|
  {
    if fs != [] {
      var init := fs[..|fs| - 1];
      assert AllInRange(init, |bs|);
      ApplyFlipsUntouched(bs, init, k);
    }
  }

  /** Flipping `fs` and then `gs` is flipping `fs + gs`. */
  lemma {:induction false} ApplyFlipsAppend(bs: seq<byte>, fs: seq<Flip>, gs: seq<Flip>)
    requires AllInRange(fs + gs, |bs|)
    ensures AllInRange(fs, |bs|) && AllInRange(gs, |bs|)
    ensures ApplyFlips(bs, fs + gs) == ApplyFlips(ApplyFlips(bs, fs), gs)
    decreases |gs|
  {
    assert forall i :: 0 <= i < |fs| ==> (fs + gs)[i] == fs[i];
    assert forall i :: 0 <= i < |gs| ==> (fs + gs)[|fs| + i] == gs[i];
    if gs == [] {
      assert fs + gs == fs;
    } else {
      var ginit := gs[..|gs| - 1];
      assert (fs + gs)[..|fs + gs| - 1] == fs + ginit;
      ApplyFlipsAppend(bs, fs, ginit);
    }
  }

  lemma ApplyFlipsTwice(bs: seq<byte>, f: Flip)
    requires FlipInRange(f, |bs|)
    ensures AllInRange([f, f], |bs|)
    ensures ApplyFlips(bs, [f, f]) == bs
  {
    assert [f, f][..1] == [f];
    assert [f][..0] == [];
    assert ApplyFlips(bs, [f]) == FlipBit(ApplyFlips(bs, []), f) == FlipBit(bs, f);
    assert ApplyFlips(bs, [f, f]) == FlipBit(ApplyFlips(bs, [f]), f);
    FlipBitInvolution(bs, f);
  }

  lemma AllInRangeDropPair(fs: seq<Flip>, f: Flip, gs: seq<Flip>, len: nat)
    requires AllInRange(fs + [f, f] + gs, len)
    ensures AllInRange(fs + [f, f], len) && AllInRange(fs + gs, len) && FlipInRange(f, len)
  {
    var all := fs + [f, f] + gs;
    assert all[|fs|] == f;
    forall i | 0 <= i < |fs + gs| ensures FlipInRange((fs + gs)[i], len) {
      if i < |fs| { assert (fs + gs)[i] == all[i]; }
      else { assert (fs + gs)[i] == all[i + 2]; }
    }
    forall i | 0 <= i < |fs + [f, f]| ensures FlipInRange((fs + [f, f])[i], len) {
      assert (fs + [f, f])[i] == all[i];
    }
  }

  /** Two consecutive flips of the same position cancel wherever they occur. */
  lemma FlipsCancel(bs: seq<byte>, fs: seq<Flip>, f: Flip, gs: seq<Flip>)
    requires AllInRange(fs + [f, f] + gs, |bs|)
    ensures AllInRange(fs + gs, |bs|)
    ensures ApplyFlips(bs, fs + [f, f] + gs) == ApplyFlips(bs, fs + gs)
  {
    AllInRangeDropPair(fs, f, gs, |bs|);
    ApplyFlipsAppend(bs, fs + [f, f], gs);
    ApplyFlipsAppend(bs, fs, [f, f]);
    ApplyFlipsTwice(ApplyFlips(bs, fs), f);
    ApplyFlipsAppend(bs, fs, gs);
  }

  // ---------------------------------------------------------------------
  // Flip count
  // ---------------------------------------------------------------------

  /** A mutation rate `num / den`, standing for the Python float. */
  datatype Rate = Rate(num: int, den: int)

  /** The rate the mutation loop uses: 0.01. */
  const DefaultRate := Rate(1, 100)

  /** Python's `int()` of a quotient: division truncated toward zero. */
  function TruncDiv(x: int, d: int): (q: int)
    requires d > 0
    ensures x >= 0 ==> q * d <= x < (q + 1) * d
    ensures x < 0 ==> (-q) * d <= -x < (-q + 1) * d
  {
    if x >= 0 then x / d else -((-x) / d)
  }

  /** `max(1, int(num_bits * mutation_rate))` with `num_bits = 8 * len`. */
  function FlipCount(len: nat, rate: Rate): (n: nat)
    requires rate.den > 0
    ensures n >= 1
  {
    var t := TruncDiv(8 * len * rate.num, rate.den);
    if t < 1 then 1 else t
  }

  /** The flip count is one while `8 * len * rate` is below two, and otherwise the
      whole part of `8 * len * rate` (truncated, not rounded up). */
  lemma FlipCountFloor(len: nat, rate: Rate)
    requires rate.den > 0
    ensures 8 * len * rate.num < 2 * rate.den ==> FlipCount(len, rate) == 1
    ensures 8 * len * rate.num >= rate.den ==>
      FlipCount(len, rate) * rate.den <= 8 * len * rate.num < (FlipCount(len, rate) + 1) * rate.den
  {
    TruncDivBounds(8 * len * rate.num, rate.den);
  }

  /** The truncated quotient is below two under `2 * d` and at least one from `d` on. */
  lemma TruncDivBounds(x: int, d: int)
    requires d > 0
    ensures x < 2 * d ==> TruncDiv(x, d) < 2
    ensures x >= d ==> TruncDiv(x, d) >= 1
  {
    var t := TruncDiv(x, d);
    if x >= 0 {
      if t >= 2 { MulLe(2, t, d); }
      if t < 1 { MulLe(t + 1, 1, d); }
    } else if t >= 1 {
      MulLe(-t + 1, 0, d);
    }
  }

  lemma MulLe(a: int, b: int, d: int)
    requires d > 0 && a <= b
    ensures a * d <= b * d
  {
    assert b * d - a * d == (b - a) * d;
  }

  /** A 64-byte frame at rate 0.01 gets int(5.12) = 5 flips; a zero rate still gets one. */
  lemma FlipCountExamples(len: nat)
    ensures FlipCount(64, DefaultRate) == 5
    ensures FlipCount(len, Rate(0, 1)) == 1
  {
  }

  // ---------------------------------------------------------------------
  // Byte patch
  // ---------------------------------------------------------------------

  /** Where the write `packet_bytes[j] = b` lands in a buffer of length `len`. */
  datatype Slot = At(index: nat) | Dropped | OutOfRange

  /** The guard `j < len(packet_bytes)` drops writes past the end; Python
      indexing counts a negative `j` from the end and raises IndexError below `-len`. */
  function SlotOf(j: int, len: nat): (s: Slot)
    ensures s.At? ==> s.index < len && (s.index == j || s.index == len + j)
    ensures s.Dropped? <==> j >= len
    ensures s.OutOfRange? <==> j < -(len as int)
  {
    if j >= len then Dropped
    else if j >= 0 then At(j)
    else if j >= -(len as int) then At(len + j)
    else OutOfRange
  }

  /** The buffer after writing `nb` at `offset`, one byte after the other;
      `None` when a write raises IndexError. */
  function Patch(bs: seq<byte>, offset: int, nb: seq<byte>): (r: Option<seq<byte>>)
    ensures r.Some? ==> |r.value| == |bs|
    decreases |nb|
  {
    if nb == [] then Some(bs)
    else
      match Patch(bs, offset, nb[..|nb| - 1])
      case None => None
      case Some(prev) =>
        match SlotOf(offset + |nb| - 1, |bs|)
        case At(k) => Some(prev[k := nb[|nb| - 1]])
        case Dropped => Some(prev)
        case OutOfRange => None
  }

  /** The patch fails exactly when it writes something starting below `-len`. */
  lemma {:induction false} PatchFails(bs: seq<byte>, offset: int, nb: seq<byte>)
    ensures Patch(bs, offset, nb).None? <==> |nb| > 0 && offset < -(|bs| as int)
    decreases |nb|
  {
    if nb != [] {
      PatchFails(bs, offset, nb[..|nb| - 1]);
    }
  }

  /** Byte `k` of the patched buffer: `nb[k - offset]` where the write reached `k`
      directly, else the write that reached it from the end, else unchanged. */
  lemma {:induction false} PatchAt(bs: seq<byte>, offset: int, nb: seq<byte>, k: nat)
    requires Patch(bs, offset, nb).Some? && k < |bs|
    ensures Patch(bs, offset, nb).value[k] ==
      if offset <= k < offset + |nb| then nb[k - offset]
      else if offset <= k - |bs| < offset + |nb| then nb[k - |bs| - offset]
      else bs[k]
    decreases |nb|
  {
    if nb != [] {
      var init := nb[..|nb| - 1];
      PatchAt(bs, offset, init, k);
      var j := offset + |nb| - 1;
      assert forall i :: 0 <= i < |init| ==> init[i] == nb[i];
    }
  }

  /** For a non-negative offset the patch never fails, preserves length, writes
      `nb[k - offset]` for `offset <= k < min(len, offset + |nb|)`, keeps every other
      byte and silently drops the bytes of `nb` past the end. */
  lemma PatchClipped(bs: seq<byte>, offset: nat, nb: seq<byte>)
    ensures Patch(bs, offset, nb).Some?
    ensures |Patch(bs, offset, nb).value| == |bs|
    ensures forall k :: 0 <= k < |bs| ==>
      Patch(bs, offset, nb).value[k] == if offset <= k < offset + |nb| then nb[k - offset] else bs[k]
  {
    PatchFails(bs, offset, nb);
    forall k | 0 <= k < |bs|
      ensures Patch(bs, offset, nb).value[k] == if offset <= k < offset + |nb| then nb[k - offset] else bs[k]
    {
      PatchAt(bs, offset, nb, k);
    }
  }

  // ---------------------------------------------------------------------
  // Hex text
  // ---------------------------------------------------------------------

  const HexDigits: string := "0123456789abcdef"

  /** Two lower-case hex digits, high nibble first. */
  function HexByte(b: byte): string {
    [HexDigits[(b as int) / 16], HexDigits[(b as int) % 16]]
  }

  /** `bytes_hex(...).decode()`: two characters per byte. */
  function Hex(bs: seq<byte>): (h: string)
    ensures |h| == 2 * |bs|
  {
    if bs == [] then [] else HexByte(bs[0]) + Hex(bs[1..])
  }

  /** The hex text uses lower-case hex digits only. */
  lemma {:induction false} HexDigitsOnly(bs: seq<byte>)
    ensures forall i :: 0 <= i < |Hex(bs)| ==> Hex(bs)[i] in HexDigits
  {
    if bs != [] {
      HexDigitsOnly(bs[1..]);
      var h := Hex(bs);
      assert h == HexByte(bs[0]) + Hex(bs[1..]);
      forall i | 0 <= i < |h| ensures h[i] in HexDigits {
        if i >= 2 {
          assert h[i] == Hex(bs[1..])[i - 2];
        }
      }
    }
  }

  function DigitValue(c: char): (v: Option<nat>)
    ensures v.Some? ==> v.value < 16 && HexDigits[v.value] == c
    ensures c in HexDigits ==> v.Some?
  {
    if '0' <= c <= '9' then Some(c as int - '0' as int)
    else if 'a' <= c <= 'f' then Some(c as int - 'a' as int + 10)
    else None
  }

  /** The byte with high nibble `hi` and low nibble `lo`. */
  function ByteOf(hi: nat, lo: nat): byte
    requires hi < 16 && lo < 16
  {
    (hi * 16 + lo) as byte
  }

  /** Inverse of `Hex`: reads two digits per byte. */
  function UnHex(h: string): Option<seq<byte>>
    decreases |h|
  {
    if h == [] then Some([])
    else if |h| < 2 || DigitValue(h[0]).None? || DigitValue(h[1]).None? then None
    else
      var rest := UnHex(h[2..]);
      if rest.None? then None
      else Some([ByteOf(DigitValue(h[0]).value, DigitValue(h[1]).value)] + rest.value)
  }

  lemma DigitOfHexDigit(n: nat)
    requires n < 16
    ensures DigitValue(HexDigits[n]) == Some(n)
  {
  }

  /** A byte is rebuilt from its two nibbles. */
  lemma NibblesRebuild(b: byte)
    ensures ByteOf((b as int) / 16, (b as int) % 16) == b
  {
    var n := b as int;
    assert (n / 16) * 16 + n % 16 == n;
  }

  lemma HexByteRoundTrip(b: byte)
    ensures DigitValue(HexByte(b)[0]) == Some((b as int) / 16)
    ensures DigitValue(HexByte(b)[1]) == Some((b as int) % 16)
    ensures ByteOf((b as int) / 16, (b as int) % 16) == b
  {
    DigitOfHexDigit((b as int) / 16);
    DigitOfHexDigit((b as int) % 16);
    NibblesRebuild(b);
  }

  /** The tracked hex text decodes back to exactly the frame's bytes. */
  lemma {:induction false} HexRoundTrip(bs: seq<byte>)
    ensures UnHex(Hex(bs)) == Some(bs)
  {
    if bs != [] {
      var h := Hex(bs);
      assert h == HexByte(bs[0]) + Hex(bs[1..]);
      assert h[0] == HexByte(bs[0])[0] && h[1] == HexByte(bs[0])[1];
      assert h[2..] == Hex(bs[1..]);
      HexByteRoundTrip(bs[0]);
      HexRoundTrip(bs[1..]);
      var hi, lo := (bs[0] as int) / 16, (bs[0] as int) % 16;
      assert DigitValue(h[0]) == Some(hi) && DigitValue(h[1]) == Some(lo);
      assert UnHex(h) == Some([ByteOf(hi, lo)] + bs[1..]);
      assert [bs[0]] + bs[1..] == bs;
    }
  }

  /** Distinct frames are tracked with distinct hex text. */
  lemma HexInjective(a: seq<byte>, b: seq<byte>)
    requires Hex(a) == Hex(b)
    ensures a == b
  {
    HexRoundTrip(a);
    HexRoundTrip(b);
  }
}
