/** The Internet checksum of libfree/in_cksum.c (RFC 1071) and its use in udp_write (RFC 768). */
module Checksum {
  import opened Basics

  const M16 := 0x1_0000
  const U32 := 0x1_0000_0000

  /** Byte order of the host that runs the code. */
  datatype Order = Little | Big

  type Word = w: int | 0 <= w < 0x1_0000

  /** *w++ on such a host. */
  function Load(o: Order, b0: Byte, b1: Byte): (w: Word) {
    if o.Big? then 256 * (b0 as int) + b1 else b0 + 256 * (b1 as int)
  }

  /** The two bytes a stored uint16_t leaves in memory. */
  function Store(o: Order, w: Word): (b: seq<Byte>)
    ensures |b| == 2 && Load(o, b[0], b[1]) == w
  {
    if o.Big? then [w / 256, w % 256] else [w % 256, w / 256]
  }

  /** The exact sum of the 16-bit words; a last odd byte is the first byte of a word with a zero. */
  function WordSum(o: Order, buf: seq<Byte>): nat {
    if |buf| == 0 then 0
    else if |buf| == 1 then Load(o, buf[0], 0)
    else Load(o, buf[0], buf[1]) as int + WordSum(o, buf[2..])
  }

  /** One's complement addition: the carry comes back in. */
  function OcAdd(a: Word, b: Word): Word {
    var s := a as int + b as int;
    if s > 0xffff then s - 0xffff else s
  }

  /** Section 1 of RFC 1071: the one's complement sum of the words. */
  function OcSum(o: Order, buf: seq<Byte>): Word {
    if |buf| == 0 then 0
    else if |buf| == 1 then Load(o, buf[0], 0)
    else OcAdd(Load(o, buf[0], buf[1]), OcSum(o, buf[2..]))
  }

  function Complement(w: Word): Word {
    0xffff - w
  }

  /** The checksum: the complement of that sum. */
  function Cksum(o: Order, buf: seq<Byte>): Word {
    Complement(OcSum(o, buf))
  }

  // ----- the 32-bit accumulator and its two folds -----

  /** The representative of s modulo 0xffff in 1 .. 0xffff, and 0 only for 0. */
  function Norm(s: nat): (w: Word)
    ensures w == 0 <==> s == 0
  {
    if s == 0 then 0 else (s - 1) % 0xffff + 1
  }

  function Fold(s: nat): nat {
    var hi := s / M16 + s % M16;
    (hi + hi / M16) % M16
  }

  lemma FoldIsNorm(s: nat)
    requires s < U32
    ensures Fold(s) == Norm(s)
  {
    var q, r := s / M16, s % M16;
    assert s == 0xffff * q + (q + r);
    if s > 0 {
      NormShift(q + r, q);
    }
    if q + r >= M16 {
      assert (q + r) / M16 == 1;
      NormShift(q + r - 0xffff, 1);
    }
  }

  /** Multiples of 0xffff do not matter, except to zero. */
  lemma NormShift(s: nat, k: nat)
    requires s > 0
    ensures Norm(s + 0xffff * k) == Norm(s)
  {
  }

  lemma NormAdd(a: nat, b: nat)
    ensures OcAdd(Norm(a), Norm(b)) == Norm(a + b)
  {
    if a > 0 && b > 0 {
      var p, q := (a - 1) / 0xffff, (b - 1) / 0xffff;
      assert a == 0xffff * p + Norm(a) && b == 0xffff * q + Norm(b);
      NormShift(Norm(a) as int + Norm(b), p + q);
      assert a + b == (Norm(a) as int + Norm(b)) + 0xffff * (p + q);
      SmallNorm(Norm(a), Norm(b));
    }
  }

  lemma SmallNorm(a: Word, b: Word)
    requires a > 0 && b > 0
    ensures OcAdd(a, b) == Norm(a as int + b as int)
  {
  }

  lemma WordIsNorm(w: Word)
    ensures Norm(w) == w
  {
  }

  lemma {:induction false} OcSumIsNorm(o: Order, buf: seq<Byte>)
    ensures OcSum(o, buf) == Norm(WordSum(o, buf))
  {
    if |buf| > 1 {
      var w := Load(o, buf[0], buf[1]);
      OcSumIsNorm(o, buf[2..]);
      WordIsNorm(w);
      NormAdd(w, WordSum(o, buf[2..]));
    } else if |buf| == 1 {
      WordIsNorm(Load(o, buf[0], 0));
    }
  }

  lemma {:induction false} WordSumBound(o: Order, buf: seq<Byte>)
    ensures WordSum(o, buf) <= 0xffff * ((|buf| + 1) / 2)
  {
    if |buf| > 1 {
      WordSumBound(o, buf[2..]);
    }
  }

  /** All bytes 255: k words and perhaps an odd byte. */
  lemma {:induction false} AllOnesSum(o: Order, k: nat, odd: nat)
    requires odd <= 1
    ensures WordSum(o, seq(2 * k + odd, _ => 255)) >= 0xffff * k + 255 * odd
  {
    if k > 0 {
      var s: seq<Byte>, t: seq<Byte> := seq(2 * k + odd, _ => 255), seq(2 * (k - 1) + odd, _ => 255);
      AllOnesSum(o, k - 1, odd);
      assert s[2..] == t;
      assert WordSum(o, s) == 0xffff + WordSum(o, t);
    }
  }

  /** Buffers of n bytes on which the accumulator overflows exist exactly from 131075 bytes on. */
  lemma NoOverflowExactly(o: Order, n: nat)
    ensures n <= 131074 ==> forall buf: seq<Byte> :: |buf| == n ==> WordSum(o, buf) < U32
    ensures n >= 131075 ==> exists buf: seq<Byte> :: |buf| == n && WordSum(o, buf) >= U32
  {
    forall buf: seq<Byte> | |buf| == n ensures WordSum(o, buf) <= 0xffff * ((n + 1) / 2) { WordSumBound(o, buf); }
    var k, odd := n / 2, n % 2;
    assert n == 2 * k + odd;
    AllOnesSum(o, k, odd);
    var s: seq<Byte> := seq(2 * k + odd, _ => 255);
    assert |s| == n;
  }

  lemma ModAdd(a: nat, w: nat)
    ensures (a % U32 + w) % U32 == (a + w) % U32
  {
    assert a + w == U32 * (a / U32) + (a % U32 + w);
  }

  lemma FoldedIsCksum(o: Order, addr: seq<Byte>)
    requires |addr| <= 131074
    ensures Complement(Fold(WordSum(o, addr) % U32)) == Cksum(o, addr)
  {
    SmallSum(o, addr);
    FoldOfSmall(WordSum(o, addr));
    OcSumIsNorm(o, addr);
  }

  lemma SmallSum(o: Order, addr: seq<Byte>)
    requires |addr| <= 131074
    ensures WordSum(o, addr) < U32
  {
    WordSumBound(o, addr);
  }

  lemma FoldOfSmall(s: nat)
    requires s < U32
    ensures Fold(s % U32) == Norm(s)
  {
    SmallMod(s);
    FoldIsNorm(s);
  }

  lemma SmallMod(s: nat)
    requires s < U32
    ensures s % U32 == s
  {
  }

  /** Taking one word from the rest to the accumulator. */
  lemma SumStep(o: Order, addr: seq<Byte>, w: nat)
    requires w < |addr| && WordSum(o, addr[w..]) <= WordSum(o, addr)
    ensures var x := Load(o, addr[w], if w + 1 < |addr| then addr[w + 1] else 0);
            var rest := if w + 1 < |addr| then WordSum(o, addr[w + 2..]) else 0;
            && WordSum(o, addr[w..]) == x + rest
            && ((WordSum(o, addr) - WordSum(o, addr[w..])) % U32 + x) % U32 == (WordSum(o, addr) - rest) % U32
  {
    var x := Load(o, addr[w], if w + 1 < |addr| then addr[w + 1] else 0);
    if w + 1 < |addr| {
      assert addr[w..][2..] == addr[w + 2..];
    }
    ModAdd(WordSum(o, addr) - WordSum(o, addr[w..]), x);
  }

  /** in_cksum: exact for every buffer of at most 131074 bytes, odd lengths included. */
  method InCksum(o: Order, addr: seq<Byte>) returns (answer: Word)
    ensures answer == Complement(Fold(WordSum(o, addr) % U32))
    ensures |addr| <= 131074 ==> answer == Cksum(o, addr)
  {
    var sum, w := 0, 0;
    var nleft := |addr|;
    assert addr[0..] == addr;
    while nleft > 1
      invariant 0 <= nleft && w + nleft == |addr|
      invariant WordSum(o, addr[w..]) <= WordSum(o, addr) && sum == (WordSum(o, addr) - WordSum(o, addr[w..])) % U32
    {
      SumStep(o, addr, w);
      sum := (sum + Load(o, addr[w], addr[w + 1])) % U32;
      w, nleft := w + 2, nleft - 2;
    }
    if nleft == 1 {
      SumStep(o, addr, w);
      sum := (sum + Load(o, addr[w], 0)) % U32;
    }
    ghost var total := WordSum(o, addr) % U32;
    assert sum == total;
    if |addr| <= 131074 { FoldedIsCksum(o, addr); }
    answer := FoldAndInvert(sum);
  }

  /** The two folds and the complement at the end. */
  method FoldAndInvert(sum0: nat) returns (answer: Word)
    requires sum0 < U32
    ensures answer == Complement(Fold(sum0))
  {
    var sum := sum0 / M16 + sum0 % M16;
    sum := sum + sum / M16;
    answer := 0xffff - sum % M16;
  }

  // ----- byte order -----

  function Swap(w: Word): Word {
    w % 256 * 256 + w / 256
  }

  /** Swapping both operands swaps the sum: section 2(B) of RFC 1071. */
  lemma SwapAdd(a: Word, b: Word)
    ensures OcAdd(Swap(a), Swap(b)) == Swap(OcAdd(a, b))
  {
    var a1, a0, b1, b0 := a / 256, a % 256, b / 256, b % 256;
    var c0 := (a0 + b0) / 256;
    var c1 := (a1 + b1 + c0) / 256;
    assert a as int + b == 256 * (a1 + b1) + (a0 + b0);
    var s := OcAdd(a, b);
    assert s == 256 * (a1 + b1) + (a0 + b0) || s == 256 * (a1 + b1) + (a0 + b0) - 0xffff;
    var t := OcAdd(Swap(a), Swap(b));
    assert t == 256 * (a0 + b0) + (a1 + b1) || t == 256 * (a0 + b0) + (a1 + b1) - 0xffff;
    SwapUnique(a1 + b1, a0 + b0, s, t);
  }

  /** Both are the rotation by eight bits modulo 0xffff. */
  lemma SwapUnique(hi: nat, lo: nat, s: Word, t: Word)
    requires s == 256 * hi + lo || s == 256 * hi + lo - 0xffff
    requires t == 256 * lo + hi || t == 256 * lo + hi - 0xffff
    requires s == 0 <==> hi == 0 && lo == 0
    requires t == 0 <==> hi == 0 && lo == 0
    ensures t == Swap(s)
  {
    var s1, s0 := s / 256, s % 256;
    assert 256 * s == 0xffff * s1 + Swap(s);
    var e, f := if s == 256 * hi + lo then 0 else 1, if t == 256 * lo + hi then 0 else 1;
    MultipleOf0xffff(Swap(s), t, hi - 256 * e + f - s1);
  }

  lemma MultipleOf0xffff(a: Word, b: Word, k: int)
    requires a as int - b as int == 0xffff * k && (a == 0 <==> b == 0)
    ensures a == b
  {
  }

  lemma LoadSwap(o: Order, b0: Byte, b1: Byte)
    ensures Load(Little, b0, b1) == Swap(Load(Big, b0, b1)) && Load(o, b1, b0) == Swap(Load(o, b0, b1))
  {
    SwapDigits(b0, b1);
    SwapDigits(b1, b0);
  }

  lemma SwapDigits(hi: Byte, lo: Byte)
    ensures Swap(256 * (hi as int) + lo) == 256 * (lo as int) + hi
  {
    var w := 256 * (hi as int) + lo;
    assert w / 256 == hi && w % 256 == lo;
  }

  lemma SwapComplement(w: Word)
    ensures Swap(Complement(w)) == Complement(Swap(w))
  {
    assert 0xffff - w == 256 * (255 - w / 256) + (255 - w % 256);
  }

  lemma StoreSwap(w: Word)
    ensures Store(Little, Swap(w)) == Store(Big, w)
  {
  }

  lemma {:induction false} OcSumSwap(buf: seq<Byte>)
    ensures OcSum(Little, buf) == Swap(OcSum(Big, buf))
  {
    if |buf| == 1 {
      LoadSwap(Big, buf[0], 0);
    } else if |buf| > 1 {
      OcSumSwap(buf[2..]);
      LoadSwap(Big, buf[0], buf[1]);
      SwapAdd(Load(Big, buf[0], buf[1]), OcSum(Big, buf[2..]));
    }
  }

  /** Both kinds of host leave the same two bytes in memory, whatever the length of the buffer. */
  lemma OrderIndependent(buf: seq<Byte>)
    ensures Store(Little, Cksum(Little, buf)) == Store(Big, Cksum(Big, buf))
    ensures Cksum(Little, buf) == Swap(Cksum(Big, buf))
  {
    OcSumSwap(buf);
    SwapComplement(OcSum(Big, buf));
    StoreSwap(Cksum(Big, buf));
  }

  /** Every byte pair swapped; a last odd byte becomes the second byte of a word. */
  function SwapPairs(buf: seq<Byte>): seq<Byte> {
    if |buf| == 0 then []
    else if |buf| == 1 then [0, buf[0]]
    else [buf[1], buf[0]] + SwapPairs(buf[2..])
  }

  /** Swapping every byte pair of the buffer swaps the bytes of the checksum. */
  lemma {:induction false} SwapPairsSum(o: Order, buf: seq<Byte>)
    ensures OcSum(o, SwapPairs(buf)) == Swap(OcSum(o, buf))
  {
    var t := SwapPairs(buf);
    if |buf| == 1 {
      assert t[2..] == [];
      LoadSwap(o, buf[0], 0);
      assert OcAdd(Load(o, t[0], t[1]), 0) == Load(o, t[0], t[1]);
    } else if |buf| > 1 {
      SwapPairsSum(o, buf[2..]);
      assert t[2..] == SwapPairs(buf[2..]);
      LoadSwap(o, buf[0], buf[1]);
      SwapAdd(Load(o, buf[0], buf[1]), OcSum(o, buf[2..]));
    }
  }

  lemma SwapPairsCksum(o: Order, buf: seq<Byte>)
    ensures Cksum(o, SwapPairs(buf)) == Swap(Cksum(o, buf))
  {
    SwapPairsSum(o, buf);
    SwapComplement(OcSum(o, buf));
  }

  /** The numerical example of section 3 of RFC 1071, in both byte orders. */
  lemma RfcExample()
    ensures OcSum(Big, [0x00, 0x01, 0xf2, 0x03, 0xf4, 0xf5, 0xf6, 0xf7]) == 0xddf2
    ensures OcSum(Little, [0x00, 0x01, 0xf2, 0x03, 0xf4, 0xf5, 0xf6, 0xf7]) == 0xf2dd
  {
    var b: seq<Byte> := [0x00, 0x01, 0xf2, 0x03, 0xf4, 0xf5, 0xf6, 0xf7];
    assert b[2..][2..][2..][2..] == [];
    assert OcSum(Big, b[2..][2..][2..]) == 0xf6f7;
    assert OcSum(Big, b[2..][2..]) == OcAdd(0xf4f5, 0xf6f7);
    assert OcSum(Big, b[2..]) == OcAdd(0xf203, OcAdd(0xf4f5, 0xf6f7));
    OcSumSwap(b);
  }

  // ----- storing and verifying -----

  lemma {:induction false} SumConcat(o: Order, a: seq<Byte>, b: seq<Byte>)
    requires |a| % 2 == 0
    ensures WordSum(o, a + b) == WordSum(o, a) + WordSum(o, b)
  {
    if a == [] {
      assert a + b == b;
    } else {
      assert |a| > 1;
      SumConcat(o, a[2..], b);
      assert (a + b)[2..] == a[2..] + b;
    }
  }

  /** buf with the aligned 16-bit field at k set to the stored form of c. */
  function SetField(o: Order, buf: seq<Byte>, k: nat, c: Word): seq<Byte>
    requires k + 2 <= |buf|
  {
    buf[..k] + Store(o, c) + buf[k + 2..]
  }

  lemma FieldSum(o: Order, buf: seq<Byte>, k: nat, c: Word)
    requires k % 2 == 0 && k + 2 <= |buf| && buf[k] == 0 && buf[k + 1] == 0
    ensures WordSum(o, SetField(o, buf, k, c)) == WordSum(o, buf) + c
  {
    var z := buf[k..k + 2];
    assert buf == buf[..k] + (z + buf[k + 2..]);
    SumConcat(o, buf[..k], z + buf[k + 2..]);
    SumConcat(o, z, buf[k + 2..]);
    assert z[2..] == [];
    var f := Store(o, c);
    assert SetField(o, buf, k, c) == buf[..k] + (f + buf[k + 2..]);
    SumConcat(o, buf[..k], f + buf[k + 2..]);
    SumConcat(o, f, buf[k + 2..]);
    assert f[2..] == [];
  }

  /** A sum completed by its complement, or by 0xffff in place of a zero complement, is all ones. */
  lemma Completed(s: nat, c: Word)
    requires c == Complement(Norm(s)) || (Complement(Norm(s)) == 0 && c == 0xffff)
    ensures Norm(s + c) == 0xffff
  {
    if s > 0 {
      var p := (s - 1) / 0xffff;
      assert s == 0xffff * p + Norm(s);
      if c == Complement(Norm(s)) {
        assert s + c == 0xffff + 0xffff * p;
        NormShift(0xffff, p);
      } else {
        assert s + c == 0xffff + 0xffff * (p + 1);
        NormShift(0xffff, p + 1);
      }
    }
  }

  /** Storing the checksum in its zeroed, aligned field makes the checksum of the result zero. */
  lemma StoredVerifies(o: Order, buf: seq<Byte>, k: nat, c: Word)
    requires k % 2 == 0 && k + 2 <= |buf| && buf[k] == 0 && buf[k + 1] == 0
    requires c == Cksum(o, buf) || (Cksum(o, buf) == 0 && c == 0xffff)
    ensures Cksum(o, SetField(o, buf, k, c)) == 0
  {
    OcSumIsNorm(o, buf);
    FieldSum(o, buf, k, c);
    Completed(WordSum(o, buf), c);
    OcSumIsNorm(o, SetField(o, buf, k, c));
  }
}
