/**
 * IP addresses and CIDR ranges as the `ipaddr.js` library represents them
 * once parsed: an IPv4 address is four octets, an IPv6 address eight 16-bit
 * groups. The text parsers (`ipaddr.parse`, `ipaddr.parseCIDR`) are not part
 * of this module; what is here is what happens after parsing: `match`, the
 * prefix comparison behind `isIPInRange`.
 */
module IpAddr {

  datatype Option<+T> = None | Some(value: T)

  datatype Family = IPv4 | IPv6

  /** Bits per part: octets for IPv4, 16-bit groups for IPv6. */
  function PartSize(f: Family): nat {
    if f == IPv4 then 8 else 16
  }

  function PartCount(f: Family): nat {
    if f == IPv4 then 4 else 8
  }

  /** Exclusive upper bound of one part, 2^PartSize. */
  function PartLimit(f: Family): nat {
    if f == IPv4 then 0x100 else 0x1_0000
  }

  /** Width of an address of the family in bits: 32 or 128. */
  function Width(f: Family): (w: nat)
    ensures w == PartSize(f) * PartCount(f)
    ensures w == if f == IPv4 then 32 else 128
  {
    if f == IPv4 then 32 else 128
  }

  datatype RawAddress = RawAddress(family: Family, parts: seq<nat>)

  predicate WellFormed(a: RawAddress) {
    && |a.parts| == PartCount(a.family)
    && forall i :: 0 <= i < |a.parts| ==> a.parts[i] < PartLimit(a.family)
  }

  /** A parsed address: the right number of parts, each in range. */
  type Address = a: RawAddress | WellFormed(a) witness RawAddress(IPv4, [0, 0, 0, 0])

  datatype RawCidr = RawCidr(network: Address, prefixLen: nat)

  /** A parsed CIDR block: `parseCIDR` refuses a prefix longer than the address. */
  type Cidr = c: RawCidr | c.prefixLen <= Width(c.network.family)
    witness RawCidr(RawAddress(IPv4, [0, 0, 0, 0]), 0)

  function Pow2(n: nat): (r: nat)
    ensures r >= 1
  {
    if n == 0 then 1 else 2 * Pow2(n - 1)
  }

  /** JavaScript's `x >> k` on a non-negative part. */
  function Shr(x: nat, k: nat): nat {
    if k == 0 then x else Shr(x / 2, k - 1)
  }

  /** Bit `k` of `v`, counting from the least significant. */
  predicate BitAt(v: nat, k: nat) {
    Shr(v, k) % 2 == 1
  }

  /** The low `n` bits of `v`, most significant first. */
  function Bits(v: nat, n: nat): (r: seq<bool>)
    ensures |r| == n
  {
    seq(n, i requires 0 <= i < n => BitAt(v, n - 1 - i))
  }

  /** The bit string of a sequence of `k`-bit parts, first part first. */
  function PartsBits(parts: seq<nat>, k: nat): (r: seq<bool>)
    ensures |r| == k * |parts|
  {
    if parts == [] then [] else Bits(parts[0], k) + PartsBits(parts[1..], k)
  }

  /** The address as a string of Width(family) bits, most significant first. */
  function AddressBits(a: Address): (r: seq<bool>)
    ensures |r| == Width(a.family)
  {
    PartsBits(a.parts, PartSize(a.family))
  }

  /** The specification of CIDR membership: the first prefixLen bits agree. */
  predicate FirstBitsEqual(a: Address, c: Cidr)
    requires a.family == c.network.family
  {
    AddressBits(a)[..c.prefixLen] == AddressBits(c.network)[..c.prefixLen]
  }

  /**
   * The part-by-part comparison of `ipaddr.js`'s `matchCIDR`: while bits of
   * the prefix remain, compare the current parts shifted right so that only
   * the prefix bits inside the part are left, then move on to the next part.
   */
  function MatchParts(first: seq<nat>, second: seq<nat>, partSize: nat, cidrBits: int): (r: bool)
    requires |first| == |second|
    requires cidrBits <= partSize * |first|
    decreases |first|
  {
    if cidrBits <= 0 then true
    else
      var shift := if partSize - cidrBits < 0 then 0 else partSize - cidrBits;
      if Shr(first[0], shift) != Shr(second[0], shift) then false
      else MatchParts(first[1..], second[1..], partSize, cidrBits - partSize)
  }

  /**
   * `addr.match(range)`: None stands for the exception `ipaddr.js` throws
   * when the address and the range are of different families (an IPv4-mapped
   * IPv6 address is an IPv6 address here and never matches an IPv4 range);
   * otherwise whether the address lies in the range.
   */
  function Match(a: Address, c: Cidr): (r: Option<bool>)
    ensures r.None? <==> a.family != c.network.family
    ensures r.Some? ==> (r.value <==> FirstBitsEqual(a, c))
  {
    if a.family != c.network.family then None
    else
      var k := PartSize(a.family);
      PartLimitIsPow2(a.family);
      MatchPartsIsPrefix(a.parts, c.network.parts, k, c.prefixLen);
      Some(MatchParts(a.parts, c.network.parts, k, c.prefixLen))
  }

  // ---------------------------------------------------------------------
  // Bit-level lemmas behind Match's contract

  lemma {:induction false} ShrShr(x: nat, i: nat, j: nat)
    ensures Shr(Shr(x, i), j) == Shr(x, i + j)
    decreases i
  {
    if i > 0 {
      ShrShr(x / 2, i - 1, j);
    }
  }

  lemma {:induction false} ShrSmall(x: nat, k: nat)
    requires x < Pow2(k)
    ensures Shr(x, k) == 0
  {
    if k > 0 {
      ShrSmall(x / 2, k - 1);
    }
  }

  lemma PartLimitIsPow2(f: Family)
    ensures PartLimit(f) == Pow2(PartSize(f))
  {
    assert Pow2(1) == 2 && Pow2(2) == 4 && Pow2(3) == 8 && Pow2(4) == 16;
    assert Pow2(5) == 32 && Pow2(6) == 64 && Pow2(7) == 128 && Pow2(8) == 0x100;
    assert Pow2(9) == 0x200 && Pow2(10) == 0x400 && Pow2(11) == 0x800 && Pow2(12) == 0x1000;
    assert Pow2(13) == 0x2000 && Pow2(14) == 0x4000 && Pow2(15) == 0x8000 && Pow2(16) == 0x1_0000;
  }

  /** The first p of the n low bits of v are the p low bits of v >> (n - p). */
  lemma BitsPrefix(v: nat, n: nat, p: nat)
    requires p <= n
    ensures Bits(v, n)[..p] == Bits(Shr(v, n - p), p)
  {
    forall i | 0 <= i < p
      ensures Bits(v, n)[i] == Bits(Shr(v, n - p), p)[i]
    {
      ShrShr(v, n - p, p - 1 - i);
      assert Bits(v, n)[i] == BitAt(v, n - 1 - i);
      assert Bits(Shr(v, n - p), p)[i] == BitAt(Shr(v, n - p), p - 1 - i);
    }
  }

  /** Below 2^n, the n-bit string of a number determines it. */
  lemma {:induction false} BitsInjective(x: nat, y: nat, n: nat)
    requires Shr(x, n) == 0 && Shr(y, n) == 0
    requires Bits(x, n) == Bits(y, n)
    ensures x == y
  {
    if n > 0 {
      assert Bits(x, n)[n - 1] == BitAt(x, 0) && Bits(y, n)[n - 1] == BitAt(y, 0);
      BitsPrefix(x, n, n - 1);
      BitsPrefix(y, n, n - 1);
      assert Bits(Shr(x, 1), n - 1) == Bits(Shr(y, 1), n - 1);
      ShrShr(x, 1, n - 1);
      ShrShr(y, 1, n - 1);
      BitsInjective(x / 2, y / 2, n - 1);
    }
  }

  lemma ConcatPrefix(a: seq<bool>, b: seq<bool>, c: seq<bool>, d: seq<bool>, p: nat)
    requires |a| == |c| <= p <= |a| + |b| && |b| == |d|
    ensures (a + b)[..p] == (c + d)[..p] <==> a == c && b[..p - |a|] == d[..p - |a|]
  {
    if (a + b)[..p] == (c + d)[..p] {
      assert a == (a + b)[..p][..|a|] && c == (c + d)[..p][..|a|];
      assert b[..p - |a|] == (a + b)[..p][|a|..] && d[..p - |a|] == (c + d)[..p][|a|..];
    }
    if a == c && b[..p - |a|] == d[..p - |a|] {
      assert (a + b)[..p] == a + b[..p - |a|];
      assert (c + d)[..p] == c + d[..p - |a|];
    }
  }

  /** matchCIDR on parts agrees with comparing the first cidrBits bits. */
  lemma {:induction false} MatchPartsIsPrefix(first: seq<nat>, second: seq<nat>, k: nat, cidrBits: nat)
    requires |first| == |second| && cidrBits <= k * |first|
    requires forall i :: 0 <= i < |first| ==> first[i] < Pow2(k)
    requires forall i :: 0 <= i < |second| ==> second[i] < Pow2(k)
    ensures MatchParts(first, second, k, cidrBits)
        <==> PartsBits(first, k)[..cidrBits] == PartsBits(second, k)[..cidrBits]
    decreases |first|
  {
    if cidrBits > 0 {
      var x, y := first[0], second[0];
      var restA, restB := PartsBits(first[1..], k), PartsBits(second[1..], k);
      assert PartsBits(first, k) == Bits(x, k) + restA;
      assert PartsBits(second, k) == Bits(y, k) + restB;
      ShrSmall(x, k);
      ShrSmall(y, k);
      if cidrBits >= k {
        ConcatPrefix(Bits(x, k), restA, Bits(y, k), restB, cidrBits);
        if Bits(x, k) == Bits(y, k) {
          BitsInjective(x, y, k);
        }
        MatchPartsIsPrefix(first[1..], second[1..], k, cidrBits - k);
      } else {
        var shift := k - cidrBits;
        assert PartsBits(first, k)[..cidrBits] == Bits(x, k)[..cidrBits];
        assert PartsBits(second, k)[..cidrBits] == Bits(y, k)[..cidrBits];
        BitsPrefix(x, k, cidrBits);
        BitsPrefix(y, k, cidrBits);
        ShrShr(x, shift, cidrBits);
        ShrShr(y, shift, cidrBits);
        if Bits(Shr(x, shift), cidrBits) == Bits(Shr(y, shift), cidrBits) {
          BitsInjective(Shr(x, shift), Shr(y, shift), cidrBits);
        }
      }
    }
  }

  // ---------------------------------------------------------------------
  // Properties of ranges

  /** The network address of a block lies in the block. */
  lemma NetworkInOwnRange(c: Cidr)
    ensures Match(c.network, c) == Some(true)
  {
  }

  /** A /0 block holds every address of its family. */
  lemma ZeroPrefixHoldsFamily(a: Address, c: Cidr)
    requires c.prefixLen == 0 && a.family == c.network.family
    ensures Match(a, c) == Some(true)
  {
  }

  /** A full-length block (a /32 or a /128) holds exactly its network address. */
  lemma {:induction false} FullPrefixIsEquality(a: Address, c: Cidr)
    requires a.family == c.network.family && c.prefixLen == Width(a.family)
    ensures Match(a, c) == Some(true) <==> a == c.network
  {
    if Match(a, c) == Some(true) {
      PartLimitIsPow2(a.family);
      PartsBitsInjective(a.parts, c.network.parts, PartSize(a.family));
    }
  }

  lemma {:induction false} PartsBitsInjective(s: seq<nat>, t: seq<nat>, k: nat)
    requires |s| == |t|
    requires forall i :: 0 <= i < |s| ==> s[i] < Pow2(k)
    requires forall i :: 0 <= i < |t| ==> t[i] < Pow2(k)
    requires PartsBits(s, k) == PartsBits(t, k)
    ensures s == t
    decreases |s|
  {
    if s != [] {
      ConcatPrefix(Bits(s[0], k), PartsBits(s[1..], k), Bits(t[0], k), PartsBits(t[1..], k), k * |s|);
      ShrSmall(s[0], k);
      ShrSmall(t[0], k);
      BitsInjective(s[0], t[0], k);
      PartsBitsInjective(s[1..], t[1..], k);
      assert s == [s[0]] + s[1..] && t == [t[0]] + t[1..];
    }
  }

  /** Widening a block (shortening its prefix) keeps every address it held. */
  lemma ShorterPrefixStillHolds(a: Address, c: Cidr, p: nat)
    requires p <= c.prefixLen
    requires Match(a, c) == Some(true)
    ensures Match(a, RawCidr(c.network, p)) == Some(true)
  {
    var bitsA, bitsN := AddressBits(a), AddressBits(c.network);
    assert bitsA[..p] == bitsA[..c.prefixLen][..p];
    assert bitsN[..p] == bitsN[..c.prefixLen][..p];
  }
}
