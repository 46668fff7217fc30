/** Prefix arithmetic of Go's net/netip (CIDR notation, section 3.1 of RFC 4632). */
module Net {
  datatype IP = V4(n: nat) | V6(n: nat, zone: string) {
    function Width(): nat { if V4? then 32 else 128 }

    /** The number fits the family. */
    predicate Fits() { n < Pow2(Width()) }

    predicate HasZone() { V6? && zone != "" }

    /** An IPv4 address in IPv6 clothing, ::ffff:a.b.c.d. */
    predicate Mapped() { V6? && n / 0x1_0000_0000 == 0xFFFF }
  }

  datatype Prefix = Prefix(ip: IP, bits: nat) {
    predicate Valid() {
      bits <= ip.Width() && ip.n < Pow2(ip.Width()) && !ip.HasZone()
    }

    /** The size of the block: how many addresses share the prefix. */
    function Block(): (b: nat)
      requires Valid()
      ensures b > 0
    {
      Pow2(ip.Width() - bits)
    }

    /** The prefix with its host bits cleared. */
    function Masked(): Prefix
      requires Valid()
    {
      ClearLow(ip.n, Block());
      var low := ip.n - ip.n % Block();
      Prefix(if ip.V4? then V4(low) else V6(low, ip.zone), bits)
    }

    /** Same leading bits, whatever the zone, and through the IPv4 mapping. */
    ghost predicate Spans(a: IP)
      requires Valid()
    {
      || (a.Width() == ip.Width() && SameLeadingBits(a.n, ip.n, ip.Width(), bits))
      || (a.Mapped() && ip.V4? && SameLeadingBits(a.n % 0x1_0000_0000, ip.n, ip.Width(), bits))
    }

    /** Same family, no zone, same block. */
    predicate Contains(a: IP)
      requires Valid()
    {
      a.Width() == ip.Width() && !a.HasZone() && a.n / Block() == ip.n / Block()
    }
  }

  function Pow2(k: nat): (p: nat)
    ensures p > 0
  {
    if k == 0 then 1 else 2 * Pow2(k - 1)
  }

  lemma MulAtLeast(a: int, m: nat)
    requires a >= 1
    ensures a * m >= m
  {
    assert a * m == (a - 1) * m + m;
    if a > 1 { MulAtLeast(a - 1, m); }
  }

  lemma DivUnique(x: nat, m: nat, q: nat, r: nat)
    requires m > 0 && x == q * m + r && r < m
    ensures x / m == q && x % m == r
  {
    var d, e := x / m, x % m;
    assert x == d * m + e && e < m;
    assert (q - d) * m == q * m - d * m;
    assert (d - q) * m == d * m - q * m;
    if q > d { MulAtLeast(q - d, m); }
    if d > q { MulAtLeast(d - q, m); }
  }

  /** Clearing the remainder keeps the quotient. */
  lemma ClearLow(n: nat, m: nat)
    requires m > 0
    ensures n - n % m >= 0 && (n - n % m) / m == n / m && (n - n % m) % m == 0
  {
    assert n == n / m * m + n % m;
    DivUnique(n - n % m, m, n / m, 0);
  }

  // ----- the bits of an address, independently of blocks

  /** Bit k of n, the lowest being bit 0. */
  function BitAt(n: nat, k: nat): nat {
    if k == 0 then n % 2 else BitAt(n / 2, k - 1)
  }

  /** The first count bits, of numbers width bits long, agree. */
  ghost predicate SameLeadingBits(a: nat, b: nat, width: nat, count: nat)
    requires count <= width
  {
    forall k | width - count <= k < width :: BitAt(a, k) == BitAt(b, k)
  }

  lemma HalveTwice(n: nat, m: nat)
    requires m > 0
    ensures n / (2 * m) == n / 2 / m
  {
    var q, r := n / 2 / m, n / 2 % m;
    assert n / 2 == q * m + r;
    assert n == 2 * (n / 2) + n % 2;
    assert n == 2 * (q * m + r) + n % 2 == q * (2 * m) + (2 * r + n % 2);
    DivUnique(n, 2 * m, q, 2 * r + n % 2);
  }

  /** Dropping the low bits leaves equal numbers exactly when the bits above them agree. */
  lemma {:induction false} SameBlockIffBits(a: nat, b: nat, width: nat, count: nat)
    requires count <= width && a < Pow2(width) && b < Pow2(width)
    ensures a / Pow2(width - count) == b / Pow2(width - count) <==> SameLeadingBits(a, b, width, count)
    decreases width
  {
    if width > 0 {
      var low := width - count;
      if low > 0 {
        SameBlockIffBits(a / 2, b / 2, width - 1, count);
        HalveTwice(a, Pow2(low - 1));
        HalveTwice(b, Pow2(low - 1));
        HigherBits(a, b, width, count);
      } else {
        SameBlockIffBits(a / 2, b / 2, width - 1, count - 1);
        HigherBits(a, b, width, count - 1);
        LastBit(a, b, width);
        assert a == 2 * (a / 2) + a % 2 && b == 2 * (b / 2) + b % 2;
      }
    }
  }

  lemma HigherBits(a: nat, b: nat, width: nat, count: nat)
    requires count < width
    ensures SameLeadingBits(a / 2, b / 2, width - 1, count) <==> SameLeadingBits(a, b, width, count)
  {
    forall k | width - count <= k < width
      ensures BitAt(a, k) == BitAt(a / 2, k - 1) && BitAt(b, k) == BitAt(b / 2, k - 1)
    {}
    if SameLeadingBits(a, b, width, count) {
      forall k | width - 1 - count <= k < width - 1 ensures BitAt(a / 2, k) == BitAt(b / 2, k) {
        assert BitAt(a, k + 1) == BitAt(b, k + 1);
      }
    }
  }

  lemma LastBit(a: nat, b: nat, width: nat)
    requires width > 0
    ensures SameLeadingBits(a, b, width, width) <==> SameLeadingBits(a, b, width, width - 1) && a % 2 == b % 2
  {
    assert BitAt(a, 0) == a % 2 && BitAt(b, 0) == b % 2;
  }

  /** A prefix contains exactly the addresses of its family, without a zone, that share its leading bits. */
  lemma ContainsIffLeadingBits(p: Prefix, a: IP)
    requires p.Valid() && a.Fits()
    ensures p.Contains(a) <==>
              a.Width() == p.ip.Width() && !a.HasZone() && SameLeadingBits(a.n, p.ip.n, p.ip.Width(), p.bits)
  {
    if a.Width() == p.ip.Width() { SameBlockIffBits(a.n, p.ip.n, p.ip.Width(), p.bits); }
  }

  /** A masked prefix keeps its leading bits, and every bit after them is zero. */
  lemma MaskedBits(p: Prefix)
    requires p.Valid()
    ensures p.Masked().bits == p.bits && p.Masked().ip.Width() == p.ip.Width()
    ensures SameLeadingBits(p.Masked().ip.n, p.ip.n, p.ip.Width(), p.bits)
    ensures forall k | 0 <= k < p.ip.Width() - p.bits :: BitAt(p.Masked().ip.n, k) == 0
  {
    ClearLow(p.ip.n, p.Block());
    SameBlockIffBits(p.Masked().ip.n, p.ip.n, p.ip.Width(), p.bits);
    LowBitsClear(p.Masked().ip.n, p.ip.Width() - p.bits);
  }

  lemma {:induction false} LowBitsClear(n: nat, low: nat)
    requires n % Pow2(low) == 0
    ensures forall k | 0 <= k < low :: BitAt(n, k) == 0
  {
    if low > 0 {
      var q, m := n / Pow2(low), Pow2(low - 1);
      assert n == q * (2 * m) == 2 * (q * m);
      DivUnique(n, 2, q * m, 0);
      DivUnique(n / 2, m, q, 0);
      LowBitsClear(n / 2, low - 1);
    }
  }

  /** Masking does not change what a prefix contains. */
  lemma MaskedContains(p: Prefix, a: IP)
    requires p.Valid()
    ensures p.Masked().Valid() && (p.Masked().Contains(a) <==> p.Contains(a))
  {
    ClearLow(p.ip.n, p.Block());
  }

  /** An address of a prefix's length inside it masks to the same network; and an address that masks to
      the same network is inside it. */
  lemma SameNetworkIff(cidr: Prefix, addr: Prefix)
    requires cidr.Valid() && addr.Valid() && addr.bits == cidr.bits
    ensures cidr.Contains(addr.ip) <==> addr.Masked() == cidr.Masked()
  {
    hide Pow2;
    ClearLow(cidr.ip.n, cidr.Block());
    if addr.ip.Width() == cidr.ip.Width() {
      assert addr.Block() == cidr.Block();
      ClearLow(addr.ip.n, cidr.Block());
    }
  }

  /** The library's containment is the network's own exactly on addresses without a zone and, for an IPv4 block,
      without the mapping. */
  lemma ContainsIffSpans(p: Prefix, a: IP)
    requires p.Valid() && a.Fits()
    ensures p.Contains(a) ==> p.Spans(a)
    ensures p.Spans(a) && !p.Contains(a) ==> a.HasZone() || (a.Mapped() && p.ip.V4?)
    ensures a.HasZone() || (a.Mapped() && p.ip.V4?) ==> !p.Contains(a)
  {
    hide SameLeadingBits;
    ContainsIffLeadingBits(p, a);
  }
}
