/** IP addresses and networks as blocks of integers (RFC 4632, section 3.1). */
module Net {

  datatype Family = V4 | V6

  function Width(family: Family): nat {
    if family == V4 then 32 else 128
  }

  function Pow2(n: nat): (p: nat)
    ensures 0 < p
  {
    if n == 0 then 1 else 2 * Pow2(n - 1)
  }

  datatype RawAddr = Addr(family: Family, bits: nat)

  type IpAddr = a: RawAddr | a.bits < Pow2(Width(a.family)) witness Addr(V4, 0)

  datatype RawNet = Network(family: Family, bits: nat, prefix: nat)

  /** A network as the configuration holds it: the host bits need not be zero. */
  type IpNetwork = n: RawNet | n.prefix <= Width(n.family) && n.bits < Pow2(Width(n.family))
    witness Network(V4, 0, 0)

  /** How many addresses the network spans. */
  function Block(n: IpNetwork): (b: nat)
    ensures 0 < b
  {
    Pow2(Width(n.family) - n.prefix)
  }

  predicate Contains(n: IpNetwork, a: IpAddr) {
    a.family == n.family && a.bits / Block(n) == n.bits / Block(n)
  }

  /** The host bits are zero: the only form the kernel stores a route under. */
  predicate Canonical(n: IpNetwork) {
    n.bits % Block(n) == 0
  }

  /** The single-address network an exact IP rule is installed as: /32 or /128. */
  function HostNetwork(a: IpAddr): IpNetwork {
    Network(a.family, a.bits, Width(a.family))
  }

  function First(n: IpNetwork): IpAddr {
    LowerBound(n.bits, Block(n));
    Addr(n.family, n.bits - n.bits % Block(n))
  }

  /** The first address value after the network; it may lie outside the address space. */
  function Past(n: IpNetwork): nat {
    First(n).bits + Block(n)
  }

  /** n lies inside m and is smaller. */
  predicate StrictlyNarrower(n: IpNetwork, m: IpNetwork) {
    n.family == m.family && m.prefix < n.prefix && Contains(m, First(n))
  }

  lemma LowerBound(x: nat, b: nat)
    requires 0 < b
    ensures x % b <= x
  {
  }

  lemma DivRange(x: nat, q: nat, b: nat)
    requires 0 < b
    ensures x / b == q <==> q * b <= x < q * b + b
  {
    assert x == (x / b) * b + x % b;
    if x / b < q {
      assert (x / b + 1) * b <= q * b by { MulMono(x / b + 1, q, b); }
    } else if q < x / b {
      assert (q + 1) * b <= (x / b) * b by { MulMono(q + 1, x / b, b); }
    }
  }

  lemma MulMono(x: nat, y: nat, b: nat)
    requires x <= y
    ensures x * b <= y * b
  {
  }

  lemma SameBlock(x: nat, y: nat, b: nat)
    requires 0 < b
    ensures x / b == y / b <==> y - y % b <= x < y - y % b + b
  {
    DivRange(x, y / b, b);
    assert y == (y / b) * b + y % b;
  }

  /** A network is the half-open interval from its first address to the one past it. */
  lemma ContainsIsInterval(n: IpNetwork, a: IpAddr)
    ensures Contains(n, a) <==> a.family == n.family && First(n).bits <= a.bits < Past(n)
  {
    SameBlock(a.bits, n.bits, Block(n));
  }

  /** An exact IP rule's network holds that address and no other. */
  lemma HostNetworkContainsOnly(a: IpAddr, x: IpAddr)
    ensures Canonical(HostNetwork(a))
    ensures Contains(HostNetwork(a), x) <==> x == a
  {
    assert Block(HostNetwork(a)) == 1;
  }

  lemma {:induction false} Pow2Adds(m: nat, n: nat)
    ensures Pow2(m + n) == Pow2(m) * Pow2(n)
  {
    if m > 0 {
      Pow2Adds(m - 1, n);
      assert 2 * (Pow2(m - 1) * Pow2(n)) == (2 * Pow2(m - 1)) * Pow2(n);
    }
  }

  lemma DivDiv(x: nat, m: nat, n: nat)
    requires 0 < m && 0 < n
    ensures 0 < m * n && x / (m * n) == x / m / n
  {
    var q := x / m / n;
    DivRange(x / m, q, n);
    DivRange(x, x / m, m);
    assert q * n <= x / m <= q * n + n - 1;
    MulMono(q * n, x / m, m);
    MulMono(x / m, q * n + n - 1, m);
    assert (q * n) * m == q * (m * n);
    assert (q * n + n - 1) * m + m == q * (m * n) + m * n;
    DivRange(x, q, m * n);
  }

  /** The block sizes in numbers: each prefix bit halves the block, from the whole address space
      down to a single address. */
  lemma BlockSizes(n: IpNetwork)
    ensures n.prefix == Width(n.family) ==> Block(n) == 1
    ensures n.prefix < Width(n.family) ==>
              Block(n) == 2 * Block(Network(n.family, n.bits, n.prefix + 1))
    ensures n.prefix <= 32 && n.family == V4 ==> Width(V4) == 32 && Width(V6) == 128
  {
  }

  /** Two networks that share an address are nested: the one with the longer prefix is inside. */
  lemma SharedAddressNests(n: IpNetwork, m: IpNetwork, a: IpAddr, x: IpAddr)
    requires Contains(n, a) && Contains(m, a) && m.prefix <= n.prefix && Contains(n, x)
    ensures Contains(m, x)
  {
    var d := n.prefix - m.prefix;
    Pow2Adds(Width(n.family) - n.prefix, d);
    assert Block(m) == Block(n) * Pow2(d);
    DivDiv(x.bits, Block(n), Pow2(d));
    DivDiv(a.bits, Block(n), Pow2(d));
  }

  lemma FirstIsInside(n: IpNetwork)
    ensures Contains(n, First(n))
  {
    ContainsIsInterval(n, First(n));
  }

  lemma WholeBlocks(x: nat, b: nat)
    requires 0 < b && x % b == 0
    ensures x == (x / b) * b
  {
  }

  /** Canonical networks of one prefix length that share an address are the same network. */
  lemma SameLengthSameNetwork(n: IpNetwork, m: IpNetwork, a: IpAddr)
    requires Canonical(n) && Canonical(m)
    requires Contains(n, a) && Contains(m, a) && n.prefix == m.prefix
    ensures n == m
  {
    WholeBlocks(n.bits, Block(n));
    WholeBlocks(m.bits, Block(m));
  }
}
