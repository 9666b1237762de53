/**
 IPv4 networks as Python's `ipaddress` module computes with them: addresses are 32-bit numbers,
 a network is a base address and a prefix length, and every test is an AND with the netmask or a
 comparison of end points.  The lemmas say what those tests mean for the sets of addresses.
 */
module Ipv4 {
  import opened Wrappers
  import opened Counting

  const ADDRESS_BITS: nat := 32

  function Pow2(n: nat): (r: nat)
    ensures r >= 1
  {
    if n == 0 then 1 else 2 * Pow2(n - 1)
  }

  /** Bitwise AND of two naturals. */
  function And(a: nat, b: nat): nat {
    if a == 0 || b == 0 then 0
    else 2 * And(a / 2, b / 2) + (if a % 2 == 1 && b % 2 == 1 then 1 else 0)
  }

  /** Bitwise OR of two naturals. */
  function Or(a: nat, b: nat): nat {
    if a == 0 && b == 0 then 0
    else 2 * Or(a / 2, b / 2) + (if a % 2 == 1 || b % 2 == 1 then 1 else 0)
  }

  predicate IsAddress(a: int) { 0 <= a < Pow2(ADDRESS_BITS) }

  lemma AddressBound(a: int)
    ensures IsAddress(a) <==> 0 <= a < 0x1_0000_0000
  {
    assert Pow2(4) == 16;
    Pow2Sum(4, 4);
    Pow2Sum(8, 8);
    Pow2Sum(16, 16);
  }

  /** Number of addresses of a network with prefix length `p`. */
  function Size(p: nat): nat
    requires p <= ADDRESS_BITS
  {
    Pow2(ADDRESS_BITS - p)
  }

  /** `p` leading one bits. */
  function Netmask(p: nat): nat
    requires p <= ADDRESS_BITS
  {
    Pow2Monotone(ADDRESS_BITS - p, ADDRESS_BITS);
    Pow2(ADDRESS_BITS) - Size(p)
  }

  /** The complement of the netmask. */
  function Hostmask(p: nat): nat
    requires p <= ADDRESS_BITS
  {
    Size(p) - 1
  }

  datatype NetworkT = Network(base: nat, prefix: nat) {
    ghost predicate Valid() {
      prefix <= ADDRESS_BITS && base % Size(prefix) == 0 && base + Size(prefix) <= Pow2(ADDRESS_BITS)
    }

    function Broadcast(): nat
      requires prefix <= ADDRESS_BITS
    {
      Or(base, Hostmask(prefix))
    }

    /** `address in network`: the address ANDed with the netmask is the base address. */
    predicate Contains(address: nat)
      requires prefix <= ADDRESS_BITS
    {
      And(address, Netmask(prefix)) == base
    }

    /** `network.overlaps(other)`: one of the four end points lies in the opposite network. */
    predicate Overlaps(other: NetworkT)
      requires prefix <= ADDRESS_BITS && other.prefix <= ADDRESS_BITS
    {
      || Contains(other.base)
      || Contains(other.Broadcast())
      || other.Contains(base)
      || other.Contains(Broadcast())
    }

    /** `network.subnet_of(other)`: both end points are within the other's end points. */
    predicate SubnetOf(other: NetworkT)
      requires prefix <= ADDRESS_BITS && other.prefix <= ADDRESS_BITS
    {
      other.base <= base && other.Broadcast() >= Broadcast()
    }

    /** The addresses of the network, as a set. */
    ghost function Addresses(): set<int>
      requires prefix <= ADDRESS_BITS
    {
      Range(base, base + Size(prefix))
    }
  }

  /** `network[i]`: counted from the base address, or backwards from the broadcast address. */
  function Item(n: NetworkT, i: int): Option<int>
    requires n.prefix <= ADDRESS_BITS
  {
    if i >= 0 then
      if n.base + i > n.Broadcast() then None else Some(n.base + i)
    else
      if n.Broadcast() + (i + 1) < n.base then None else Some(n.Broadcast() + (i + 1))
  }

  type Network = n: NetworkT | n.Valid() ghost witness Network(0, 0)

  datatype NetworkError = NotANetwork | HostBitsSet

  /**
   `IPv4Network((address, prefix), strict)`: host bits are an error when strict and are
   cleared otherwise.
   */
  function MakeNetwork(address: int, prefix: int, strict: bool): (r: Result<NetworkT, NetworkError>)
    ensures r.Ok? <==> IsAddress(address) && 0 <= prefix <= ADDRESS_BITS
                       && (strict ==> address % Size(prefix) == 0)
    ensures r.Ok? ==> r.value.Valid() && r.value.prefix == prefix && address in r.value.Addresses()
    ensures r.Ok? ==> r.value.base == address - address % Size(prefix)
  {
    if !IsAddress(address) || prefix < 0 || prefix > ADDRESS_BITS then Err(NotANetwork)
    else
      var masked := And(address, Netmask(prefix));
      AndNetmask(address, prefix);
      AlignedFits(address, prefix);
      if masked != address && strict then Err(HostBitsSet)
      else Ok(Network(masked, prefix))
  }

  // ---------------------------------------------------------------- bit arithmetic

  lemma {:induction false} Pow2Monotone(a: nat, b: nat)
    requires a <= b
    ensures Pow2(a) <= Pow2(b)
    decreases b
  {
    if a < b {
      Pow2Monotone(a, b - 1);
    }
  }

  lemma {:induction false} Pow2Sum(a: nat, b: nat)
    ensures Pow2(a + b) == Pow2(a) * Pow2(b)
    decreases b
  {
    if b > 0 {
      Pow2Sum(a, b - 1);
      assert Pow2(a + b) == 2 * Pow2(a + (b - 1));
    }
  }

  /** The low bit of a number, peeled off a remainder by an even modulus. */
  lemma ModDouble(a: nat, m: nat)
    requires m > 0
    ensures a % (2 * m) == 2 * ((a / 2) % m) + a % 2
  {
    var q, r := a / 2 / m, (a / 2) % m;
    assert a / 2 == m * q + r;
    var low := 2 * r + a % 2;
    assert a == (2 * m) * q + low by {
      assert a == 2 * (a / 2) + a % 2;
    }
    DivModUnique(a, 2 * m, q, low);
  }

  lemma DivModUnique(a: int, m: int, q: int, r: int)
    requires 0 <= r < m && a == m * q + r
    ensures a / m == q && a % m == r
  {
    var d := a / m - q;
    MultipleBounds(m, d);
    assert m * d == r - a % m;
  }

  /** A nonzero multiple of `m` is at least `m` away from zero. */
  lemma MultipleBounds(m: int, d: int)
    ensures m > 0 && d >= 1 ==> m * d >= m
    ensures m > 0 && d <= -1 ==> m * d <= -m
  {}

  /** ANDing with `n` one bits keeps an `n`-bit number. */
  lemma {:induction false} AndOnes(a: nat, n: nat)
    requires a < Pow2(n)
    ensures And(a, Pow2(n) - 1) == a
  {
    if n > 0 {
      AndOnes(a / 2, n - 1);
      var mask := Pow2(n) - 1;
      assert mask / 2 == Pow2(n - 1) - 1 && mask % 2 == 1;
    }
  }

  /** ANDing with the bits `k..n` clears the low `k` bits of an `n`-bit number. */
  lemma {:induction false} AndHighBits(a: nat, k: nat, n: nat)
    requires k <= n && a < Pow2(n)
    ensures Pow2(k) <= Pow2(n)
    ensures And(a, Pow2(n) - Pow2(k)) == a - a % Pow2(k)
    decreases n
  {
    Pow2Monotone(k, n);
    if n == k {
      DivModUnique(a, Pow2(k), 0, a);
    } else if k == 0 {
      AndOnes(a, n);
    } else {
      AndHighBits(a / 2, k - 1, n - 1);
      ModDouble(a, Pow2(k - 1));
      AndEvenMask(a, Pow2(n - 1) - Pow2(k - 1));
    }
  }

  lemma AndEvenMask(a: nat, half: nat)
    ensures And(a, 2 * half) == 2 * And(a / 2, half)
  {
    assert (2 * half) / 2 == half && (2 * half) % 2 == 0;
    if a != 0 && half != 0 {
      assert And(a, 2 * half) == 2 * And(a / 2, half) + 0;
    }
  }

  /** ORing the low `k` bits into a number without them adds them. */
  lemma {:induction false} OrLowBits(a: nat, k: nat)
    ensures a % Pow2(k) == 0 ==> Or(a, Pow2(k) - 1) == a + Pow2(k) - 1
  {
    if k == 0 {
      OrZero(a);
    } else if a % Pow2(k) == 0 {
      ModDouble(a, Pow2(k - 1));
      OrLowBits(a / 2, k - 1);
      var low := Pow2(k) - 1;
      assert low / 2 == Pow2(k - 1) - 1 && low % 2 == 1;
    }
  }

  lemma {:induction false} OrZero(a: nat)
    ensures Or(a, 0) == a
  {
    if a > 0 {
      OrZero(a / 2);
    }
  }

  lemma AndNetmask(address: nat, p: nat)
    requires IsAddress(address) && p <= ADDRESS_BITS
    ensures And(address, Netmask(p)) == address - address % Size(p)
  {
    var mask := Netmask(p);
    assert mask == Pow2(ADDRESS_BITS) - Pow2(ADDRESS_BITS - p);
    AndHighBits(address, ADDRESS_BITS - p, ADDRESS_BITS);
    assert And(address, mask) == address - address % Pow2(ADDRESS_BITS - p);
  }

  /** Two different multiples of a step are at least one step apart. */
  lemma MultiplesApart(x: int, y: int, step: int)
    requires step > 0 && x % step == 0 && y % step == 0 && x < y
    ensures x + step <= y
  {
    MultipleBounds(step, y / step - x / step);
    assert y - x == step * (y / step - x / step);
  }

  lemma SizeDivides(p: nat, q: nat)
    requires p <= q <= ADDRESS_BITS
    ensures Size(p) % Size(q) == 0
  {
    Pow2Sum(ADDRESS_BITS - q, q - p);
    var k := Pow2(q - p);
    assert Size(p) == Size(q) * k + 0;
    DivModUnique(Size(p), Size(q), k, 0);
  }

  lemma FloorAligned(x: int, step: int)
    requires step > 0
    ensures (x - x % step) % step == 0
  {
    assert x - x % step == step * (x / step) + 0;
    DivModUnique(x - x % step, step, x / step, 0);
  }

  /** The aligned block around an address fits the address space. */
  lemma AlignedFits(address: nat, p: nat)
    requires p <= ADDRESS_BITS && IsAddress(address)
    ensures (address - address % Size(p)) % Size(p) == 0
    ensures address - address % Size(p) + Size(p) <= Size(0)
  {
    FloorAligned(address, Size(p));
    SizeDivides(0, p);
    MultiplesApart(address - address % Size(p), Size(0), Size(p));
  }

  // ---------------------------------------------------------------- meaning of the tests

  lemma BroadcastIsLast(n: NetworkT)
    requires n.Valid()
    ensures n.Broadcast() == n.base + Size(n.prefix) - 1
    ensures IsAddress(n.base) && IsAddress(n.Broadcast())
  {
    BroadcastOf(n.base, n.prefix);
  }

  lemma BroadcastOf(base: nat, p: nat)
    requires p <= ADDRESS_BITS && base % Size(p) == 0
    ensures Or(base, Hostmask(p)) == base + Size(p) - 1
  {
    OrLowBits(base, ADDRESS_BITS - p);
  }

  /** The mask test is membership in the block. */
  lemma ContainsMeaning(n: NetworkT, address: nat)
    requires n.Valid() && IsAddress(address)
    ensures n.Contains(address) <==> address in n.Addresses()
  {
    var size := Size(n.prefix);
    AndNetmask(address, n.prefix);
    FloorIsBase(address, n.base, size);
  }

  /** Rounding down to a multiple of `size` gives the start of the aligned block around an address. */
  lemma FloorIsBase(address: int, base: int, size: int)
    requires size > 0 && base % size == 0
    ensures address - address % size == base <==> base <= address < base + size
  {
    var floor := address - address % size;
    DivModUnique(floor, size, address / size, 0);
    if floor < base {
      MultiplesApart(floor, base, size);
    } else if base < floor {
      MultiplesApart(base, floor, size);
    }
  }

  /** `overlaps` holds exactly when the two networks share an address. */
  lemma OverlapsMeaning(a: NetworkT, b: NetworkT)
    requires a.Valid() && b.Valid()
    ensures a.Overlaps(b) <==> exists x :: x in a.Addresses() && x in b.Addresses()
    ensures a.Overlaps(b) <==> b.Overlaps(a)
  {
    BroadcastIsLast(a);
    BroadcastIsLast(b);
    ContainsMeaning(a, b.base);
    ContainsMeaning(a, b.Broadcast());
    ContainsMeaning(b, a.base);
    ContainsMeaning(b, a.Broadcast());
    assert b.base in b.Addresses() && b.Broadcast() in b.Addresses();
    assert a.base in a.Addresses() && a.Broadcast() in a.Addresses();
    if x :| x in a.Addresses() && x in b.Addresses() {
      assert b.base in a.Addresses() || a.base in b.Addresses();
    }
  }

  /** `subnet_of` holds exactly when every address of the one is an address of the other. */
  lemma SubnetMeaning(a: NetworkT, b: NetworkT)
    requires a.Valid() && b.Valid()
    ensures a.SubnetOf(b) <==> a.Addresses() <= b.Addresses()
  {
    BroadcastIsLast(a);
    BroadcastIsLast(b);
    if a.Addresses() <= b.Addresses() {
      assert a.base in a.Addresses() && a.Broadcast() in a.Addresses();
    }
  }

  /** Two networks are disjoint or one lies inside the other: the longer prefix is the inner one. */
  lemma NestedOrDisjoint(a: NetworkT, b: NetworkT)
    requires a.Valid() && b.Valid() && a.prefix >= b.prefix
    ensures a.Addresses() <= b.Addresses() || a.Addresses() !! b.Addresses()
    ensures a.Overlaps(b) <==> a.SubnetOf(b)
  {
    var s, t := Size(a.prefix), Size(b.prefix);
    SizeDivides(b.prefix, a.prefix);
    AlignedToo(b, a.prefix);
    BlocksNest(a.base, s, b.base, t);
    OverlapsMeaning(a, b);
    SubnetMeaning(a, b);
    assert a.base in a.Addresses();
  }

  /** A base address is a multiple of every smaller block size. */
  lemma AlignedToo(n: NetworkT, p: nat)
    requires n.Valid() && n.prefix <= p <= ADDRESS_BITS
    ensures n.base % Size(p) == 0
  {
    Pow2Sum(ADDRESS_BITS - p, p - n.prefix);
    var q := Quotient(n.base, Size(n.prefix), Size(p), Pow2(p - n.prefix));
    DivModUnique(n.base, Size(p), q, 0);
  }

  /** A multiple of a multiple is a multiple. */
  lemma Quotient(x: int, big: int, small: int, k: int) returns (q: int)
    requires big > 0 && x % big == 0 && big == small * k
    ensures x == small * q
  {
    var a := x / big;
    assert x == big * a;
    Factors(small, k, a);
    q := k * a;
  }

  lemma Factors(small: int, k: int, a: int)
    ensures small * k * a == small * (k * a)
  {}

  lemma BlocksNest(x: int, s: int, y: int, t: int)
    requires s > 0 && x % s == 0 && y % s == 0 && t % s == 0
    ensures x + s <= y || y + t <= x || (y <= x && x + s <= y + t)
  {
    if x < y {
      MultiplesApart(x, y, s);
    } else if x < y + t {
      SumOfMultiples(y, t, s);
      MultiplesApart(x, y + t, s);
    }
  }

  lemma SumOfMultiples(y: int, t: int, s: int)
    requires s > 0 && y % s == 0 && t % s == 0
    ensures (y + t) % s == 0
  {
    assert y + t == s * (y / s + t / s) + 0;
    DivModUnique(y + t, s, y / s + t / s, 0);
  }

  /** A network has 2^(32 - prefix) addresses. */
  lemma AddressCount(n: NetworkT)
    requires n.Valid()
    ensures |n.Addresses()| == Size(n.prefix)
  {
    RangeSize(n.base, n.base + Size(n.prefix));
  }

  /** Items 0 and -1 are the least and the greatest address, and in between indexing meets every address. */
  lemma ItemsAreAddresses(n: NetworkT, a: int)
    requires n.Valid()
    ensures Item(n, 0) == Some(n.base) && Item(n, -1) == Some(n.base + Size(n.prefix) - 1)
    ensures a in n.Addresses() <==> exists i :: i >= 0 && Item(n, i) == Some(a)
    ensures a in n.Addresses() <==> exists i :: i < 0 && Item(n, i) == Some(a)
  {
    BroadcastIsLast(n);
    if a in n.Addresses() {
      assert Item(n, a - n.base) == Some(a);
      assert Item(n, a - n.Broadcast() - 1) == Some(a);
    }
  }
}
