/**
 Subnets. The source works on `u32` with `&`, `|`, `!` and `<<`; here those operators are defined on
 numbers bit by bit, and the subnet operations are shown to be interval arithmetic.
 */
module Ip {
  import opened Base
  import opened Text

  // ---- The bit operators ----

  function And(x: nat, y: nat): nat {
    if x == 0 then 0 else (if x % 2 == 1 && y % 2 == 1 then 1 else 0) + 2 * And(x / 2, y / 2)
  }

  function Or(x: nat, y: nat): nat
    decreases x + y
  {
    if x == 0 && y == 0 then 0 else (if x % 2 == 1 || y % 2 == 1 then 1 else 0) + 2 * Or(x / 2, y / 2)
  }

  /** Complement of the `width` low bits. */
  function Not(x: nat, width: nat): nat {
    if width == 0 then 0 else 1 - x % 2 + 2 * Not(x / 2, width - 1)
  }

  /** Shift left in 32 bits: each step drops the top bit. */
  function Shl(x: u32, n: nat): u32
    decreases n
  {
    if n == 0 then x else Shl(2 * (x as int) % TWO_32, n - 1)
  }

  function Pow2(k: nat): (p: nat)
    ensures p > 0
  {
    if k == 0 then 1 else 2 * Pow2(k - 1)
  }

  /** `x` with its `k` low bits cleared. */
  function ClearLow(x: nat, k: nat): nat {
    if k == 0 then x else 2 * ClearLow(x / 2, k - 1)
  }

  lemma {:induction false} Pow2Order(j: nat, k: nat)
    requires j <= k
    ensures Pow2(j) <= Pow2(k)
  {
    if j < k {
      Pow2Order(j, k - 1);
    }
  }

  lemma Pow2At32()
    ensures Pow2(32) == TWO_32
    ensures Pow2(31) == 0x8000_0000
  {
    assert Pow2(8) == 0x100;
    assert Pow2(16) == 0x1_0000;
    assert Pow2(24) == 0x100_0000;
    assert Pow2(31) == 0x8000_0000;
  }

  lemma {:induction false} ClearLowBounds(x: nat, k: nat)
    ensures ClearLow(x, k) <= x < ClearLow(x, k) + Pow2(k)
  {
    if k > 0 {
      ClearLowBounds(x / 2, k - 1);
    }
  }

  /** Two words agree above bit `k` exactly when one lies in the aligned block of the other. */
  lemma {:induction false} SameBlock(a: nat, x: nat, k: nat)
    ensures ClearLow(x, k) == ClearLow(a, k) <==> ClearLow(a, k) <= x < ClearLow(a, k) + Pow2(k)
  {
    if k > 0 {
      SameBlock(a / 2, x / 2, k - 1);
    }
  }

  lemma {:induction false} AndOnes(x: nat, w: nat)
    requires x < Pow2(w)
    ensures And(x, Pow2(w) - 1) == x
  {
    if x > 0 {
      var ones := Pow2(w) - 1;
      assert ones % 2 == 1 && ones / 2 == Pow2(w - 1) - 1;
      AndOnes(x / 2, w - 1);
    }
  }

  lemma {:induction false} AndHighOnes(x: nat, w: nat, k: nat)
    requires k <= w && x < Pow2(w)
    ensures Pow2(k) <= Pow2(w)
    ensures And(x, Pow2(w) - Pow2(k)) == ClearLow(x, k)
    decreases w
  {
    Pow2Order(k, w);
    if k == 0 {
      AndOnes(x, w);
    } else {
      var m := Pow2(w) - Pow2(k);
      Pow2Order(k - 1, w - 1);
      assert m == 2 * (Pow2(w - 1) - Pow2(k - 1));
      AndHighOnes(x / 2, w - 1, k - 1);
      if x == 0 {
        ClearLowBounds(0, k);
      }
    }
  }

  lemma {:induction false} NotHighOnes(w: nat, k: nat)
    requires k <= w
    ensures Pow2(k) <= Pow2(w)
    ensures Not(Pow2(w) - Pow2(k), w) == Pow2(k) - 1
  {
    Pow2Order(k, w);
    if k == 0 {
      NotOnes(w);
    } else {
      var m := Pow2(w) - Pow2(k);
      Pow2Order(k - 1, w - 1);
      assert m == 2 * (Pow2(w - 1) - Pow2(k - 1));
      NotHighOnes(w - 1, k - 1);
    }
  }

  lemma {:induction false} NotOnes(w: nat)
    ensures Not(Pow2(w) - 1, w) == 0
  {
    if w > 0 {
      var ones := Pow2(w) - 1;
      assert ones % 2 == 1 && ones / 2 == Pow2(w - 1) - 1;
      NotOnes(w - 1);
    }
  }

  lemma {:induction false} OrZero(x: nat)
    ensures Or(x, 0) == x
  {
    if x > 0 {
      OrZero(x / 2);
    }
  }

  lemma {:induction false} OrLowOnes(x: nat, k: nat)
    ensures Or(x, Pow2(k) - 1) == ClearLow(x, k) + Pow2(k) - 1
  {
    if k == 0 {
      OrZero(x);
    } else {
      var ones := Pow2(k) - 1;
      assert ones % 2 == 1 && ones / 2 == Pow2(k - 1) - 1;
      OrLowOnes(x / 2, k - 1);
    }
  }

  lemma DoubleWraps(x: u32)
    requires x >= 0x8000_0000
    ensures 2 * (x as int) % TWO_32 == 2 * (x as int) - TWO_32
  {
  }

  lemma {:induction false} ShlHighOnes(j: nat, n: nat)
    requires j + n <= 31
    ensures Pow2(j) <= Pow2(j + n) <= Pow2(31) < TWO_32
    ensures Shl(TWO_32 - Pow2(j), n) == TWO_32 - Pow2(j + n)
    decreases n
  {
    Pow2Order(j, j + n);
    Pow2Order(j + n, 31);
    Pow2At32();
    if n > 0 {
      var x: u32 := TWO_32 - Pow2(j);
      Pow2Order(j + 1, 31);
      assert Pow2(j + 1) == 2 * Pow2(j);
      DoubleWraps(x);
      ShlHighOnes(j + 1, n - 1);
    }
  }

  // ---- Subnets ----

  type Prefix = p: int | 0 <= p <= 32

  datatype Cidr = Cidr(addr: u32, prefix: Prefix) {
    function Mask(): u32 {
      if prefix == 0 then 0 else Shl(0xFFFF_FFFF, 32 - prefix)
    }

    function Network(): (r: u32) {
      SubnetBits(this);
      And(addr, Mask())
    }

    function Broadcast(): (r: u32) {
      SubnetBits(this);
      Or(addr, Not(Mask(), 32))
    }

    function Netmask(): u32 {
      Mask()
    }

    predicate Contains(ip: u32) {
      And(ip, Mask()) == Network()
    }
  }

  lemma MaskValue(c: Cidr)
    ensures Pow2(32 - c.prefix) <= TWO_32
    ensures c.Mask() == TWO_32 - Pow2(32 - c.prefix)
  {
    Pow2At32();
    Pow2Order(32 - c.prefix, 32);
    if c.prefix > 0 {
      ShlHighOnes(0, 32 - c.prefix);
    }
  }

  lemma SubnetBits(c: Cidr)
    ensures forall x: u32 :: And(x, c.Mask()) == ClearLow(x, 32 - c.prefix)
    ensures Or(c.addr, Not(c.Mask(), 32)) == ClearLow(c.addr, 32 - c.prefix) + Pow2(32 - c.prefix) - 1
    ensures 0 <= And(c.addr, c.Mask()) <= Or(c.addr, Not(c.Mask(), 32)) < TWO_32
  {
    var k := 32 - c.prefix;
    Pow2At32();
    MaskValue(c);
    forall x: u32
      ensures And(x, c.Mask()) == ClearLow(x, k)
    {
      AndHighOnes(x, 32, k);
    }
    NotHighOnes(32, k);
    OrLowOnes(c.addr, k);
    ClearLowBounds(c.addr, k);
    BlockFits(c.addr, 32, k);
  }

  lemma {:induction false} BlockFits(x: nat, w: nat, k: nat)
    requires k <= w && x < Pow2(w)
    ensures ClearLow(x, k) + Pow2(k) <= Pow2(w)
  {
    if k > 0 {
      BlockFits(x / 2, w - 1, k - 1);
    }
  }

  /** Membership by mask is membership in the interval from network to broadcast address, for every prefix. */
  lemma ContainsIsInterval(c: Cidr, ip: u32)
    ensures c.Contains(ip) <==> c.Network() <= ip <= c.Broadcast()
  {
    SubnetBits(c);
    SameBlock(c.addr, ip, 32 - c.prefix);
  }

  /** A subnet of prefix `p` has 2^(32-p) addresses, starting at a multiple of that. */
  lemma SubnetSize(c: Cidr)
    ensures c.Broadcast() - c.Network() + 1 == Pow2(32 - c.prefix)
    ensures c.Network() <= c.addr <= c.Broadcast()
    ensures c.Netmask() + (c.Broadcast() - c.Network()) == TWO_32 - 1
  {
    SubnetBits(c);
    MaskValue(c);
    ClearLowBounds(c.addr, 32 - c.prefix);
  }

  lemma AndBit(x: nat, m: nat)
    ensures And(x, m) == (if x % 2 == 1 && m % 2 == 1 then 1 else 0) + 2 * And(x / 2, m / 2)
  {
  }

  /** Exactly the words of the aligned block at `n` give `n` under this mask. */
  ghost predicate Selects(m: nat, n: nat, w: nat, k: nat) {
    forall x: nat :: x < Pow2(w) ==> (And(x, m) == n <==> n <= x < n + Pow2(k))
  }

  lemma SelectsLowBit(m: nat, n: nat, w: nat, k: nat)
    requires 0 < w && k <= w && n + Pow2(k) <= Pow2(w) && ClearLow(n, k) == n && Selects(m, n, w, k)
    ensures m % 2 == if k == 0 then 1 else 0
  {
    AndBit(n, m);
    assert And(n, m) == n;
    var y := if n % 2 == 0 then n + 1 else n - 1;
    AndBit(y, m);
    assert y / 2 == n / 2 && y < Pow2(w);
  }

  lemma SelectsHalf(m: nat, n: nat, w: nat, k: nat)
    requires 0 < w && k <= w && n + Pow2(k) <= Pow2(w) && ClearLow(n, k) == n && Selects(m, n, w, k)
    ensures Selects(m / 2, n / 2, w - 1, if k == 0 then 0 else k - 1)
  {
    SelectsLowBit(m, n, w, k);
    var k' := if k == 0 then 0 else k - 1;
    forall x: nat | x < Pow2(w - 1)
      ensures And(x, m / 2) == n / 2 <==> n / 2 <= x < n / 2 + Pow2(k')
    {
      var b := if k == 0 then n % 2 else 0;
      AndBit(2 * x + b, m);
      assert (2 * x + b) / 2 == x && (2 * x + b) % 2 == b;
      assert And(2 * x + b, m) == n <==> n <= 2 * x + b < n + Pow2(k);
    }
  }

  /** Only one mask does. */
  lemma {:induction false} MaskUnique(m: nat, n: nat, w: nat, k: nat)
    requires k <= w && m < Pow2(w) && n + Pow2(k) <= Pow2(w) && ClearLow(n, k) == n && Selects(m, n, w, k)
    ensures Pow2(k) <= Pow2(w) && m == Pow2(w) - Pow2(k)
    decreases w
  {
    Pow2Order(k, w);
    if w > 0 {
      SelectsLowBit(m, n, w, k);
      SelectsHalf(m, n, w, k);
      MaskUnique(m / 2, n / 2, w - 1, if k == 0 then 0 else k - 1);
    }
  }

  lemma {:induction false} ClearLowTwice(x: nat, k: nat)
    ensures ClearLow(ClearLow(x, k), k) == ClearLow(x, k)
  {
    if k > 0 {
      ClearLowTwice(x / 2, k - 1);
    }
  }

  /** Under this mask exactly the subnet's addresses fall into its network. */
  ghost predicate Describes(mask: u32, c: Cidr) {
    forall x: u32 :: And(x, mask) == c.Network() <==> c.Network() <= x <= c.Broadcast()
  }

  lemma DescribesSelects(mask: u32, c: Cidr)
    requires Describes(mask, c) && Pow2(32) == TWO_32 && c.Broadcast() == c.Network() + Pow2(32 - c.prefix) - 1
    ensures Selects(mask, c.Network(), 32, 32 - c.prefix)
  {
    var n, k := c.Network(), 32 - c.prefix;
    forall x: nat | x < Pow2(32)
      ensures And(x, mask) == n <==> n <= x < n + Pow2(k)
    {
      var word: u32 := x;
      assert And(word, mask) == c.Network() <==> c.Network() <= word <= c.Broadcast();
    }
  }

  lemma DescribesIsNetmask(mask: u32, c: Cidr)
    requires Describes(mask, c)
    ensures mask == c.Netmask()
  {
    var k := 32 - c.prefix;
    SubnetBits(c);
    SubnetSize(c);
    MaskValue(c);
    Pow2At32();
    ClearLowTwice(c.addr, k);
    BlockFits(c.addr, 32, k);
    DescribesSelects(mask, c);
    MaskUnique(mask, c.Network(), 32, k);
  }

  lemma NetmaskDescribes(c: Cidr)
    ensures Describes(c.Netmask(), c)
  {
    forall x: u32
      ensures And(x, c.Netmask()) == c.Network() <==> c.Network() <= x <= c.Broadcast()
    {
      ContainsIsInterval(c, x);
    }
  }

  /** A mask describes a subnet if and only if it is the subnet's own. */
  lemma DescribesExactly(mask: u32, c: Cidr)
    ensures Describes(mask, c) <==> mask == c.Netmask()
  {
    NetmaskDescribes(c);
    if Describes(mask, c) {
      DescribesIsNetmask(mask, c);
    }
  }

  // ---- Dotted decimal ----

  function DisplayIp(ip: u32): string {
    var o := Octets(ip);
    Join([Decimal(o[0]), Decimal(o[1]), Decimal(o[2]), Decimal(o[3])], '.')
  }

  /** One to three digits without a leading zero, at most 255. */
  function ParseIpOctet(part: string): (r: Option<byte>) {
    if part == "" || |part| > 3 || part[0] == '+' || (part[0] == '0' && |part| > 1) then None
    else
      var n := ParseUnsigned(part, 10, 255);
      if n.Some? then Some(n.value) else None
  }

  function ParseIp(s: string): Option<u32> {
    var parts := SplitOn(s, '.');
    if |parts| != 4 then None
    else
      var a, b, c, d := ParseIpOctet(parts[0]), ParseIpOctet(parts[1]), ParseIpOctet(parts[2]), ParseIpOctet(parts[3]);
      if a.Some? && b.Some? && c.Some? && d.Some? then Some(FromOctets([a.value, b.value, c.value, d.value]))
      else None
  }

  lemma OctetParses(b: byte)
    ensures ParseIpOctet(Decimal(b)) == Some(b)
    ensures '.' !in Decimal(b)
  {
    ParseDecimal(b, 255);
    assert |Decimal(b)| <= 3 by {
      if b >= 100 {
        assert Decimal(b / 10 / 10) == [Digit(b / 100)];
      }
    }
  }

  lemma DisplayIpParses(ip: u32)
    ensures ParseIp(DisplayIp(ip)) == Some(ip)
  {
    var o := Octets(ip);
    OctetParses(o[0]);
    OctetParses(o[1]);
    OctetParses(o[2]);
    OctetParses(o[3]);
    SplitJoin([Decimal(o[0]), Decimal(o[1]), Decimal(o[2]), Decimal(o[3])], '.');
    assert o == [o[0], o[1], o[2], o[3]];
  }

  lemma {:induction false} JoinSplit(s: string, c: char)
    ensures Join(SplitOn(s, c), c) == s
  {
    if s != "" {
      var parts := SplitOn(s[1..], c);
      JoinSplit(s[1..], c);
      if s[0] == c {
        assert SplitOn(s, c)[1..] == parts;
      } else {
        assert SplitOn(s, c)[1..] == parts[1..];
      }
    }
  }

  lemma OctetIsPrinted(part: string, b: byte)
    requires ParseIpOctet(part) == Some(b)
    ensures part == Decimal(b)
  {
    DigitsArePrinted(part, b);
  }

  /** The parser accepts exactly the texts that are printed. */
  lemma ParseIpExactly(s: string, ip: u32)
    ensures ParseIp(s) == Some(ip) <==> s == DisplayIp(ip)
  {
    DisplayIpParses(ip);
    if ParseIp(s) == Some(ip) {
      var parts := SplitOn(s, '.');
      var a, b := ParseIpOctet(parts[0]).value, ParseIpOctet(parts[1]).value;
      var c, d := ParseIpOctet(parts[2]).value, ParseIpOctet(parts[3]).value;
      OctetIsPrinted(parts[0], a);
      OctetIsPrinted(parts[1], b);
      OctetIsPrinted(parts[2], c);
      OctetIsPrinted(parts[3], d);
      JoinSplit(s, '.');
      OctetsBack([a, b, c, d]);
      assert parts == [Decimal(a), Decimal(b), Decimal(c), Decimal(d)];
    }
  }

  lemma OctetsBack(b: seq<byte>)
    requires |b| == 4
    ensures Octets(FromOctets(b)) == b
  {
    var hi, lo := b[0] as int * 256 + b[1], b[2] as int * 256 + b[3];
    assert FromOctets(b) == 0x1_0000 * hi + lo;
    assert FromOctets(b) / 0x1_0000 == hi && FromOctets(b) % 0x1_0000 == lo;
  }

  lemma DisplayIpIsToken(ip: u32)
    ensures Token(DisplayIp(ip))
  {
    var o := Octets(ip);
    JoinIsToken([Decimal(o[0]), Decimal(o[1]), Decimal(o[2]), Decimal(o[3])], '.');
  }
}
