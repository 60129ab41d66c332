/**
 IPv4 prefixes and the address arithmetic of the pool construction.
 An address is its 32-bit value; a prefix may have host bits set, as `netip.ParsePrefix` allows.
 Prefix meaning: RFC 4632, section 3.1.
 */
module IPv4 {
  import opened Wrappers

  type Addr = a: nat | a < 0x1_0000_0000

  type Bits = b: nat | b <= 32

  datatype Prefix = Prefix(addr: Addr, bits: Bits)

  // ---------- uint32 operations, on the value of the word ----------

  function Pow2(k: nat): (p: nat)
    ensures p >= 1
  {
    if k == 0 then 1 else 2 * Pow2(k - 1)
  }

  /** Shift left by k bits; bits leaving the 32-bit word are lost. */
  function Shl(x: nat, k: nat): nat
    decreases k, x
  {
    if k == 0 then x else Shl(2 * x % 0x1_0000_0000, k - 1)
  }

  /** Shift right by k bits. */
  function Shr(x: nat, k: nat): nat {
    if k == 0 then x else Shr(x / 2, k - 1)
  }

  /** The k lowest bits set to zero. */
  function ClearLow(x: nat, k: nat): nat {
    if k == 0 then x else 2 * ClearLow(x / 2, k - 1)
  }

  /** Bitwise or, bit by bit. */
  function Or(x: nat, y: nat): nat {
    if x == 0 && y == 0 then 0
    else 2 * Or(x / 2, y / 2) + (if x % 2 == 1 || y % 2 == 1 then 1 else 0)
  }

  // ---------- netip ----------

  /** The number of addresses a prefix of this length covers. */
  function Size(p: Prefix): (n: nat)
    ensures n >= 1
  {
    Pow2(32 - p.bits)
  }

  /** `Prefix.Masked().Addr()`: the host bits cleared. */
  function Network(p: Prefix): nat { ClearLow(p.addr, 32 - p.bits) }

  /** `Prefix.Contains` for IPv4: the addresses agree once the host bits are shifted out. */
  predicate Contains(p: Prefix, a: nat) { Shr(a, 32 - p.bits) == Shr(p.addr, 32 - p.bits) }

  /** `Addr.Prev` and `Addr.Next`: leaving the address space gives the invalid address, which no prefix contains. */
  function Prev(a: Addr): Option<Addr> { if a == 0 then None else Some(a - 1) }

  function Next(a: Addr): Option<Addr> { if a == 0xFFFF_FFFF then None else Some(a + 1) }

  datatype Bytes = Bytes(b0: nat, b1: nat, b2: nat, b3: nat)

  function As4(a: nat): Bytes {
    Bytes(a / 0x100 / 0x100 / 0x100, a / 0x100 / 0x100 % 0x100, a / 0x100 % 0x100, a % 0x100)
  }

  function AddrFrom4(b: Bytes): nat {
    ((b.b0 * 0x100 + b.b1) * 0x100 + b.b2) * 0x100 + b.b3
  }

  /** The word made of four bytes, by shifts and ors. */
  function JoinShifted(b: Bytes): nat {
    Or(Or(Or(Shl(b.b0, 24), Shl(b.b1, 16)), Shl(b.b2, 8)), b.b3)
  }

  /** The four bytes of a word, by shifts and truncation. */
  function SplitShifted(w: nat): Bytes {
    Bytes(Shr(w, 24) % 0x100, Shr(w, 16) % 0x100, Shr(w, 8) % 0x100, w % 0x100)
  }

  /** `lastAddrInPrefix`: join the bytes of the network address, set the host bits, split into bytes again. */
  function LastAddrInPrefix(p: Prefix): nat {
    AddrFrom4(SplitShifted(Or(JoinShifted(As4(Network(p))), Shr(0xFFFF_FFFF, p.bits))))
  }

  // ---------- the word operations in terms of powers of two ----------

  lemma {:induction false} Pow2Split(a: nat, b: nat)
    ensures Pow2(a + b) == Pow2(a) * Pow2(b)
  {
    if a > 0 { Pow2Split(a - 1, b); }
  }

  lemma Pow2Consts()
    ensures Pow2(8) == 0x100 && Pow2(16) == 0x1_0000 && Pow2(24) == 0x100_0000 && Pow2(32) == 0x1_0000_0000
  {
    assert Pow2(4) == 16;
    Pow2Split(4, 4);
    Pow2Split(8, 8);
    Pow2Split(16, 8);
    Pow2Split(16, 16);
  }

  lemma DoubleProduct(x: nat, p: nat)
    ensures x * (2 * p) == (2 * x) * p
  {
  }

  lemma ProductGrows(y: nat, p: nat)
    requires p >= 1
    ensures y <= y * p
  {
  }

  lemma {:induction false} ShlValue(x: nat, k: nat)
    requires x * Pow2(k) < 0x1_0000_0000
    ensures Shl(x, k) == x * Pow2(k)
    decreases k, x
  {
    if k > 0 {
      var y, p := 2 * x, Pow2(k - 1);
      assert x * Pow2(k) == y * p by { DoubleProduct(x, p); }
      assert y <= y * p by { ProductGrows(y, p); }
      ShlValue(y, k - 1);
    }
  }

  lemma {:induction false} ShrValue(x: nat, k: nat)
    ensures Shr(x, k) * Pow2(k) <= x < Shr(x, k) * Pow2(k) + Pow2(k)
  {
    if k > 0 {
      ShrValue(x / 2, k - 1);
      assert Shr(x, k) * Pow2(k) == 2 * (Shr(x, k) * Pow2(k - 1));
    }
  }

  /** Or is addition when no bit position is used twice. */
  lemma {:induction false} OrIsAdd(q: nat, k: nat, y: nat)
    requires y < Pow2(k)
    ensures Or(q * Pow2(k), y) == q * Pow2(k) + y
  {
    if k == 0 {
      OrZero(q);
    } else {
      assert q * Pow2(k) == 2 * (q * Pow2(k - 1));
      OrIsAdd(q, k - 1, y / 2);
    }
  }

  lemma {:induction false} OrZero(x: nat)
    ensures Or(x, 0) == x
  {
    if x > 0 { OrZero(x / 2); }
  }

  /** Setting the k lowest bits of a word whose k lowest bits are clear. */
  lemma {:induction false} SetLow(x: nat, k: nat)
    ensures Or(ClearLow(x, k), Pow2(k) - 1) == ClearLow(x, k) + Pow2(k) - 1
  {
    if k == 0 {
      OrZero(x);
    } else {
      var a, b := ClearLow(x / 2, k - 1), Pow2(k - 1) - 1;
      SetLow(x / 2, k - 1);
      assert ClearLow(x, k) == 2 * a && Pow2(k) - 1 == 2 * b + 1;
      OrOdd(a, b);
    }
  }

  lemma OrOdd(a: nat, b: nat)
    ensures Or(2 * a, 2 * b + 1) == 2 * Or(a, b) + 1
  {
  }

  lemma {:induction false} ClearLowValue(x: nat, k: nat)
    ensures ClearLow(x, k) == Shr(x, k) * Pow2(k)
  {
    if k > 0 {
      ClearLowValue(x / 2, k - 1);
      assert Shr(x, k) * Pow2(k) == 2 * (Shr(x, k) * Pow2(k - 1));
    }
  }

  lemma {:induction false} ClearLowBound(x: nat, k: nat, j: nat)
    requires x < Pow2(k + j)
    ensures ClearLow(x, k) <= x < ClearLow(x, k) + Pow2(k) <= Pow2(k + j)
  {
    if k > 0 { ClearLowBound(x / 2, k - 1, j); }
  }

  /** Words that agree above the k lowest bits are the words of one aligned interval. */
  lemma {:induction false} ShrInterval(x: nat, a: nat, k: nat)
    ensures Shr(a, k) == Shr(x, k) <==> ClearLow(x, k) <= a < ClearLow(x, k) + Pow2(k)
  {
    if k > 0 { ShrInterval(x / 2, a / 2, k - 1); }
  }

  lemma {:induction false} ShrOnes(k: nat, j: nat)
    ensures Shr(Pow2(k + j) - 1, k) == Pow2(j) - 1
  {
    if k > 0 { ShrOnes(k - 1, j); }
  }

  lemma HostMask(bits: Bits)
    ensures Shr(0xFFFF_FFFF, bits) == Pow2(32 - bits) - 1
  {
    Pow2Consts();
    ShrOnes(bits, 32 - bits);
  }

  // ---------- the top address ----------

  /** The byte split and the byte join are inverse to each other. */
  lemma BytesRoundTrip(a: Addr)
    ensures AddrFrom4(As4(a)) == a
    ensures var b := As4(a); b.b0 < 0x100 && b.b1 < 0x100 && b.b2 < 0x100 && b.b3 < 0x100
  {
  }

  lemma ShlBytes(x: nat)
    requires x < 0x100
    ensures Shl(x, 24) == x * 0x100_0000 && Shl(x, 16) == x * 0x1_0000 && Shl(x, 8) == x * 0x100
  {
    Pow2Consts();
    ShlValue(x, 24);
    ShlValue(x, 16);
    ShlValue(x, 8);
  }

  lemma OrByte(x: nat, k: nat, y: nat)
    requires k == 8 || k == 16 || k == 24
    requires y < 0x100
    ensures var low := Pow2(k - 8); Or(x * Pow2(k), y * low) == (x * 0x100 + y) * low
  {
    Pow2Split(8, k - 8);
    Pow2Consts();
    OrIsAdd(x, k, y * Pow2(k - 8));
  }

  lemma JoinHigh(x: nat, y: nat)
    requires x < 0x100 && y < 0x100
    ensures Or(Shl(x, 24), Shl(y, 16)) == (x * 0x100 + y) * 0x1_0000
  {
    Pow2Consts();
    ShlBytes(x);
    ShlBytes(y);
    OrByte(x, 24, y);
  }

  lemma JoinMiddle(x: nat, y: nat)
    requires y < 0x100
    ensures Or(x * 0x1_0000, Shl(y, 8)) == (x * 0x100 + y) * 0x100
  {
    Pow2Consts();
    ShlBytes(y);
    OrByte(x, 16, y);
  }

  lemma JoinLow(x: nat, y: nat)
    requires y < 0x100
    ensures Or(x * 0x100, y) == x * 0x100 + y
  {
    Pow2Consts();
    OrByte(x, 8, y);
  }

  lemma JoinBytes(b: Bytes)
    requires b.b0 < 0x100 && b.b1 < 0x100 && b.b2 < 0x100 && b.b3 < 0x100
    ensures JoinShifted(b) == AddrFrom4(b)
  {
    var x1 := b.b0 * 0x100 + b.b1;
    JoinHigh(b.b0, b.b1);
    JoinMiddle(x1, b.b2);
    JoinLow(x1 * 0x100 + b.b2, b.b3);
  }

  lemma ShrBytes(w: nat)
    ensures Shr(w, 8) == w / 0x100
  {
    Pow2Consts();
    ShrValue(w, 8);
  }

  lemma {:induction false} ShrTwice(w: nat, j: nat, k: nat)
    ensures Shr(Shr(w, j), k) == Shr(w, j + k)
  {
    if j > 0 { ShrTwice(w / 2, j - 1, k); }
  }

  lemma SplitBytes(w: Addr)
    ensures SplitShifted(w) == As4(w)
  {
    ShrTwice(w, 8, 8);
    ShrTwice(w, 16, 8);
    ShrBytes(w);
    ShrBytes(w / 0x100);
    ShrBytes(w / 0x100 / 0x100);
  }

  /** A word split by shifts and joined by place value, or split by place value and joined by shifts, is itself. */
  lemma {:induction false} ShiftedRoundTrips(w: Addr)
    ensures AddrFrom4(SplitShifted(w)) == w && JoinShifted(As4(w)) == w
  {
    BytesRoundTrip(w);
    JoinBytes(As4(w));
    SplitBytes(w);
  }

  lemma NetworkBound(p: Prefix)
    ensures Network(p) <= p.addr < Network(p) + Size(p) <= 0x1_0000_0000
  {
    Pow2Consts();
    ClearLowBound(p.addr, 32 - p.bits, p.bits);
  }

  /**
   The shift-and-or form computes the top address of the prefix, for every prefix length from 0 to 32
   and whatever host bits the prefix carries.
   */
  lemma LastAddrValue(p: Prefix)
    ensures LastAddrInPrefix(p) == Network(p) + Size(p) - 1
  {
    NetworkBound(p);
    HostMask(p.bits);
    assert Or(Network(p), Shr(0xFFFF_FFFF, p.bits)) == Network(p) + Size(p) - 1 by { SetLow(p.addr, 32 - p.bits); }
    assert JoinShifted(As4(Network(p))) == Network(p) by { ShiftedRoundTrips(Network(p)); }
    ShiftedRoundTrips(Network(p) + Size(p) - 1);
  }

  /** The same as a formula in the address and the prefix length alone. */
  lemma {:induction false} LastAddrFormula(p: Prefix)
    ensures LastAddrInPrefix(p) == p.addr / Pow2(32 - p.bits) * Pow2(32 - p.bits) + Pow2(32 - p.bits) - 1
  {
    LastAddrValue(p);
    var q, s := Shr(p.addr, 32 - p.bits), Size(p);
    ShrValue(p.addr, 32 - p.bits);
    ClearLowValue(p.addr, 32 - p.bits);
    QuotientUnique(p.addr, s, q);
  }

  lemma QuotientUnique(x: nat, s: nat, q: nat)
    requires s > 0 && q * s <= x < q * s + s
    ensures x / s == q
  {
    var r := x / s;
    assert x == r * s + x % s;
    var e := q - r;
    assert e * s == q * s - r * s;
    assert e >= 1 ==> e * s >= s;
    assert e <= -1 ==> e * s <= 0 - s;
  }

  /** A prefix is an interval of addresses. */
  lemma ContainsIsInterval(p: Prefix, a: nat)
    ensures Contains(p, a) <==> Network(p) <= a < Network(p) + Size(p)
  {
    ShrInterval(p.addr, a, 32 - p.bits);
  }

  /** The last address is contained and nothing contained lies above it. */
  lemma {:induction false} LastAddrIsMaximum(p: Prefix)
    ensures LastAddrInPrefix(p) < 0x1_0000_0000 && Contains(p, LastAddrInPrefix(p))
    ensures forall a: nat | Contains(p, a) :: a <= LastAddrInPrefix(p)
  {
    LastAddrValue(p);
    NetworkBound(p);
    ContainsIsInterval(p, LastAddrInPrefix(p));
    forall a: nat | Contains(p, a) ensures a <= LastAddrInPrefix(p) { ContainsIsInterval(p, a); }
  }

  // ---------- the last n addresses ----------

  /** All addresses of the prefix in ascending order. */
  function Enumerate(p: Prefix): (s: seq<nat>)
    ensures |s| == Size(p)
  {
    seq(Size(p), (i: nat) => Network(p) + i)
  }

  /** Enumerate lists exactly the contained addresses, in strictly ascending order. */
  lemma EnumerateIsPrefix(p: Prefix, a: nat)
    ensures a in Enumerate(p) <==> Contains(p, a)
    ensures forall i, j | 0 <= i < j < Size(p) :: Enumerate(p)[i] < Enumerate(p)[j]
  {
    ContainsIsInterval(p, a);
    if Contains(p, a) { assert Enumerate(p)[a - Network(p)] == a; }
  }

  function Min(a: int, b: int): int { if a <= b then a else b }

  function Max(a: int, b: int): int { if a >= b then a else b }

  /** How many addresses "the last n" of a prefix are: none for a negative n, never more than there are. */
  function LastCount(p: Prefix, n: int): (k: nat)
    ensures k <= Size(p)
  {
    Min(Max(n, 0), Size(p))
  }

  /** The last n elements of the ascending enumeration. */
  function LastN(p: Prefix, n: int): (s: seq<nat>)
    ensures |s| == LastCount(p, n)
  {
    Enumerate(p)[Size(p) - LastCount(p, n)..]
  }

  lemma EnumerateTail(p: Prefix, i: nat)
    requires i < Size(p)
    ensures Enumerate(p)[Size(p) - i - 1..] == [Network(p) + Size(p) - 1 - i] + Enumerate(p)[Size(p) - i..]
  {
    var all, k := Enumerate(p), Size(p) - i - 1;
    assert all[k] == Network(p) + k;
    assert all[k..] == [all[k]] + all[k + 1..];
  }

  lemma LastNSlice(p: Prefix, i: nat)
    requires i <= Size(p)
    ensures LastN(p, i) == Enumerate(p)[Size(p) - i..]
  {
    hide Enumerate, Network, Size;
    assert LastCount(p, i) == i;
  }

  /** One step of the walk: one more address. */
  lemma WalkStep(p: Prefix, i: nat, a: nat)
    requires i < Size(p) && a == Network(p) + Size(p) - 1 - i
    ensures [a] + LastN(p, i) == LastN(p, i + 1)
  {
    EnumerateTail(p, i);
    LastNSlice(p, i);
    LastNSlice(p, i + 1);
    hide Enumerate, Network, Size, LastN;
  }

  /** Below the address that the walk has reached there is another one of the prefix exactly when some are missing. */
  lemma WalkEnds(p: Prefix, i: nat, a: nat)
    requires i < Size(p) && a == Network(p) + Size(p) - 1 - i
    ensures a > 0 && Contains(p, a - 1) <==> i + 1 < Size(p)
  {
    if a > 0 { ContainsIsInterval(p, a - 1); }
    hide Contains, Network, Size;
  }

  /** More than all addresses are all addresses. */
  lemma WalkedAll(p: Prefix, n: int)
    requires n >= Size(p)
    ensures LastN(p, n) == LastN(p, Size(p))
  {
    hide Enumerate, Network, Size;
  }

  lemma NothingLast(p: Prefix, n: int)
    ensures LastN(p, 0) == [] && (n <= 0 ==> LastN(p, n) == [])
  {
    hide Enumerate, Network, Size;
  }

  method TopAddress(p: Prefix) returns (a: Addr)
    ensures a == Network(p) + Size(p) - 1
  {
    LastAddrIsMaximum(p);
    LastAddrValue(p);
    a := LastAddrInPrefix(p);
  }

  /** `getLastNIPs`: walk down from the last address, prepending, until n are found or the walk leaves the prefix. */
  method GetLastNIPs(p: Prefix, n: int) returns (ips: seq<nat>)
    ensures ips == LastN(p, n)
  {
    hide Enumerate, Network, Size, Contains, LastN;
    NothingLast(p, n);
    ips := [];
    var top := TopAddress(p);
    var current: Option<Addr> := Some(top);
    var i := 0;
    while i < n
      invariant 0 <= i < Size(p) && (i == 0 || i <= n)
      invariant current == Some(Network(p) + Size(p) - 1 - i)
      invariant ips == LastN(p, i)
    {
      WalkStep(p, i, current.value);
      WalkEnds(p, i, current.value);
      ips := [current.value] + ips;
      current := Prev(current.value);
      if current.None? || !Contains(p, current.value) {
        WalkedAll(p, n);
        return;
      }
      i := i + 1;
    }
  }

  /** The result in the caller's terms: consecutive, strictly increasing, inside the prefix, ending at its top address. */
  lemma {:induction false} LastNShape(p: Prefix, n: int)
    ensures forall i | 0 <= i < |LastN(p, n)| :: Contains(p, LastN(p, n)[i])
    ensures forall i | 0 <= i < |LastN(p, n)| - 1 :: LastN(p, n)[i + 1] == LastN(p, n)[i] + 1
    ensures n > 0 ==> LastN(p, n) != [] && LastN(p, n)[|LastN(p, n)| - 1] == LastAddrInPrefix(p)
  {
    LastAddrValue(p);
    var s := LastN(p, n);
    forall i | 0 <= i < |s| ensures Contains(p, s[i]) {
      assert s[i] == Enumerate(p)[Size(p) - |s| + i];
      ContainsIsInterval(p, s[i]);
    }
  }
}
