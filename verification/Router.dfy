/** The router's table: buckets by mask length, each sorted and binary-searched,
    against a plain longest-match scan. Addresses are network-order words as a
    little-endian host loads them. */
module Router {
  import opened Bytes

  const WORD := 0x1_0000_0000
  const HALF := 0x8000_0000

  type u32 = n: int | 0 <= n < 0x1_0000_0000

  datatype Entry = Entry(prefix: u32, nextHop: u32, mask: u32, interface: int)

  // ------------------------------------------------------------ words and masks

  function Pow2(n: nat): (p: nat)
    ensures p > 0
  {
    if n == 0 then 1 else 2 * Pow2(n - 1)
  }

  lemma {:induction false} Pow2Add(m: nat, n: nat)
    ensures Pow2(m) * Pow2(n) == Pow2(m + n)
  {
    if m > 0 {
      Pow2Add(m - 1, n);
      assert 2 * Pow2(m - 1) * Pow2(n) == 2 * (Pow2(m - 1) * Pow2(n));
    }
  }

  lemma Pow2Word()
    ensures Pow2(31) == HALF && Pow2(32) == WORD
  {
    assert Pow2(8) == 0x100;
    Pow2Add(8, 8);
    Pow2Add(16, 8);
    Pow2Add(24, 8);
  }

  /** One byte appended to a word. */
  function Push(high: nat, low: nat): nat {
    high * 0x100 + low
  }

  lemma PushPops(high: nat, low: nat)
    requires low < 0x100
    ensures Push(high, low) / 0x100 == high && Push(high, low) % 0x100 == low
  {
  }

  /** ntohl and htonl on a little-endian host. */
  function SwapBytes(x: u32): u32 {
    var x1: nat := x / 0x100;
    var x2: nat := x1 / 0x100;
    Push(Push(Push(x % 0x100, x1 % 0x100), x2 % 0x100), x2 / 0x100)
  }

  /** The address a.b.c.d, whose first byte in memory is the low one of the word, is the
      number with that byte in front. */
  lemma SwapsFourBytes(a: byte, b: byte, c: byte, d: byte)
    ensures SwapBytes(a + 0x100 * (b as int) + 0x1_0000 * (c as int) + 0x100_0000 * (d as int))
         == 0x100_0000 * (a as int) + 0x1_0000 * (b as int) + 0x100 * (c as int) + d
  {
    PushPops(d, c);
    PushPops(Push(d, c), b);
    PushPops(Push(Push(d, c), b), a);
  }

  lemma FourBytes(x: u32) returns (a: byte, b: byte, c: byte, d: byte)
    ensures x == Push(Push(Push(d, c), b), a) && SwapBytes(x) == Push(Push(Push(a, b), c), d)
  {
    var x1: nat := x / 0x100;
    var x2: nat := x1 / 0x100;
    a, b, c, d := x % 0x100, x1 % 0x100, x2 % 0x100, x2 / 0x100;
  }

  lemma SwapsPushed(a: byte, b: byte, c: byte, d: byte)
    ensures Push(Push(Push(d, c), b), a) < WORD
    ensures SwapBytes(Push(Push(Push(d, c), b), a)) == Push(Push(Push(a, b), c), d)
  {
    PushPops(d, c);
    PushPops(Push(d, c), b);
    PushPops(Push(Push(d, c), b), a);
  }

  lemma SwapTwice(x: u32)
    ensures SwapBytes(SwapBytes(x)) == x
  {
    var a, b, c, d := FourBytes(x);
    SwapsPushed(d, c, b, a);
  }

  /** The bitwise and, bit by bit. */
  function And(a: nat, b: nat): (r: nat)
    ensures r <= a && r <= b
  {
    if a == 0 || b == 0 then 0 else 2 * And(a / 2, b / 2) + a % 2 * (b % 2)
  }

  /** A left shift of a 32-bit register: the count is taken modulo 32. */
  function Shl(x: u32, n: nat): u32 {
    x * Pow2(n % 32) % WORD
  }

  /** n leading ones, in host order. */
  function LeadingOnes(n: nat): (r: u32)
    requires n <= 32
  {
    Pow2Word();
    Pow2Add(n, 32 - n);
    assert Pow2(32 - n) <= WORD by { MulGrows(Pow2(n), Pow2(32 - n)); }
    WORD - Pow2(32 - n)
  }

  lemma MulGrows(a: nat, b: nat)
    requires a > 0
    ensures b <= a * b
  {
  }

  predicate IsMask(mask: u32, n: nat) {
    n <= 32 && mask == SwapBytes(LeadingOnes(n))
  }

  /** get_subnet_mask in host order; its shifts by 32 are those of the hardware. */
  function HostMask(prefix: nat): u32
    requires prefix <= 32
  {
    Shl((Shl(1, prefix) - (if prefix == 32 then 2 else 1)) % WORD, 32 - prefix)
  }

  function SubnetMask(prefix: nat): u32
    requires prefix <= 32
  {
    SwapBytes(HostMask(prefix))
  }

  lemma ShlCount(x: u32, n: nat)
    requires n < 32
    ensures Shl(x, n) == x * Pow2(n) % WORD
  {
    assert n % 32 == n;
  }

  lemma ShlFits(x: u32, n: nat, y: nat)
    requires n < 32 && y == x * Pow2(n) && y < WORD
    ensures Shl(x, n) == y
  {
    ShlCount(x, n);
    ModSmall(y);
  }

  lemma ModSmall(y: nat)
    requires y < WORD
    ensures y % WORD == y
  {
  }

  lemma Distribute(p: int, q: int)
    ensures (p - 1) * q == p * q - q
  {
  }

  lemma OnesProduct(n: nat)
    requires n <= 32
    ensures (Pow2(n) - 1) * Pow2(32 - n) == LeadingOnes(n)
  {
    var p, q := Pow2(n), Pow2(32 - n);
    Pow2Word();
    Pow2Add(n, 32 - n);
    Distribute(p, q);
  }

  lemma HostMaskMiddle(n: nat)
    requires 0 < n < 32
    ensures HostMask(n) == LeadingOnes(n)
  {
    Pow2Bounds(n);
    ShlFits(1, n, Pow2(n));
    ModSmall(Pow2(n) - 1);
    OnesProduct(n);
    ShlFits(Pow2(n) - 1, 32 - n, LeadingOnes(n));
  }

  lemma SubnetMaskIsMask(n: nat)
    requires n <= 32
    ensures IsMask(SubnetMask(n), n)
  {
    Pow2Word();
    assert Pow2(0) == 1;
    if 0 < n < 32 {
      HostMaskMiddle(n);
    } else if n == 0 {
      assert Shl(1, 0) == 1 && HostMask(0) == Shl(0, 32) == 0;
    } else {
      assert Shl(1, 32) == 1 && HostMask(32) == Shl(WORD - 1, 0) == WORD - 1;
    }
  }

  lemma {:induction false} Pow2Bounds(n: nat)
    requires n < 32
    ensures 1 <= Pow2(n) <= HALF
    ensures n > 0 ==> Pow2(n) >= 2
  {
    Pow2Word();
    Pow2Mono(n, 31);
  }

  lemma {:induction false} Pow2Mono(m: nat, n: nat)
    requires m <= n
    ensures Pow2(m) <= Pow2(n)
  {
    if m < n { Pow2Mono(m, n - 1); }
  }

  // -------------------------------------------------------------- what a mask keeps

  lemma HalfOfOnes(x: nat, p: nat)
    requires x < 2 * p
    ensures (2 * p - 1) / 2 == p - 1 && (2 * p - 1) % 2 == 1 && x / 2 < p && 2 * (x / 2) + x % 2 == x
  {
  }

  lemma {:induction false} AndAllOnes(x: nat, n: nat)
    requires x < Pow2(n)
    ensures And(x, Pow2(n) - 1) == x
  {
    if n > 0 && x > 0 {
      HalfOfOnes(x, Pow2(n - 1));
      AndAllOnes(x / 2, n - 1);
    }
  }

  lemma AndStep(a: nat, b: nat)
    ensures And(a, b) == 2 * And(a / 2, b / 2) + a % 2 * (b % 2)
  {
  }

  lemma Halves(a: nat, m: nat, i: nat)
    requires i < 2 && a == 2 * m + i
    ensures a / 2 == m && a % 2 == i
  {
  }

  lemma LowBit(a: nat) returns (m: nat, i: nat)
    ensures i < 2 && a == 2 * m + i
  {
    m, i := a / 2, a % 2;
  }

  lemma AndBit(a: nat, b: nat, m: nat, i: nat, n: nat, j: nat)
    requires i < 2 && j < 2
    requires a == 2 * m + i && b == 2 * n + j
    ensures And(a, b) == 2 * And(m, n) + i * j
  {
    Halves(a, m, i);
    Halves(b, n, j);
    AndStep(a, b);
  }

  /** h with k zeros behind its bits. */
  function Raised(h: nat, k: nat): nat {
    if k == 0 then h else 2 * Raised(h, k - 1)
  }

  lemma {:induction false} RaisedIs(h: nat, k: nat)
    ensures Raised(h, k) == h * Pow2(k)
  {
    if k > 0 {
      RaisedIs(h, k - 1);
      assert h * (2 * Pow2(k - 1)) == 2 * (h * Pow2(k - 1));
    }
  }

  lemma {:induction false} AndRaised(h: nat, l: nat, h': nat, l': nat, k: nat, p: nat, q: nat)
    requires l < Pow2(k) && l' < Pow2(k)
    requires p == Raised(h, k) + l && q == Raised(h', k) + l'
    ensures And(p, q) == Raised(And(h, h'), k) + And(l, l')
    decreases k
  {
    if k > 0 {
      var m, i := LowBit(l);
      var n, j := LowBit(l');
      var p' := Raised(h, k - 1) + m;
      var q' := Raised(h', k - 1) + n;
      AndBit(p, q, p', i, q', j);
      AndBit(l, l', m, i, n, j);
      AndRaised(h, m, h', n, k - 1, p', q');
    }
  }

  /** High and low bits do not meet. */
  lemma AndSplits(h: nat, l: nat, h': nat, l': nat, k: nat, p: nat, q: nat)
    requires l < Pow2(k) && l' < Pow2(k)
    requires p == h * Pow2(k) + l && q == h' * Pow2(k) + l'
    ensures And(p, q) == And(h, h') * Pow2(k) + And(l, l')
  {
    RaisedIs(h, k);
    RaisedIs(h', k);
    RaisedIs(And(h, h'), k);
    AndRaised(h, l, h', l', k, p, q);
  }

  lemma AndPushed(h: nat, l: byte, h': nat, l': byte)
    ensures And(Push(h, l), Push(h', l')) == Push(And(h, h'), And(l, l'))
  {
    assert Pow2(8) == 0x100;
    AndSplits(h, l, h', l', 8, Push(h, l), Push(h', l'));
  }

  /** Byte order does not matter to a bitwise and. */
  lemma AndSwapped(x: u32, y: u32)
    ensures And(x, y) < WORD && SwapBytes(And(x, y)) == And(SwapBytes(x), SwapBytes(y))
  {
    var a, b, c, d := FourBytes(x);
    var a', b', c', d' := FourBytes(y);
    AndFour(a, b, c, d, a', b', c', d');
    AndFour(d, c, b, a, d', c', b', a');
    SwapsPushed(And(a, a'), And(b, b'), And(c, c'), And(d, d'));
  }

  lemma AndFour(a: byte, b: byte, c: byte, d: byte, a': byte, b': byte, c': byte, d': byte)
    ensures And(Push(Push(Push(d, c), b), a), Push(Push(Push(d', c'), b'), a'))
         == Push(Push(Push(And(d, d'), And(c, c')), And(b, b')), And(a, a'))
  {
    AndPushed(Push(Push(d, c), b), a, Push(Push(d', c'), b'), a');
    AndPushed(Push(d, c), b, Push(d', c'), b');
    AndPushed(d, c, d', c');
  }

  function Quotient(x: nat, p: nat): (q: nat)
    requires p > 0
    ensures q == x / p
  {
    x / p
  }

  lemma Divided(x: nat, p: nat) returns (q: nat, r: nat)
    requires p > 0
    ensures q == Quotient(x, p) && r < p && x == q * p + r
  {
    q, r := Quotient(x, p), x % p;
  }

  lemma TimesDifference(q: int, q': int, p: int)
    ensures (q - q') * p == q * p - q' * p
  {
  }

  lemma TimesAtLeast(d: int, p: nat)
    ensures d >= 1 ==> d * p >= p
    ensures d <= -1 ==> d * p + p <= 0
  {
  }

  lemma SameProduct(q: nat, q': nat, p: nat)
    requires p > 0
    ensures q == q' <==> q * p == q' * p
  {
    TimesDifference(q, q', p);
    TimesAtLeast(q - q', p);
  }

  lemma QuotientBelow(y: nat, p: nat, n: nat)
    requires p > 0 && y < n * p
    ensures Quotient(y, p) < n
  {
    var q, r := Divided(y, p);
    TimesDifference(q, n, p);
    TimesAtLeast(q - n, p);
  }

  /** The first n bits of an address. */
  function FirstBits(address: u32, n: nat): nat
    requires n <= 32
  {
    Quotient(SwapBytes(address), Pow2(32 - n))
  }

  /** n leading ones clear the bits behind the first n. */
  lemma AndLeading(y: u32, n: nat)
    requires n <= 32
    ensures And(y, LeadingOnes(n)) == Quotient(y, Pow2(32 - n)) * Pow2(32 - n)
  {
    Pow2Word();
    Pow2Add(n, 32 - n);
    var q, r := Divided(y, Pow2(32 - n));
    QuotientBelow(y, Pow2(32 - n), Pow2(n));
    OnesProduct(n);
    AndSplits(q, r, Pow2(n) - 1, 0, 32 - n, y, LeadingOnes(n));
    AndAllOnes(q, n);
    AndStep(r, 0);
  }

  /** What get_best_route looks for in a bucket: the first n bits of the address, and
      zeros. */
  lemma MaskKeepsFirstBits(x: u32, n: nat)
    requires n <= 32
    ensures And(x, SubnetMask(n)) < WORD
    ensures SwapBytes(And(x, SubnetMask(n))) == FirstBits(x, n) * Pow2(32 - n)
  {
    SubnetMaskIsMask(n);
    SwapTwice(LeadingOnes(n));
    AndSwapped(x, SubnetMask(n));
    AndLeading(SwapBytes(x), n);
  }

  // --------------------------------------------------------- get_prefix_length

  function TrailingZeros(x: nat): (z: nat)
    requires x > 0
  {
    if x % 2 == 1 then 0 else 1 + TrailingZeros(x / 2)
  }

  lemma {:induction false} TrailingZerosBound(x: nat, n: nat)
    requires 0 < x < Pow2(n)
    ensures n > 0 && TrailingZeros(x) < n
  {
    if x % 2 == 0 { TrailingZerosBound(x / 2, n - 1); }
  }

  /** A higher bit does not matter. */
  lemma {:induction false} TrailingZerosLow(y: nat, n: nat)
    requires 0 < y < Pow2(n)
    ensures TrailingZeros(y + Pow2(n)) == TrailingZeros(y)
  {
    assert n > 0;
    if y % 2 == 0 {
      TrailingZerosLow(y / 2, n - 1);
      assert (y + Pow2(n)) / 2 == y / 2 + Pow2(n - 1);
    }
  }

  /** The length of a mask given in host order: how far its last one is from the left. */
  function MaskLength(ip: u32): (n: nat)
    ensures n <= 32 && (n == 0 <==> ip == 0)
  {
    if ip == 0 then 0
    else
      Pow2Word();
      TrailingZerosBound(ip, 32);
      32 - TrailingZeros(ip)
  }

  /** Shifting the mask left takes one off its length. */
  lemma ShiftShortens(ip: u32)
    requires ip > 0
    ensures MaskLength(ip) == 1 + MaskLength(ip * 2 % WORD)
  {
    Doubled(ip);
    if ip < HALF {
      DoubleTrailing(ip);
    } else if ip == HALF {
      HalfLength();
    } else {
      Pow2Word();
      TrailingZerosLow(ip - HALF, 31);
      DoubleTrailing(ip - HALF);
    }
  }

  lemma Doubled(ip: u32)
    ensures ip * 2 % WORD == if ip < HALF then 2 * ip else 2 * (ip - HALF)
  {
  }

  lemma DoubleTrailing(x: nat)
    requires x > 0
    ensures TrailingZeros(2 * x) == 1 + TrailingZeros(x)
  {
    assert 2 * x % 2 == 0 && 2 * x / 2 == x;
  }

  lemma {:induction false} PowerTrailing(n: nat)
    ensures TrailingZeros(Pow2(n)) == n
  {
    if n > 0 { PowerTrailing(n - 1); }
  }

  lemma HalfLength()
    ensures MaskLength(HALF) == 1
  {
    Pow2Word();
    PowerTrailing(31);
    assert TrailingZeros(HALF) == TrailingZeros(Pow2(31));
  }

  method GetPrefixLength(mask: u32) returns (prefix: nat)
    ensures prefix == MaskLength(SwapBytes(mask))
  {
    var ip: u32 := SwapBytes(mask);
    prefix := 0;
    while ip > 0
      invariant prefix + MaskLength(ip) == MaskLength(SwapBytes(mask))
      decreases MaskLength(ip)
    {
      ShiftShortens(ip);
      ip := ip * 2 % WORD;
      prefix := prefix + 1;
    }
  }

  lemma {:induction false} OnesLength(n: nat)
    requires n <= 32
    ensures MaskLength(LeadingOnes(n)) == n
  {
    Pow2Word();
    if n > 0 {
      Pow2Bounds(32 - n);
      ShiftShortens(LeadingOnes(n));
      OnesLength(n - 1);
      assert Pow2(32 - (n - 1)) == 2 * Pow2(32 - n);
      OnesShift(Pow2(32 - n));
    } else {
      assert LeadingOnes(0) == 0;
    }
  }

  lemma OnesShift(p: nat)
    requires 1 <= p <= HALF
    ensures (WORD - p) * 2 % WORD == WORD - 2 * p
  {
  }

  /** A contiguous mask of length n is filed in bucket n and is the mask the lookup
      uses there. */
  lemma MaskFiled(mask: u32, n: nat)
    requires IsMask(mask, n)
    ensures MaskLength(SwapBytes(mask)) == n && SubnetMask(n) == mask
  {
    SwapTwice(LeadingOnes(n));
    OnesLength(n);
    SubnetMaskIsMask(n);
  }

  // -------------------------------------------------------- sorting a bucket

  /** entry_compare: the unsigned difference wraps and is read as a signed int. */
  function EntryCompare(a: Entry, b: Entry): (c: int)
    ensures -HALF <= c < HALF
  {
    var d := (a.prefix - b.prefix) % WORD;
    if d < HALF then d else d - WORD
  }

  /** The difference, once around at the most. */
  lemma CompareWraps(a: Entry, b: Entry)
    ensures -HALF <= a.prefix - b.prefix < HALF ==> EntryCompare(a, b) == a.prefix - b.prefix
    ensures a.prefix - b.prefix >= HALF ==> EntryCompare(a, b) == a.prefix - b.prefix - WORD
    ensures a.prefix - b.prefix < -HALF ==> EntryCompare(a, b) == a.prefix - b.prefix + WORD
  {
  }

  predicate Ascending(b: seq<Entry>) {
    forall i, j :: 0 <= i < j < |b| ==> b[i].prefix <= b[j].prefix
  }

  /** Any two prefixes differ by less than 2^31. */
  predicate Near(b: seq<Entry>) {
    forall e, f :: e in b && f in b ==> e.prefix - f.prefix < HALF
  }

  /** The order qsort is told to establish. */
  predicate Sorted(b: seq<Entry>) {
    forall i, j :: 0 <= i < j < |b| ==> EntryCompare(b[i], b[j]) <= 0
  }

  /** An earlier prefix is never larger than a later one by 2^31 or more. */
  predicate WrapFree(b: seq<Entry>) {
    forall i, j :: 0 <= i < j < |b| ==> b[i].prefix - b[j].prefix < HALF
  }

  /** A bucket sorted by entry_compare is in the unsigned order the search relies on
      exactly when no difference wrapped. */
  lemma SortedAscends(b: seq<Entry>)
    requires Sorted(b)
    ensures Ascending(b) <==> WrapFree(b)
  {
    if WrapFree(b) {
      forall i, j | 0 <= i < j < |b| ensures b[i].prefix <= b[j].prefix {
        assert EntryCompare(b[i], b[j]) <= 0;
      }
    }
  }

  /** If two prefixes are more than 2^31 apart, no arrangement that entry_compare
      accepts is in unsigned order. */
  lemma FarApartNeverAscends(b: seq<Entry>, e: Entry, f: Entry)
    requires Sorted(b) && e in b && f in b && f.prefix - e.prefix > HALF
    ensures !Ascending(b)
  {
    var i :| 0 <= i < |b| && b[i] == e;
    var j :| 0 <= j < |b| && b[j] == f;
    ComparesBackwards(e, f);
    assert j < i;
  }

  lemma ComparesBackwards(e: Entry, f: Entry)
    requires f.prefix - e.prefix > HALF
    ensures EntryCompare(e, f) > 0
  {
  }

  /** qsort with entry_compare, here by insertion: any sort that permutes and orders
      by the comparison would do. */
  function Insert(e: Entry, b: seq<Entry>): (r: seq<Entry>)
    ensures multiset(r) == multiset(b) + multiset{e}
    decreases |b|
  {
    if b == [] || EntryCompare(e, b[0]) <= 0 then [e] + b
    else
      assert b == [b[0]] + b[1..];
      [b[0]] + Insert(e, b[1..])
  }

  function Qsort(b: seq<Entry>): (r: seq<Entry>)
    ensures multiset(r) == multiset(b)
    decreases |b|
  {
    if b == [] then []
    else
      assert b == [b[0]] + b[1..];
      Insert(b[0], Qsort(b[1..]))
  }

  lemma SameElements(a: seq<Entry>, b: seq<Entry>)
    requires multiset(a) == multiset(b)
    ensures forall e :: e in a <==> e in b
  {
    forall e ensures e in a <==> e in b {
      assert e in multiset(a) <==> e in multiset(b);
    }
  }

  lemma ConsAscends(e: Entry, b: seq<Entry>)
    requires Ascending(b) && forall f :: f in b ==> e.prefix <= f.prefix
    ensures Ascending([e] + b)
  {
  }

  lemma InsertElements(e: Entry, b: seq<Entry>)
    ensures forall f :: f in Insert(e, b) ==> f == e || f in b
  {
    assert multiset(Insert(e, b)) == multiset([e] + b);
    SameElements(Insert(e, b), [e] + b);
  }

  /** Within less than 2^31 the comparison is that of the unsigned prefixes. */
  lemma CompareNear(e: Entry, f: Entry)
    requires e.prefix - f.prefix < HALF && f.prefix - e.prefix < HALF
    ensures EntryCompare(e, f) <= 0 <==> e.prefix <= f.prefix
  {
  }

  lemma {:induction false} InsertAscends(e: Entry, b: seq<Entry>)
    requires Ascending(b) && forall f :: f in b ==> e.prefix - f.prefix < HALF && f.prefix - e.prefix < HALF
    ensures Ascending(Insert(e, b))
    decreases |b|
  {
    if b != [] {
      CompareNear(e, b[0]);
      if EntryCompare(e, b[0]) <= 0 {
        ConsAscends(e, b);
      } else {
        InsertAscends(e, b[1..]);
        InsertElements(e, b[1..]);
        ConsAscends(b[0], Insert(e, b[1..]));
      }
    }
  }

  lemma {:induction false} QsortAscends(b: seq<Entry>)
    requires Near(b)
    ensures Ascending(Qsort(b))
    decreases |b|
  {
    if b != [] {
      var rest := b[1..];
      assert forall f :: f in rest ==> f in b;
      QsortAscends(rest);
      SameElements(Qsort(rest), rest);
      InsertAscends(b[0], Qsort(rest));
    }
  }

  // ------------------------------------------------------- searching a bucket

  /** The binary search of get_best_route between left and right. */
  function Search(b: seq<Entry>, key: u32, left: int, right: int): (r: Option<nat>)
    requires 0 <= left && right < |b|
    ensures r.Some? ==> left <= r.value <= right && b[r.value].prefix == key
    decreases right - left
  {
    if left > right then None
    else
      var mid := (left + right) / 2;
      if key == b[mid].prefix then Some(mid)
      else if key < b[mid].prefix then Search(b, key, left, mid - 1)
      else Search(b, key, mid + 1, right)
  }

  method SearchBucket(b: seq<Entry>, key: u32) returns (r: Option<nat>)
    ensures r == Search(b, key, 0, |b| - 1)
  {
    var left, right := 0, |b| - 1;
    while left <= right
      invariant 0 <= left && right < |b|
      invariant Search(b, key, left, right) == Search(b, key, 0, |b| - 1)
      decreases right - left
    {
      var mid := (left + right) / 2;
      if key == b[mid].prefix { return Some(mid); }
      if key < b[mid].prefix {
        right := mid - 1;
      } else {
        left := mid + 1;
      }
    }
    r := None;
  }

  /** In an ascending bucket the search misses nothing. */
  lemma {:induction false} SearchComplete(b: seq<Entry>, key: u32, left: int, right: int, k: nat)
    requires 0 <= left <= k <= right < |b| && Ascending(b) && b[k].prefix == key
    ensures Search(b, key, left, right).Some?
    decreases right - left
  {
    var mid := (left + right) / 2;
    if key < b[mid].prefix {
      assert k < mid;
      SearchComplete(b, key, left, mid - 1, k);
    } else if key > b[mid].prefix {
      assert k > mid;
      SearchComplete(b, key, mid + 1, right, k);
    }
  }

  predicate DistinctPrefixes(b: seq<Entry>) {
    forall i, j :: 0 <= i < j < |b| ==> b[i].prefix != b[j].prefix
  }

  predicate FindsAll(b: seq<Entry>, left: int, right: int)
    requires 0 <= left && right < |b|
  {
    forall k {:trigger Search(b, b[k].prefix, left, right)} ::
      left <= k <= right ==> Search(b, b[k].prefix, left, right).Some?
  }

  /** Conversely, a bucket in which the search finds every entry is ascending: the
      middle entry splits it and each half finds its own. */
  lemma {:induction false} FindsAllAscends(b: seq<Entry>, left: int, right: int)
    requires 0 <= left && right < |b| && DistinctPrefixes(b) && FindsAll(b, left, right)
    ensures AscendsBetween(b, left, right)
    decreases right - left
  {
    if left < right {
      var mid := (left + right) / 2;
      FindsAllLeft(b, left, mid, right);
      FindsAllRight(b, left, mid, right);
      FindsAllAscends(b, left, mid - 1);
      FindsAllAscends(b, mid + 1, right);
      AscendsAround(b, left, mid, right);
    }
  }

  predicate AscendsBetween(b: seq<Entry>, left: int, right: int)
    requires 0 <= left && right < |b|
  {
    forall i, j :: left <= i < j <= right ==> b[i].prefix < b[j].prefix
  }

  lemma AscendsAround(b: seq<Entry>, left: int, mid: int, right: int)
    requires 0 <= left <= mid <= right < |b|
    requires forall k :: left <= k < mid ==> b[k].prefix < b[mid].prefix
    requires forall k :: mid < k <= right ==> b[mid].prefix < b[k].prefix
    requires AscendsBetween(b, left, mid - 1) && AscendsBetween(b, mid + 1, right)
    ensures AscendsBetween(b, left, right)
  {
  }

  lemma FindsAllLeft(b: seq<Entry>, left: int, mid: int, right: int)
    requires 0 <= left <= right < |b| && DistinctPrefixes(b) && FindsAll(b, left, right) && mid == (left + right) / 2
    ensures FindsAll(b, left, mid - 1) && forall k :: left <= k < mid ==> b[k].prefix < b[mid].prefix
  {
    forall k | left <= k < mid ensures b[k].prefix < b[mid].prefix && Search(b, b[k].prefix, left, mid - 1).Some? {
      FoundOnItsSide(b, left, right, k);
    }
  }

  lemma FindsAllRight(b: seq<Entry>, left: int, mid: int, right: int)
    requires 0 <= left <= right < |b| && DistinctPrefixes(b) && FindsAll(b, left, right) && mid == (left + right) / 2
    ensures FindsAll(b, mid + 1, right) && forall k :: mid < k <= right ==> b[mid].prefix < b[k].prefix
  {
    forall k | mid < k <= right ensures b[mid].prefix < b[k].prefix && Search(b, b[k].prefix, mid + 1, right).Some? {
      FoundOnItsSide(b, left, right, k);
    }
  }

  lemma FoundOnItsSide(b: seq<Entry>, left: int, right: int, k: int)
    requires 0 <= left <= k <= right < |b| && DistinctPrefixes(b) && Search(b, b[k].prefix, left, right).Some?
    ensures var mid := (left + right) / 2;
            && (k < mid ==> b[k].prefix < b[mid].prefix && Search(b, b[k].prefix, left, mid - 1).Some?)
            && (k > mid ==> b[mid].prefix < b[k].prefix && Search(b, b[k].prefix, mid + 1, right).Some?)
  {
    var mid := (left + right) / 2;
    if k != mid { assert b[k].prefix != b[mid].prefix; }
  }

  /** The search finds every prefix of a bucket exactly when the bucket is ascending. */
  lemma SearchNeedsOrder(b: seq<Entry>)
    requires DistinctPrefixes(b)
    ensures FindsAll(b, 0, |b| - 1) <==> Ascending(b)
  {
    if Ascending(b) {
      forall k | 0 <= k <= |b| - 1 ensures Search(b, b[k].prefix, 0, |b| - 1).Some? {
        SearchComplete(b, b[k].prefix, 0, |b| - 1, k);
      }
    }
    if FindsAll(b, 0, |b| - 1) { FindsAllAscends(b, 0, |b| - 1); }
  }

  // ------------------------------------------------------------ the whole table

  function Length(e: Entry): (n: nat)
    ensures n <= 32
  {
    MaskLength(SwapBytes(e.mask))
  }

  /** A contiguous mask and a prefix without host bits. */
  predicate GoodEntry(e: Entry) {
    && IsMask(e.mask, Length(e))
    && SwapBytes(e.prefix) == FirstBits(e.prefix, Length(e)) * Pow2(32 - Length(e))
  }

  /** Section 5.2.4.3 of RFC 1812: the destination agrees with the prefix in as many bits
      as the mask has ones. */
  predicate Matches(e: Entry, dest: u32) {
    FirstBits(dest, Length(e)) == FirstBits(e.prefix, Length(e))
  }

  /** r is a route of greatest mask length among those that match. */
  predicate IsBest(entries: seq<Entry>, dest: u32, r: Option<Entry>) {
    match r
    case None => forall e :: e in entries ==> !Matches(e, dest)
    case Some(best) =>
      && best in entries && Matches(best, dest)
      && forall e :: e in entries && Matches(e, dest) ==> Length(e) <= Length(best)
  }

  /** The entries of mask length n, in the order of the file. */
  function Filed(entries: seq<Entry>, n: nat): (b: seq<Entry>)
    ensures forall e :: e in b <==> e in entries && Length(e) == n
  {
    if entries == [] then []
    else
      var last := entries[|entries| - 1];
      assert entries == entries[..|entries| - 1] + [last];
      Filed(entries[..|entries| - 1], n) + (if Length(last) == n then [last] else [])
  }

  lemma FiledStep(entries: seq<Entry>, k: nat, n: nat)
    requires k < |entries|
    ensures Filed(entries[..k + 1], n) ==
            Filed(entries[..k], n) + (if Length(entries[k]) == n then [entries[k]] else [])
  {
    assert entries[..k + 1][..k] == entries[..k];
  }

  /** The buckets hold the entries by mask length, each in unsigned order. */
  ghost predicate TableOf(buckets: seq<seq<Entry>>, entries: seq<Entry>) {
    && |buckets| == 33
    && forall n :: 0 <= n <= 32 ==>
         Ascending(buckets[n]) && forall e :: e in buckets[n] <==> e in entries && Length(e) == n
  }

  /** What get_best_route looks for in each bucket. */
  function Keys(dest: u32): (keys: seq<u32>)
    ensures |keys| == 33 && forall n :: 0 <= n <= 32 ==> keys[n] == And(dest, SubnetMask(n))
  {
    seq(33, n requires 0 <= n < 33 => And(dest, SubnetMask(n)))
  }

  /** get_best_route from bucket n downwards. */
  function Lookup(buckets: seq<seq<Entry>>, keys: seq<u32>, n: int): Option<Entry>
    requires |buckets| == |keys| == 33 && n <= 32
    decreases n + 1
  {
    if n < 0 then None
    else
      match Search(buckets[n], keys[n], 0, |buckets[n]| - 1)
      case Some(i) => Some(buckets[n][i])
      case None => Lookup(buckets, keys, n - 1)
  }

  /** What the table answers: the buckets are searched from the longest masks down. */
  function Route(buckets: seq<seq<Entry>>, dest: u32): Option<Entry>
    requires |buckets| == 33
  {
    Lookup(buckets, Keys(dest), |buckets| - 1)
  }

  /** Lookup finds nothing from bucket n down, or an entry e of a bucket m <= n such
      that no bucket above m holds its key. */
  ghost predicate FirstHit(buckets: seq<seq<Entry>>, keys: seq<u32>, n: int, r: Option<Entry>)
    requires |buckets| == |keys| == 33 && n <= 32
  {
    match r
    case None => forall m, e :: 0 <= m <= n && e in buckets[m] ==> e.prefix != keys[m]
    case Some(best) =>
      exists top :: 0 <= top <= n && best in buckets[top] && best.prefix == keys[top]
                    && forall m, e :: top < m <= n && e in buckets[m] ==> e.prefix != keys[m]
  }

  lemma {:induction false} LookupFirstHit(buckets: seq<seq<Entry>>, keys: seq<u32>, n: int)
    requires |buckets| == |keys| == 33 && -1 <= n <= 32
    requires forall m :: 0 <= m <= 32 ==> Ascending(buckets[m])
    ensures FirstHit(buckets, keys, n, Lookup(buckets, keys, n))
    decreases n + 1
  {
    if n >= 0 {
      var b := buckets[n];
      var r := Search(b, keys[n], 0, |b| - 1);
      if r.Some? {
        HitHere(buckets, keys, n, b[r.value]);
      } else {
        forall e | e in b ensures e.prefix != keys[n] { MissedNothing(b, e, keys[n]); }
        LookupFirstHit(buckets, keys, n - 1);
        HitBelow(buckets, keys, n, Lookup(buckets, keys, n - 1));
      }
    }
  }

  lemma HitHere(buckets: seq<seq<Entry>>, keys: seq<u32>, n: nat, e: Entry)
    requires |buckets| == |keys| == 33 && n <= 32 && e in buckets[n] && e.prefix == keys[n]
    ensures FirstHit(buckets, keys, n, Some(e))
  {
  }

  lemma HitBelow(buckets: seq<seq<Entry>>, keys: seq<u32>, n: nat, r: Option<Entry>)
    requires |buckets| == |keys| == 33 && n <= 32 && FirstHit(buckets, keys, n - 1, r)
    requires forall e :: e in buckets[n] ==> e.prefix != keys[n]
    ensures FirstHit(buckets, keys, n, r)
  {
  }

  lemma MissedNothing(b: seq<Entry>, e: Entry, key: u32)
    requires Ascending(b) && e in b && Search(b, key, 0, |b| - 1).None?
    ensures e.prefix != key
  {
    var k :| 0 <= k < |b| && b[k] == e;
    if e.prefix == key { SearchComplete(b, key, 0, |b| - 1, k); }
  }

  /** In its bucket, a good entry matches exactly when its prefix is the key. */
  lemma MatchIsKey(e: Entry, dest: u32)
    ensures GoodEntry(e) ==> (Matches(e, dest) <==> e.prefix == Keys(dest)[Length(e)])
  {
    var n := Length(e);
    var key := MaskedAddress(dest, n);
    assert Keys(dest)[n] == key;
    if GoodEntry(e) {
      SameSwapped(e.prefix, key);
      SameProduct(FirstBits(dest, n), FirstBits(e.prefix, n), Pow2(32 - n));
    }
  }

  lemma MaskedAddress(dest: u32, n: nat) returns (key: u32)
    requires n <= 32
    ensures key == And(dest, SubnetMask(n)) && SwapBytes(key) == FirstBits(dest, n) * Pow2(32 - n)
  {
    MaskKeepsFirstBits(dest, n);
    key := And(dest, SubnetMask(n));
  }

  lemma SameSwapped(x: u32, y: u32)
    ensures x == y <==> SwapBytes(x) == SwapBytes(y)
  {
    SwapTwice(x);
    SwapTwice(y);
  }

  /** The routing table object; buckets stands for the 33 growing arrays. */
  class Rtable {
    var buckets: seq<seq<Entry>>

    constructor ()
      ensures buckets == seq(33, _ => [])
    {
      buckets := seq(33, _ => []);
    }

    /** The first half of parse_rtable: the parsed lines of the file are filed. */
    method FillBuckets(entries: seq<Entry>)
      requires buckets == seq(33, _ => [])
      modifies this
      ensures |buckets| == 33 && forall n :: 0 <= n <= 32 ==> buckets[n] == Filed(entries, n)
    {
      for k := 0 to |entries|
        invariant |buckets| == 33
        invariant forall n :: 0 <= n <= 32 ==> buckets[n] == Filed(entries[..k], n)
      {
        var idx := GetPrefixLength(entries[k].mask);
        forall n | 0 <= n <= 32
          ensures Filed(entries[..k + 1], n) == Filed(entries[..k], n) + (if n == idx then [entries[k]] else [])
        {
          FiledStep(entries, k, n);
        }
        buckets := buckets[idx := buckets[idx] + [entries[k]]];
      }
      assert entries[..|entries|] == entries;
    }

    /** The second half: every bucket in use is sorted. */
    method SortBuckets()
      requires |buckets| == 33
      modifies this
      ensures |buckets| == 33 && forall n :: 0 <= n <= 32 ==> buckets[n] == Qsort(old(buckets[n]))
    {
      for i := 0 to 33
        invariant |buckets| == 33
        invariant forall n :: 0 <= n < i ==> buckets[n] == Qsort(old(buckets[n]))
        invariant forall n :: i <= n <= 32 ==> buckets[n] == old(buckets[n])
      {
        if |buckets[i]| != 0 { buckets := buckets[i := Qsort(buckets[i])]; }
      }
    }

    method ParseRtable(entries: seq<Entry>)
      requires buckets == seq(33, _ => [])
      modifies this
      ensures |buckets| == 33
      ensures forall n :: 0 <= n <= 32 ==> buckets[n] == Qsort(Filed(entries, n))
    {
      FillBuckets(entries);
      SortBuckets();
    }

    method GetBestRoute(dest: u32) returns (r: Option<Entry>)
      requires |buckets| == 33
      ensures r == Route(buckets, dest)
    {
      ghost var keys := Keys(dest);
      var i := 32;
      while i >= 0
        invariant -1 <= i <= 32 && Route(buckets, dest) == Lookup(buckets, keys, i)
      {
        var b := buckets[i];
        if |b| != 0 {
          var k := SearchBucket(b, And(dest, SubnetMask(i)));
          if k.Some? { return Some(b[k.value]); }
        }
        i := i - 1;
      }
      r := None;
    }
  }

  /** Every entry's mask is contiguous, no prefix has host bits, and within a bucket
      prefixes are less than 2^31 apart. */
  predicate GoodTable(entries: seq<Entry>) {
    && (forall e :: e in entries ==> GoodEntry(e))
    && forall n :: 0 <= n <= 32 ==> Near(Filed(entries, n))
  }

  /** The elements of f in an order entry_compare accepts: all that qsort promises. */
  ghost predicate Arranged(b: seq<Entry>, f: seq<Entry>) {
    Sorted(b) && multiset(b) == multiset(f)
  }

  lemma QsortArranges(f: seq<Entry>)
    requires Near(f)
    ensures Arranged(Qsort(f), f)
  {
    QsortAscends(f);
    SameElements(Qsort(f), f);
    var b := Qsort(f);
    forall i, j | 0 <= i < j < |b| ensures EntryCompare(b[i], b[j]) <= 0 {
      assert b[i] in f && b[j] in f;
      CompareNear(b[i], b[j]);
    }
  }

  /** The table built from a good file answers every lookup with a longest match, however
      qsort arranges equal prefixes. */
  lemma LongestMatch(entries: seq<Entry>, buckets: seq<seq<Entry>>, dest: u32)
    requires GoodTable(entries) && |buckets| == 33
    requires forall n :: 0 <= n <= 32 ==> Arranged(buckets[n], Filed(entries, n))
    ensures IsBest(entries, dest, Route(buckets, dest))
  {
    forall n | 0 <= n <= 32
      ensures Ascending(buckets[n]) && forall e :: e in buckets[n] <==> e in entries && Length(e) == n
    {
      assert Near(Filed(entries, n));
      SameElements(buckets[n], Filed(entries, n));
      SortedAscends(buckets[n]);
    }
    forall e | e in entries ensures Matches(e, dest) <==> e.prefix == Keys(dest)[Length(e)] { MatchIsKey(e, dest); }
    LookupFirstHit(buckets, Keys(dest), 32);
    FirstHitIsBest(buckets, entries, dest, Route(buckets, dest));
  }

  lemma FirstHitIsBest(buckets: seq<seq<Entry>>, entries: seq<Entry>, dest: u32, r: Option<Entry>)
    requires TableOf(buckets, entries) && FirstHit(buckets, Keys(dest), 32, r)
    requires forall e :: e in entries ==> (Matches(e, dest) <==> e.prefix == Keys(dest)[Length(e)])
    ensures IsBest(entries, dest, r)
  {
    forall e | e in entries ensures e in buckets[Length(e)] {}
  }

  /** parse_rtable and then get_best_route, on the lines of the file. */
  method BestRoute(entries: seq<Entry>, dest: u32) returns (r: Option<Entry>)
    ensures GoodTable(entries) ==> IsBest(entries, dest, r)
  {
    var table := new Rtable();
    table.ParseRtable(entries);
    r := table.GetBestRoute(dest);
    if GoodTable(entries) {
      forall n | 0 <= n <= 32 ensures Arranged(table.buckets[n], Filed(entries, n)) {
        assert Near(Filed(entries, n));
        QsortArranges(Filed(entries, n));
      }
      LongestMatch(entries, table.buckets, dest);
    }
  }

  // ------------------------------------------------ when the comparison misleads

  /** After sorting by entry_compare, the search finds every entry of a bucket exactly
      when no difference wrapped. */
  lemma SearchNeedsNoWrap(b: seq<Entry>)
    requires Sorted(b) && DistinctPrefixes(b)
    ensures FindsAll(b, 0, |b| - 1) <==> WrapFree(b)
  {
    SortedAscends(b);
    SearchNeedsOrder(b);
  }

  /** Two prefixes more than 2^31 apart: however qsort arranges the bucket by
      entry_compare, some entry is never found. */
  lemma FarApartIsMissed(b: seq<Entry>, e: Entry, f: Entry)
    requires Sorted(b) && DistinctPrefixes(b) && e in b && f in b && f.prefix - e.prefix > HALF
    ensures exists k :: 0 <= k < |b| && Search(b, b[k].prefix, 0, |b| - 1).None?
  {
    FarApartNeverAscends(b, e, f);
    SearchNeedsOrder(b);
  }

  predicate NoneHalfApart(f: seq<Entry>) {
    forall e, g :: e in f && g in f ==> e.prefix - g.prefix != HALF
  }

  lemma Twice(s: seq<Entry>, e: Entry) returns (i: nat, j: nat)
    requires multiset(s)[e] >= 2
    ensures i < j < |s| && s[i] == s[j] == e
  {
    var last := |s| - 1;
    assert s == s[..last] + [s[last]];
    if s[last] == e {
      assert e in multiset(s[..last]);
      i :| 0 <= i < last && s[..last][i] == e;
      j := last;
    } else {
      i, j := Twice(s[..last], e);
    }
  }

  lemma CountedTwice(s: seq<Entry>, i: nat, j: nat)
    requires i < j < |s| && s[i] == s[j]
    ensures multiset(s)[s[i]] >= 2
  {
    assert s == s[..j] + s[j..];
    assert s[i] in s[..j] && s[i] in s[j..];
  }

  lemma DistinctHoweverArranged(b: seq<Entry>, f: seq<Entry>)
    requires multiset(b) == multiset(f) && DistinctPrefixes(f)
    ensures DistinctPrefixes(b)
  {
    SameElements(b, f);
    forall i, j | 0 <= i < j < |b| ensures b[i].prefix != b[j].prefix {
      assert b[i] in f && b[j] in f;
      if b[i] == b[j] {
        CountedTwice(b, i, j);
        var p, q := Twice(f, b[i]);
      }
    }
  }

  /** In every order the comparison accepts, the search finds all entries exactly when no
      two are more than 2^31 apart. */
  lemma ArrangedNeedsNear(b: seq<Entry>, f: seq<Entry>)
    requires Arranged(b, f) && DistinctPrefixes(f) && NoneHalfApart(f)
    ensures FindsAll(b, 0, |b| - 1) <==> Near(f)
  {
    DistinctHoweverArranged(b, f);
    SameElements(b, f);
    SearchNeedsOrder(b);
    if Near(f) {
      SortedAscends(b);
    } else {
      var e, g :| e in f && g in f && e.prefix - g.prefix >= HALF;
      FarApartNeverAscends(b, g, e);
    }
  }

  predicate Below(e: Entry, f: Entry) {
    EntryCompare(e, f) < 0
  }

  /** The comparison never goes round in a circle. */
  predicate NoneRound(f: seq<Entry>) {
    forall e, g, h :: e in f && g in f && h in f ==> !(Below(e, g) && Below(g, h) && Below(h, e))
  }

  /** Up to prefixes 2^31 apart, exactly one of two is below the other, or they are equal. */
  lemma BelowOrNot(e: Entry, g: Entry)
    requires e.prefix - g.prefix != HALF && g.prefix - e.prefix != HALF
    ensures EntryCompare(e, g) <= 0 <==> !Below(g, e)
    ensures EntryCompare(e, g) == 0 <==> e.prefix == g.prefix
  {
  }

  lemma NotAbove(f: seq<Entry>, e: Entry, g: Entry, h: Entry)
    requires NoneHalfApart(f) && NoneRound(f) && e in f && g in f && h in f
    requires EntryCompare(e, g) <= 0 && EntryCompare(g, h) <= 0
    ensures EntryCompare(e, h) <= 0
  {
    BelowOrNot(e, h);
    BelowOrNot(e, g);
    BelowOrNot(g, h);
  }

  lemma ConsSorted(e: Entry, b: seq<Entry>)
    requires Sorted(b) && forall k :: 0 <= k < |b| ==> EntryCompare(e, b[k]) <= 0
    ensures Sorted([e] + b)
  {
  }

  lemma {:induction false} InsertSorted(f: seq<Entry>, e: Entry, b: seq<Entry>)
    requires NoneHalfApart(f) && NoneRound(f) && e in f && forall g :: g in b ==> g in f
    requires Sorted(b)
    ensures Sorted(Insert(e, b))
    decreases |b|
  {
    if b != [] {
      var rest := b[1..];
      if EntryCompare(e, b[0]) <= 0 {
        forall k | 0 <= k < |b| ensures EntryCompare(e, b[k]) <= 0 {
          if k > 0 { NotAbove(f, e, b[0], b[k]); }
        }
        ConsSorted(e, b);
      } else {
        InsertSorted(f, e, rest);
        InsertElements(e, rest);
        BelowOrNot(b[0], e);
        forall k | 0 <= k < |Insert(e, rest)| ensures EntryCompare(b[0], Insert(e, rest)[k]) <= 0 {
          AboveFirst(b, Insert(e, rest)[k], e);
        }
        ConsSorted(b[0], Insert(e, rest));
      }
    }
  }

  lemma AboveFirst(b: seq<Entry>, g: Entry, e: Entry)
    requires b != [] && Sorted(b) && (g == e || g in b[1..]) && EntryCompare(b[0], e) <= 0
    ensures EntryCompare(b[0], g) <= 0
  {
    if g != e {
      var k :| 0 <= k < |b[1..]| && b[1..][k] == g;
      assert b[k + 1] == g;
    }
  }

  lemma {:induction false} QsortSorted(f: seq<Entry>, b: seq<Entry>)
    requires NoneHalfApart(f) && NoneRound(f) && forall g :: g in b ==> g in f
    ensures Sorted(Qsort(b))
    decreases |b|
  {
    if b != [] {
      QsortSorted(f, b[1..]);
      SameElements(Qsort(b[1..]), b[1..]);
      InsertSorted(f, b[0], Qsort(b[1..]));
    }
  }

  lemma SortedNotRound(b: seq<Entry>, e: Entry, g: Entry, h: Entry)
    requires Sorted(b) && NoneHalfApart(b) && e in b && g in b && h in b
    ensures !(Below(e, g) && Below(g, h) && Below(h, e))
  {
    var i :| 0 <= i < |b| && b[i] == e;
    var j :| 0 <= j < |b| && b[j] == g;
    var k :| 0 <= k < |b| && b[k] == h;
    BelowOrNot(g, e);
    BelowOrNot(h, g);
    BelowOrNot(e, h);
  }

  /** Where the comparison goes round, no order is one it accepts. */
  lemma ArrangedNotRound(b: seq<Entry>, f: seq<Entry>)
    requires Arranged(b, f) && NoneHalfApart(f)
    ensures NoneRound(f)
  {
    SameElements(b, f);
    forall e, g, h | e in f && g in f && h in f ensures !(Below(e, g) && Below(g, h) && Below(h, e)) {
      SortedNotRound(b, e, g, h);
    }
  }

  /** qsort can be told to sort by entry_compare exactly when the comparison never goes
      round; where it does, ISO C leaves the call undefined (section 7.22.5). */
  lemma ArrangementExists(f: seq<Entry>)
    requires NoneHalfApart(f)
    ensures NoneRound(f) ==> Arranged(Qsort(f), f)
    ensures (exists b :: Arranged(b, f)) <==> NoneRound(f)
  {
    if NoneRound(f) {
      QsortSorted(f, f);
      assert Arranged(Qsort(f), f);
    }
    forall b | Arranged(b, f) ensures NoneRound(f) { ArrangedNotRound(b, f); }
  }

  /** Told from the routes of one mask length, whenever qsort has an order to put them in:
      in each such order the search finds them all exactly when no two are more than 2^31
      apart. Exactly 2^31 is left out, where both orders pass for sorted. */
  lemma SearchNeedsNear(f: seq<Entry>)
    requires DistinctPrefixes(f) && NoneHalfApart(f) && NoneRound(f)
    ensures Arranged(Qsort(f), f)
    ensures forall b :: Arranged(b, f) ==> (FindsAll(b, 0, |b| - 1) <==> Near(f))
  {
    ArrangementExists(f);
    forall b | Arranged(b, f) ensures FindsAll(b, 0, |b| - 1) <==> Near(f) { ArrangedNeedsNear(b, f); }
  }

  /** The buckets hold the entries by mask length, in whatever order. */
  ghost predicate Filing(buckets: seq<seq<Entry>>, entries: seq<Entry>) {
    && |buckets| == 33
    && forall n :: 0 <= n <= 32 ==> forall e :: e in buckets[n] <==> e in entries && Length(e) == n
  }

  /** Where the search over a whole bucket finds a key. */
  function Found(b: seq<Entry>, key: u32): Option<nat> {
    Search(b, key, 0, |b| - 1)
  }

  lemma {:induction false} LookupFrom(buckets: seq<seq<Entry>>, keys: seq<u32>, n: int) returns (m: nat)
    requires |buckets| == |keys| == 33 && n <= 32 && Lookup(buckets, keys, n).Some?
    ensures m <= n && Found(buckets[m], keys[m]) != None
    ensures var r := Lookup(buckets, keys, n).value; r in buckets[m] && r.prefix == keys[m]
    decreases n + 1
  {
    if Search(buckets[n], keys[n], 0, |buckets[n]| - 1).Some? {
      m := n;
    } else {
      m := LookupFrom(buckets, keys, n - 1);
    }
  }

  lemma FiledHere(buckets: seq<seq<Entry>>, entries: seq<Entry>, m: nat, e: Entry)
    requires |buckets| == 33 && m <= 32
    ensures Filing(buckets, entries) && e in buckets[m] ==> e in entries && Length(e) == m
  {
  }

  lemma ShorterAnswer(entries: seq<Entry>, buckets: seq<seq<Entry>>, keys: seq<u32>, n: nat)
    requires |buckets| == |keys| == 33 && n <= 32
    requires Found(buckets[n], keys[n]) == None
    requires forall g :: g in entries && g.prefix == keys[Length(g)] ==> Length(g) <= n
    ensures var r := Lookup(buckets, keys, |buckets| - 1);
            Filing(buckets, entries) && r.Some? ==> Length(r.value) < n
  {
    var r := Lookup(buckets, keys, |buckets| - 1);
    if Filing(buckets, entries) && r.Some? {
      var m := LookupFrom(buckets, keys, 32);
      FiledHere(buckets, entries, m, r.value);
    }
  }

  lemma KeysOfMatches(entries: seq<Entry>, dest: u32, e: Entry) returns (keys: seq<u32>)
    requires forall g :: g in entries ==> GoodEntry(g)
    requires e in entries && Matches(e, dest)
    requires forall g :: g in entries && Matches(g, dest) ==> Length(g) <= Length(e)
    ensures keys == Keys(dest) && |keys| == 33 && keys[Length(e)] == e.prefix
    ensures forall g :: g in entries && g.prefix == keys[Length(g)] ==> Length(g) <= Length(e)
  {
    keys := Keys(dest);
    MatchIsKey(e, dest);
    forall g | g in entries && g.prefix == keys[Length(g)] ensures Length(g) <= Length(e) { MatchIsKey(g, dest); }
  }

  /** A route the search misses is lost to every destination that no longer route matches. */
  lemma MissedIsLost(entries: seq<Entry>, buckets: seq<seq<Entry>>, e: Entry, dest: u32)
    requires Filing(buckets, entries) && forall g :: g in entries ==> GoodEntry(g)
    requires e in entries && Matches(e, dest)
    requires Found(buckets[Length(e)], e.prefix) == None
    requires forall g :: g in entries && Matches(g, dest) ==> Length(g) <= Length(e)
    ensures !IsBest(entries, dest, Route(buckets, dest))
  {
    var keys := KeysOfMatches(entries, dest, e);
    ShorterAnswer(entries, buckets, keys, Length(e));
    NotBest(entries, dest, e, Route(buckets, dest));
  }

  lemma NotBest(entries: seq<Entry>, dest: u32, e: Entry, r: Option<Entry>)
    requires e in entries && Matches(e, dest) && (r.Some? ==> Length(r.value) < Length(e))
    ensures !IsBest(entries, dest, r)
  {
  }

  /** Every destination gets a longest match. */
  ghost predicate AlwaysBest(entries: seq<Entry>, buckets: seq<seq<Entry>>)
    requires |buckets| == 33
  {
    forall dest: u32 :: IsBest(entries, dest, Route(buckets, dest))
  }

  /** Every bucket in an order that the comparison accepts. */
  ghost predicate ArrangedTable(buckets: seq<seq<Entry>>, entries: seq<Entry>) {
    |buckets| == 33 && forall n :: 0 <= n <= 32 ==> Arranged(buckets[n], Filed(entries, n))
  }

  /** The table that parse_rtable builds. */
  function Built(entries: seq<Entry>): (buckets: seq<seq<Entry>>)
    ensures |buckets| == 33 && forall n :: 0 <= n <= 32 ==> buckets[n] == Qsort(Filed(entries, n))
  {
    seq(33, n requires 0 <= n < 33 => Qsort(Filed(entries, n)))
  }

  /** Told from the table, whenever qsort has an order to put the host routes in: with all
      other mask lengths near, every destination gets a longest match exactly when no two
      host routes are more than 2^31 apart. */
  lemma HostRoutesNeedNear(entries: seq<Entry>)
    requires forall e :: e in entries ==> GoodEntry(e)
    requires forall n :: 0 <= n < 32 ==> Near(Filed(entries, n))
    requires DistinctPrefixes(Filed(entries, 32)) && NoneHalfApart(Filed(entries, 32)) && NoneRound(Filed(entries, 32))
    ensures ArrangedTable(Built(entries), entries)
    ensures forall buckets :: ArrangedTable(buckets, entries)
              ==> (AlwaysBest(entries, buckets) <==> Near(Filed(entries, 32)))
  {
    forall n | 0 <= n <= 32 ensures Arranged(Built(entries)[n], Filed(entries, n)) {
      if n < 32 { QsortArranges(Filed(entries, n)); } else { ArrangementExists(Filed(entries, n)); }
    }
    forall buckets | ArrangedTable(buckets, entries)
      ensures AlwaysBest(entries, buckets) <==> Near(Filed(entries, 32))
    {
      ArrangedHostsNeedNear(entries, buckets);
    }
  }

  lemma ArrangedHostsNeedNear(entries: seq<Entry>, buckets: seq<seq<Entry>>)
    requires |buckets| == 33 && forall e :: e in entries ==> GoodEntry(e)
    requires forall n :: 0 <= n <= 32 ==> Arranged(buckets[n], Filed(entries, n))
    requires forall n :: 0 <= n < 32 ==> Near(Filed(entries, n))
    requires DistinctPrefixes(Filed(entries, 32)) && NoneHalfApart(Filed(entries, 32))
    ensures AlwaysBest(entries, buckets) <==> Near(Filed(entries, 32))
  {
    if Near(Filed(entries, 32)) {
      forall dest: u32 ensures IsBest(entries, dest, Route(buckets, dest)) {
        LongestMatch(entries, buckets, dest);
      }
    } else {
      var dest := LostHost(entries, buckets);
      assert !IsBest(entries, dest, Route(buckets, dest));
    }
  }

  lemma LostHost(entries: seq<Entry>, buckets: seq<seq<Entry>>) returns (dest: u32)
    requires |buckets| == 33 && forall e :: e in entries ==> GoodEntry(e)
    requires forall n :: 0 <= n <= 32 ==> Arranged(buckets[n], Filed(entries, n))
    requires DistinctPrefixes(Filed(entries, 32)) && NoneHalfApart(Filed(entries, 32))
    requires !Near(Filed(entries, 32))
    ensures !IsBest(entries, dest, Route(buckets, dest))
  {
    var b := buckets[32];
    ArrangedNeedsNear(b, Filed(entries, 32));
    var k: nat :| k < |b| && Search(b, b[k].prefix, 0, |b| - 1).None?;
    dest := b[k].prefix;
    forall n | 0 <= n <= 32 ensures forall e :: e in buckets[n] <==> e in entries && Length(e) == n {
      SameElements(buckets[n], Filed(entries, n));
    }
    assert b[k] in b;
    MissedIsLost(entries, buckets, b[k], dest);
  }

  /** On a little-endian host the last address byte is the high byte of the word. */
  lemma LowByteClear(x: u32, k: nat, q: nat)
    requires x == k * (q * 0x100)
    ensures SwapBytes(x) < 0x100_0000
  {
    assert x == k * q * 0x100;
    assert x % 0x100 == 0;
  }

  /** Routes with masks of up to 24 ones never make the comparison wrap. */
  lemma ShortPrefixesNear(entries: seq<Entry>, n: nat)
    requires n <= 24 && forall e :: e in entries ==> GoodEntry(e)
    ensures Near(Filed(entries, n))
  {
    forall e | e in Filed(entries, n) ensures e.prefix < 0x100_0000 {
      Pow2Add(24 - n, 8);
      assert Pow2(8) == 0x100;
      LowByteClear(SwapBytes(e.prefix), FirstBits(e.prefix, n), Pow2(24 - n));
      SwapTwice(e.prefix);
    }
  }

  /** A mask of 32 ones keeps every address as it is. */
  lemma HostMaskKeeps(x: u32, mask: u32, n: nat)
    requires mask == WORD - 1 && n == 32
    ensures IsMask(mask, n) && And(x, mask) == x && MaskLength(SwapBytes(mask)) == n && SubnetMask(n) == mask
    ensures SwapBytes(x) == FirstBits(x, n) * Pow2(32 - n)
  {
    Pow2Word();
    AndAllOnes(x, n);
    AllOnesIsMask();
    MaskFiled(mask, n);
  }

  lemma AllOnesIsMask()
    ensures IsMask(WORD - 1, 32) && SwapBytes(WORD - 1) == WORD - 1
  {
    Pow2Word();
    assert Pow2(0) == 1 && LeadingOnes(32) == WORD - 1;
    assert SwapBytes(WORD - 1) == WORD - 1;
  }

  lemma {:induction false} LookupEmpty(buckets: seq<seq<Entry>>, keys: seq<u32>, n: int)
    requires |buckets| == |keys| == 33 && -1 <= n <= 32 && forall m :: 0 <= m <= n ==> buckets[m] == []
    ensures Lookup(buckets, keys, n).None?
    decreases n + 1
  {
    if n >= 0 { LookupEmpty(buckets, keys, n - 1); }
  }

  lemma LookupOnlyLast(buckets: seq<seq<Entry>>, keys: seq<u32>)
    requires |buckets| == |keys| == 33 && forall m :: 0 <= m <= 31 ==> buckets[m] == []
    requires Found(buckets[32], keys[32]) == None
    ensures Lookup(buckets, keys, 32) == None
  {
    LookupEmpty(buckets, keys, 31);
  }

  /** The routes 10.0.0.1/32 and 10.0.0.200/32 as the host loads them. */
  const ROUTE_1 := Entry(0x0100_000A, 0, 0xFFFF_FFFF, 0)
  const ROUTE_200 := Entry(0xC800_000A, 0, 0xFFFF_FFFF, 1)

  lemma TwoRoutesSorted()
    ensures Qsort([ROUTE_1, ROUTE_200]) == [ROUTE_200, ROUTE_1]
    ensures Found([ROUTE_200, ROUTE_1], ROUTE_1.prefix) == None
  {
    assert [ROUTE_1, ROUTE_200][1..] == [ROUTE_200] && [ROUTE_200][1..] == [];
    assert Qsort([ROUTE_200]) == [ROUTE_200];
    assert EntryCompare(ROUTE_1, ROUTE_200) == 0x3900_0000;
    assert Insert(ROUTE_1, [ROUTE_200]) == [ROUTE_200, ROUTE_1];
  }

  lemma TwoRoutesFiled(n: nat)
    requires n <= 32
    ensures Filed([ROUTE_1, ROUTE_200], n) == if n == 32 then [ROUTE_1, ROUTE_200] else []
  {
    HostMaskKeeps(0, WORD - 1, 32);
    FiledPair(ROUTE_1, ROUTE_200, n);
  }

  lemma FiledPair(e: Entry, f: Entry, n: nat)
    ensures Length(e) == Length(f) ==> Filed([e, f], n) == if n == Length(e) then [e, f] else []
  {
    FiledStep([e, f], 0, n);
    FiledStep([e, f], 1, n);
    assert [e, f][..0] == [] && [e, f][..1] == [e] && [e, f][..2] == [e, f];
  }

  lemma TwoRoutesLoaded(buckets: seq<seq<Entry>>)
    requires |buckets| == 33
    requires forall n :: 0 <= n <= 32 ==> buckets[n] == Qsort(Filed([ROUTE_1, ROUTE_200], n))
    ensures buckets[32] == Qsort([ROUTE_1, ROUTE_200]) && forall n :: 0 <= n <= 31 ==> buckets[n] == []
  {
    TwoRoutesFiled(32);
    forall n | 0 <= n <= 31 ensures buckets[n] == [] { TwoRoutesFiled(n); }
  }

  lemma NoneInLast(buckets: seq<seq<Entry>>, dest: u32)
    requires |buckets| == 33 && forall n :: 0 <= n <= 31 ==> buckets[n] == []
    requires Found(buckets[32], dest) == None
    ensures Route(buckets, dest) == None
  {
    HostMaskKeeps(dest, WORD - 1, 32);
    LookupOnlyLast(buckets, Keys(dest));
  }

  lemma HostRouteGood(e: Entry)
    requires e.mask == WORD - 1
    ensures GoodEntry(e) && Matches(e, e.prefix)
  {
    HostMaskKeeps(e.prefix, e.mask, 32);
  }

  /** A table of two good entries from which packets to 10.0.0.1 find no route. */
  lemma HostRouteLost(buckets: seq<seq<Entry>>)
    requires |buckets| == 33
    requires forall n :: 0 <= n <= 32 ==> buckets[n] == Qsort(Filed([ROUTE_1, ROUTE_200], n))
    ensures GoodEntry(ROUTE_1) && GoodEntry(ROUTE_200) && Matches(ROUTE_1, ROUTE_1.prefix)
    ensures Route(buckets, ROUTE_1.prefix) == None
  {
    HostRouteGood(ROUTE_1);
    HostRouteGood(ROUTE_200);
    TwoRoutesLoaded(buckets);
    TwoRoutesSorted();
    NoneInLast(buckets, ROUTE_1.prefix);
  }

  const ROUTE_100 := Entry(0x6400_000A, 0, 0xFFFF_FFFF, 2)

  /** 10.0.0.1, 10.0.0.100 and 10.0.0.200: each is below the next one, round and round, so
      no order is sorted. An insertion sort happens to leave them as they are, and then
      the search finds them all, although they are far apart. */
  lemma ThreeRoutesGoRound(f: seq<Entry>)
    requires f == [ROUTE_1, ROUTE_100, ROUTE_200]
    ensures DistinctPrefixes(f) && NoneHalfApart(f) && !Near(f) && !NoneRound(f)
    ensures forall b :: !Arranged(b, f)
    ensures FindsAll(Qsort(f), 0, |f| - 1)
  {
    ThreeFarApart(f);
    ArrangementExists(f);
    ThreeInserted();
    SearchNeedsOrder(f);
  }

  lemma ThreeFarApart(f: seq<Entry>)
    requires f == [ROUTE_1, ROUTE_100, ROUTE_200]
    ensures DistinctPrefixes(f) && Ascending(f) && NoneHalfApart(f) && !Near(f) && !NoneRound(f)
  {
    assert f[0] == ROUTE_1 && f[1] == ROUTE_100 && f[2] == ROUTE_200;
    assert f[0] in f && f[1] in f && f[2] in f && f[2].prefix - f[0].prefix >= HALF;
    assert Below(f[0], f[1]) && Below(f[1], f[2]) && Below(f[2], f[0]);
  }

  lemma InsertInFront(e: Entry, b: seq<Entry>)
    requires b != [] && EntryCompare(e, b[0]) <= 0
    ensures Insert(e, b) == [e] + b
  {
  }

  lemma TwoInserted()
    ensures Qsort([ROUTE_100, ROUTE_200]) == [ROUTE_100, ROUTE_200]
  {
    assert [ROUTE_100, ROUTE_200][1..] == [ROUTE_200] && [ROUTE_200][1..] == [];
    assert Qsort([ROUTE_200]) == [ROUTE_200];
    InsertInFront(ROUTE_100, [ROUTE_200]);
  }

  lemma ThreeInserted()
    ensures Qsort([ROUTE_1, ROUTE_100, ROUTE_200]) == [ROUTE_1, ROUTE_100, ROUTE_200]
  {
    assert [ROUTE_1, ROUTE_100, ROUTE_200][1..] == [ROUTE_100, ROUTE_200];
    TwoInserted();
    InsertInFront(ROUTE_1, [ROUTE_100, ROUTE_200]);
  }
}
