/** ip_checksum and icmp_checksum against the checksum of RFC 1071, and the
    incremental update of RFC 1624 that the router applies when it forwards.
    The host is little-endian. */
module InternetChecksum {
  import opened Bytes

  type u16 = n: int | 0 <= n < 0x1_0000
  type u64 = n: int | 0 <= n < 0x1_0000_0000_0000_0000

  // ----------------------------------------------------- arithmetic modulo 65535

  predicate Cong(a: int, b: int) {
    a % 0xFFFF == b % 0xFFFF
  }

  /** The value in 1..0xFFFF congruent to n: one's-complement addition with carries
      wrapped around, started from a non-zero value. */
  function Fold(n: nat): (r: nat)
    ensures 1 <= r <= 0xFFFF && Cong(r, n)
  {
    if n % 0xFFFF == 0 then 0xFFFF else n % 0xFFFF
  }

  lemma FoldUnique(r: nat, n: nat)
    requires 1 <= r <= 0xFFFF && Cong(r, n)
    ensures r == Fold(n)
  {
  }

  lemma CongTransitive(a: int, b: int, c: int)
    requires Cong(a, b) && Cong(b, c)
    ensures Cong(a, c)
  {
  }

  lemma CongAdd(a: int, b: int, c: int, d: int)
    requires Cong(a, b) && Cong(c, d)
    ensures Cong(a + c, b + d)
  {
  }

  // ------------------------------------------------------------- sums of words

  /** Section 1 of RFC 1071: the sum of the big-endian 16-bit words, an odd last byte
      padded with a zero. */
  function Sum16(data: seq<byte>): nat {
    if data == [] then 0
    else if |data| == 1 then data[0] * 0x100
    else data[0] * 0x100 + data[1] + Sum16(data[2..])
  }

  /** The same with weights: low says whether the first byte is the low one of its word. */
  function Weigh(data: seq<byte>, low: bool): nat {
    if data == [] then 0
    else (if low then data[0] else data[0] * 0x100) + Weigh(data[1..], !low)
  }

  lemma {:induction false} Sum16IsWeigh(data: seq<byte>)
    ensures Sum16(data) == Weigh(data, false)
    decreases |data|
  {
    if |data| == 1 {
      assert data[1..] == [];
    } else if |data| > 1 {
      assert data[1..][1..] == data[2..];
      Sum16IsWeigh(data[2..]);
    }
  }

  /** Exchanging the bytes of every word multiplies by 256: section 2(B) of RFC 1071. */
  lemma {:induction false} WeighSwapped(data: seq<byte>, low: bool)
    ensures Cong(0x100 * Weigh(data, low), Weigh(data, !low))
    decreases |data|
  {
    if data != [] {
      WeighSwapped(data[1..], !low);
      var b: int := data[0];
      var x, y := Weigh(data[1..], !low), Weigh(data[1..], low);
      if low {
        CongAdd(0x100 * b, b * 0x100, 0x100 * x, y);
      } else {
        assert Cong(0x1_0000 * b, b);
        CongAdd(0x1_0000 * b, b, 0x100 * x, y);
      }
    }
  }

  /** Byte k of a zeroed word into which bytes were copied at offset. */
  function Placed(offset: nat, bytes: seq<byte>, k: nat): (b: nat)
    ensures b < 0x100
  {
    if offset <= k < offset + |bytes| then bytes[k - offset] else 0
  }

  /** ntohl of that word. */
  function LoadWord(offset: nat, bytes: seq<byte>): (w: nat)
    requires offset + |bytes| <= 4
    ensures w <= 0xFFFF_FFFF
  {
    Placed(offset, bytes, 0) * 0x100_0000 + Placed(offset, bytes, 1) * 0x1_0000
    + Placed(offset, bytes, 2) * 0x100 + Placed(offset, bytes, 3)
  }

  /** The weight of a single byte. */
  function Term(b: nat, low: bool): nat {
    if low then b else b * 0x100
  }

  lemma WeighShort(bytes: seq<byte>, low: bool)
    requires |bytes| <= 4
    ensures Weigh(bytes, low) == Term(Placed(0, bytes, 0), low) + Term(Placed(0, bytes, 1), !low)
                                 + Term(Placed(0, bytes, 2), low) + Term(Placed(0, bytes, 3), !low)
  {
    if |bytes| > 1 { assert bytes[1..][1..] == bytes[2..]; }
    if |bytes| > 2 { assert bytes[2..][1..] == bytes[3..]; }
    if |bytes| > 3 { assert bytes[3..][1..] == []; }
  }

  /** Modulo 65535 a 32-bit word weighs what its two halves weigh. */
  lemma HalvesWeigh(b0: nat, b1: nat, b2: nat, b3: nat)
    ensures Cong(b0 * 0x100_0000 + b1 * 0x1_0000 + b2 * 0x100 + b3, b0 * 0x100 + b1 + b2 * 0x100 + b3)
  {
    assert b0 * 0x100_0000 + b1 * 0x1_0000 - b0 * 0x100 - b1 == 0xFFFF * (0x100 * b0 + b1);
  }

  lemma PlacedWeighs(offset: nat, bytes: seq<byte>)
    requires offset + |bytes| <= 4
    ensures Weigh(bytes, offset % 2 == 1) ==
              Placed(offset, bytes, 0) * 0x100 + Placed(offset, bytes, 1)
              + Placed(offset, bytes, 2) * 0x100 + Placed(offset, bytes, 3)
  {
    WeighShort(bytes, offset % 2 == 1);
  }

  lemma LoadWordWeighs(offset: nat, bytes: seq<byte>)
    requires offset + |bytes| <= 4
    ensures Cong(LoadWord(offset, bytes), Weigh(bytes, offset % 2 == 1))
  {
    PlacedWeighs(offset, bytes);
    HalvesWeigh(Placed(offset, bytes, 0), Placed(offset, bytes, 1), Placed(offset, bytes, 2), Placed(offset, bytes, 3));
  }

  /** The first bytes weigh by themselves, the rest by its own parity. */
  lemma {:induction false} WeighSplits(data: seq<byte>, n: nat, low: bool)
    requires n <= |data|
    ensures Weigh(data, low) == Weigh(data[..n], low) + Weigh(data[n..], if n % 2 == 0 then low else !low)
  {
    if n == 0 {
      assert data[0..] == data;
    } else {
      WeighSplits(data[1..], n - 1, !low);
      assert data[..n][1..] == data[1..][..n - 1];
      assert data[1..][n - 1..] == data[n..];
    }
  }

  // ---------------------------------------------------------------- ip_checksum

  /** htons on a little-endian host. */
  function Swap16(n: u16): (r: u16)
    ensures Cong(r, 0x100 * n)
  {
    n % 0x100 * 0x100 + n / 0x100
  }

  /** The account: what is accumulated plus what the bytes from pos on weigh. low says
      that pos lies at an odd address. */
  predicate Account(data: seq<byte>, pos: nat, low: bool, acc: nat, total: nat) {
    && pos <= |data| && acc > 0
    && acc <= 0xFFFF + (pos + 4) * 0x4000_0000
    && Cong(acc + Weigh(data[pos..], low), total)
  }

  lemma Exchange(acc: nat, w: nat, y: nat, z: nat, total: nat)
    requires Cong(acc + (y + z), total) && Cong(w, y)
    ensures Cong(acc + w + z, total)
  {
    CongAdd(acc + (y + z), total, w, y);
  }

  /** One more block of n bytes at pos, copied to offset in a word, keeps the account. */
  lemma BlockKeepsCong(data: seq<byte>, pos: nat, n: nat, offset: nat, low: bool, acc: nat, total: nat)
    requires pos + n <= |data| && offset + n <= 4 && low == (offset % 2 == 1)
    requires Cong(acc + Weigh(data[pos..], low), total)
    ensures Cong(acc + LoadWord(offset, data[pos..pos + n]) +
                 Weigh(data[pos + n..], if n % 2 == 0 then low else !low), total)
  {
    var block, rest := data[pos..pos + n], data[pos + n..];
    WeighSplits(data[pos..], n, low);
    assert data[pos..][..n] == block && data[pos..][n..] == rest;
    LoadWordWeighs(offset, block);
    Exchange(acc, LoadWord(offset, block), Weigh(block, low), Weigh(rest, if n % 2 == 0 then low else !low), total);
  }

  lemma WideFold(sum: nat)
    requires sum > 0
    ensures var a := sum % 0x1_0000_0000 + sum / 0x1_0000_0000; a > 0 && Cong(a, sum)
  {
  }

  lemma CarryFold(a: nat)
    requires a / 0x1_0000 != 0
    ensures var b := a % 0x1_0000 + a / 0x1_0000; 0 < b < a && Cong(b, a)
  {
  }

  /** The deferred carries. */
  method FoldCarries(sum: u64) returns (acc: u16)
    requires sum > 0
    ensures acc == Fold(sum)
  {
    var a := sum % 0x1_0000_0000 + sum / 0x1_0000_0000;
    WideFold(sum);
    while a / 0x1_0000 != 0
      invariant a > 0 && Cong(a, sum)
      decreases a
    {
      CarryFold(a);
      a := a % 0x1_0000 + a / 0x1_0000;
    }
    FoldUnique(a, sum);
    acc := a;
  }

  /** The byte swap that compensates for an odd start. */
  lemma OddStart(data: seq<byte>, acc: u16, sum: nat)
    requires acc == Fold(sum) && Cong(sum, 0xFFFF + Weigh(data, true))
    ensures Swap16(acc) == Fold(Sum16(data))
  {
    var w := Weigh(data, true);
    FoldsAlike(acc, sum, w);
    WeighSwapped(data, true);
    Sum16IsWeigh(data);
    SwapsAlike(acc, w, Sum16(data));
    FoldUnique(Swap16(acc), Sum16(data));
  }

  lemma FoldsAlike(acc: u16, sum: nat, w: nat)
    requires acc == Fold(sum) && Cong(sum, 0xFFFF + w)
    ensures Cong(acc, w)
  {
  }

  /** Swapping the bytes multiplies by 256 modulo 65535. */
  lemma SwapsAlike(acc: u16, w: nat, target: nat)
    requires Cong(acc, w) && Cong(0x100 * w, target)
    ensures Cong(Swap16(acc), target)
  {
    CongScale(acc, w);
    CongTransitive(Swap16(acc), 0x100 * acc, 0x100 * w);
    CongTransitive(Swap16(acc), 0x100 * w, target);
  }

  lemma EvenStart(data: seq<byte>, acc: u16, sum: nat)
    requires acc == Fold(sum) && Cong(sum, 0xFFFF + Weigh(data, false))
    ensures acc == Fold(Sum16(data))
  {
    Sum16IsWeigh(data);
    FoldsAlike(acc, sum, Sum16(data));
    FoldUnique(acc, Sum16(data));
  }

  /** The complete 32-bit blocks from pos on. */
  method SumBlocks(data: seq<byte>, pos: nat, acc: u64, ghost total: nat) returns (pos': nat, acc': u64)
    requires |data| <= 0x2_0000_0000 && Account(data, pos, false, acc, total)
    ensures pos <= pos' <= |data| < pos' + 4 && Account(data, pos', false, acc', total)
  {
    pos', acc' := pos, acc;
    ghost var left := (|data| - pos) / 4;
    var end := pos + (|data| - pos) / 4 * 4;
    while pos' != end
      invariant pos <= pos' && pos' + 4 * left == end <= |data| < end + 4 && left >= 0
      invariant Account(data, pos', false, acc', total)
      decreases end - pos'
    {
      acc' := AddBlock(data, pos', acc', total);
      pos' := pos' + 4;
      left := left - 1;
    }
  }

  method AddBlock(data: seq<byte>, pos: nat, acc: u64, ghost total: nat) returns (acc': u64)
    requires pos + 4 <= |data| <= 0x2_0000_0000 && Account(data, pos, false, acc, total)
    ensures Account(data, pos + 4, false, acc', total)
  {
    BlockKeepsCong(data, pos, 4, 0, false, acc, total);
    acc' := acc + LoadWord(0, data[pos..pos + 4]);
  }

  /** The partial block at an unaligned start. */
  method SumFirst(data: seq<byte>, offset: nat, acc: u64, ghost total: nat) returns (pos: nat, acc': u64)
    requires 0 < offset < 4 && acc == 0xFFFF && total == 0xFFFF + Weigh(data, offset % 2 == 1)
    ensures Account(data, pos, false, acc', total)
  {
    var count := 4 - offset;
    if count > |data| { count := |data|; }
    assert data[0..] == data;
    BlockKeepsCong(data, 0, count, offset, offset % 2 == 1, acc, total);
    acc' := acc + LoadWord(offset, data[0..count]);
    pos := count;
    if pos == |data| { assert data[pos..] == []; }
  }

  /** The partial block at the end. */
  method SumLast(data: seq<byte>, pos: nat, acc: u64, ghost total: nat) returns (acc': u64)
    requires pos <= |data| < pos + 4 && |data| <= 0x2_0000_0000 && Account(data, pos, false, acc, total)
    ensures acc' > 0 && Cong(acc', total)
  {
    acc' := acc;
    assert data[|data|..] == [];
    if pos < |data| {
      BlockKeepsCong(data, pos, |data| - pos, 0, false, acc, total);
      acc' := acc + LoadWord(0, data[pos..|data|]);
    }
  }

  /** The accumulator after all blocks. */
  method SumWords(data: seq<byte>, offset: nat) returns (acc: u64)
    requires |data| <= 0x2_0000_0000 && offset < 4
    ensures acc > 0 && Cong(acc, 0xFFFF + Weigh(data, offset % 2 == 1))
  {
    acc := 0xFFFF;
    var pos := 0;
    ghost var total := 0xFFFF + Weigh(data, offset % 2 == 1);
    assert data[0..] == data;
    if offset != 0 { pos, acc := SumFirst(data, offset, acc, total); }
    pos, acc := SumBlocks(data, pos, acc, total);
    acc := SumLast(data, pos, acc, total);
  }

  /** ip_checksum of a buffer that starts at the given address. */
  method IpChecksum(data: seq<byte>, address: nat) returns (r: u16)
    requires |data| <= 0x2_0000_0000
    ensures r == Swap16(0xFFFF - Fold(Sum16(data)))
  {
    var offset := address % 4;
    var acc := SumWords(data, offset);
    var sum := FoldCarries(acc);
    if offset % 2 == 1 {
      OddStart(data, sum, acc);
      sum := sum % 0x100 * 0x100 + sum / 0x100;
    } else {
      EvenStart(data, sum, acc);
    }
    r := Swap16(0xFFFF - sum);
  }

  // -------------------------------------------------------------- icmp_checksum

  /** icmp_checksum starts from zero, so that a sum of zero stays zero. */
  function FoldFromZero(n: nat): (r: nat)
    ensures r <= 0xFFFF
  {
    if n == 0 then 0 else Fold(n)
  }

  /** The two folding steps of icmp_checksum. */
  function FoldedOnce(sum: nat): nat {
    sum / 0x1_0000 + sum % 0x1_0000
  }

  function FoldedTwice(sum: nat): (r: nat)
    ensures r <= 0xFFFF
  {
    (FoldedOnce(sum) + FoldedOnce(sum) / 0x1_0000) % 0x1_0000
  }

  lemma FoldedOnceCong(sum: nat)
    ensures Cong(FoldedOnce(sum), sum) && (FoldedOnce(sum) == 0 <==> sum == 0)
  {
  }

  /** For the sums of up to 2^32 bytes the two steps suffice exactly when the second one
      carries no further. */
  lemma TwoFolds(sum: nat)
    requires sum < 0x8000_0000_0000
    ensures FoldedTwice(sum) == FoldFromZero(sum) <==> FoldedOnce(FoldedOnce(sum)) <= 0xFFFF
  {
    var a := FoldedOnce(sum);
    FoldedOnceFits(sum);
    FoldedOnceCong(sum);
    FoldedOnceCong(a);
    CongTransitive(FoldedOnce(a), a, sum);
    SecondFold(a);
    SecondFoldDecides(sum, FoldedOnce(a), FoldedTwice(sum));
  }

  lemma FoldedOnceFits(sum: nat)
    requires sum < 0x8000_0000_0000
    ensures FoldedOnce(sum) < 0x1_0000_0000
  {
  }

  lemma SecondFoldDecides(sum: nat, z: nat, r: nat)
    requires Cong(z, sum) && (z == 0 <==> sum == 0) && r == if z <= 0xFFFF then z else z - 0x1_0000
    ensures r == FoldFromZero(sum) <==> z <= 0xFFFF
  {
    if z <= 0xFFFF {
      if sum > 0 { FoldUnique(z, sum); }
    } else {
      LostByOne(z, sum);
    }
  }

  lemma SecondFold(a: nat)
    requires a < 0x1_0000_0000
    ensures var z := FoldedOnce(a);
      z < 0x2_0000 && (a + a / 0x1_0000) % 0x1_0000 == if z <= 0xFFFF then z else z - 0x1_0000
  {
  }

  lemma LostByOne(z: nat, sum: nat)
    requires Cong(z, sum) && z >= 0x1_0000
    ensures z - 0x1_0000 != FoldFromZero(sum)
  {
    if sum > 0 { assert Cong(Fold(sum), sum); }
  }

  /** n words of all ones. */
  function Ones(n: nat): seq<byte> {
    if n == 0 then [] else [0xFF, 0xFF] + Ones(n - 1)
  }

  lemma {:induction false} OnesThenOne(n: nat)
    ensures Weigh(Ones(n) + [1, 0], true) == n * 0xFFFF + 1
  {
    var data := Ones(n) + [1, 0];
    WordAhead(data, 0);
    assert data[0..] == data;
    if n == 0 {
      assert data[2..] == [];
    } else {
      assert data[2..] == Ones(n - 1) + [1, 0];
      OnesThenOne(n - 1);
    }
  }

  lemma Quotient(sum: nat, q: nat, r: nat)
    requires sum == q * 0x1_0000 + r && r < 0x1_0000
    ensures sum / 0x1_0000 == q && sum % 0x1_0000 == r
  {
  }

  /** A buffer for which they do not: after 131074 words of all ones and a word of 1 the
      stored checksum is 0xFFFF, where the one's complement of the sum is 0xFFFE. */
  lemma LongBufferMisfolds(buffer: seq<byte>, n: nat)
    requires n == 131074 && buffer == Ones(n) + [1, 0]
    ensures var w := Weigh(buffer, true);
      0xFFFF - FoldedTwice(w) == 0xFFFF && 0xFFFF - FoldFromZero(w) == 0xFFFE
  {
    OnesThenOne(n);
    var w := Weigh(buffer, true);
    Quotient(w, 0x1_FFFF, 0xFFFF);
    Quotient(0x2_FFFE, 2, 0xFFFE);
    CongWitness(w, 1, n);
    FoldUnique(1, w);
  }

  /** Up to 2^17 bytes they always do. */
  lemma ShortSumsFold(sum: nat)
    requires sum < 0x1_0000_0000
    ensures FoldedTwice(sum) == FoldFromZero(sum)
  {
    TwoFolds(sum);
  }

  lemma WordAhead(data: seq<byte>, pos: nat)
    requires pos + 2 <= |data|
    ensures Weigh(data[pos..], true) == data[pos] + 0x100 * (data[pos + 1] as int) + Weigh(data[pos + 2..], true)
  {
    assert data[pos..][1..] == data[pos + 1..] && data[pos + 1..][1..] == data[pos + 2..];
  }

  lemma {:induction false} WeighBound(data: seq<byte>)
    requires |data| % 2 == 0
    ensures Weigh(data, true) <= |data| / 2 * 0xFFFF
    decreases |data|
  {
    if data != [] {
      WordAhead(data, 0);
      assert data[0..] == data;
      WeighBound(data[2..]);
    }
  }

  /** icmp_checksum over native words. A last odd byte is loaded together with the
      byte behind it. */
  method IcmpChecksum(buffer: seq<byte>, size: nat) returns (r: u16)
    requires size + size % 2 <= |buffer| && size < 0x1_0000_0000
    ensures r == 0xFFFF - FoldedTwice(Weigh(buffer[..size + size % 2], true))
    ensures size <= 0x2_0000 ==> r == 0xFFFF - FoldFromZero(Weigh(buffer[..size + size % 2], true))
  {
    var cksum := SumNative(buffer, size);
    if size <= 0x2_0000 { ShortSumsFold(cksum); }
    r := FoldTwice(cksum);
  }

  /** Its last steps: two folds and the complement. */
  method FoldTwice(sum: u64) returns (r: u16)
    ensures r == 0xFFFF - FoldedTwice(sum)
  {
    var cksum: int := sum / 0x1_0000 + sum % 0x1_0000;
    cksum := cksum + cksum / 0x1_0000;
    r := 0xFFFF - cksum % 0x1_0000;
  }

  /** Its loop. */
  method SumNative(buffer: seq<byte>, size: nat) returns (cksum: u64)
    requires size + size % 2 <= |buffer| && size < 0x1_0000_0000
    ensures cksum == Weigh(buffer[..size + size % 2], true)
    ensures size <= 0x2_0000 ==> cksum < 0x1_0000_0000
  {
    var pos, left := 0, size;
    cksum := 0;
    ghost var data := buffer[..size + size % 2];
    assert data[0..] == data && data[|data|..] == [];
    WeighBound(data);
    while left > 1
      invariant pos + left == size && pos % 2 == 0
      invariant cksum + Weigh(data[pos..], true) == Weigh(data, true) <= 0x7FFF_FFFF_FFFF
      decreases left
    {
      WordAhead(data, pos);
      cksum := cksum + (buffer[pos] + 0x100 * (buffer[pos + 1] as int));
      pos, left := pos + 2, left - 2;
    }
    if left != 0 {
      WordAhead(data, pos);
      cksum := cksum + (buffer[pos] + 0x100 * (buffer[pos + 1] as int));
    }
  }

  predicate AllZero(data: seq<byte>) {
    forall k :: 0 <= k < |data| ==> data[k] == 0
  }

  lemma {:induction false} WeighZero(data: seq<byte>, low: bool)
    ensures Weigh(data, low) == 0 <==> AllZero(data)
    decreases |data|
  {
    if data != [] {
      WeighZero(data[1..], !low);
      assert forall k :: 0 < k < |data| ==> data[k] == data[1..][k - 1];
    }
  }

  /** Byte order does not matter to a one's-complement sum. */
  lemma SwappedChecksum(data: seq<byte>)
    ensures Swap16(0xFFFF - Fold(Sum16(data))) == 0xFFFF - Fold(Weigh(data, true))
  {
    var f := Fold(Sum16(data));
    SwapComplement(f);
    Sum16IsWeigh(data);
    WeighSwapped(data, false);
    CongScale(f, Weigh(data, false));
    CongTransitive(Swap16(f), 0x100 * f, 0x100 * Weigh(data, false));
    CongTransitive(Swap16(f), 0x100 * Weigh(data, false), Weigh(data, true));
    FoldUnique(Swap16(f), Weigh(data, true));
  }

  lemma SwapComplement(f: u16)
    ensures Swap16(0xFFFF - f) == 0xFFFF - Swap16(f)
  {
    assert (0xFFFF - f) / 0x100 == 0xFF - f / 0x100;
    assert (0xFFFF - f) % 0x100 == 0xFF - f % 0x100;
  }

  lemma CongScale(a: int, b: int)
    requires Cong(a, b)
    ensures Cong(0x100 * a, 0x100 * b)
  {
    var k := a / 0xFFFF - b / 0xFFFF;
    CongWitness(0x100 * a, 0x100 * b, 0x100 * k);
  }

  lemma CongWitness(a: int, b: int, k: int)
    requires a == b + 0xFFFF * k
    ensures Cong(a, b)
  {
  }

  /** The two checksums the router stores agree exactly when the data is not all zero
      and, for an odd length, the byte behind it is zero. */
  lemma ChecksumsAgree(buffer: seq<byte>, size: nat)
    requires size + size % 2 <= |buffer|
    ensures var data := buffer[..size];
            0xFFFF - FoldFromZero(Weigh(buffer[..size + size % 2], true)) == Swap16(0xFFFF - Fold(Sum16(data)))
            <==> !AllZero(data) && (size % 2 == 1 ==> buffer[size] == 0)
  {
    var data := buffer[..size];
    var loaded := buffer[..size + size % 2];
    SwappedChecksum(data);
    WeighZero(data, true);
    WeighSplits(loaded, size, true);
    assert loaded[..size] == data;
    if size % 2 == 1 {
      assert loaded[size..] == [buffer[size]];
      LastByteMatters(Weigh(data, true), buffer[size]);
    } else {
      assert loaded[size..] == [];
    }
  }

  /** One byte followed by another one: the last byte is not padded with zero. */
  lemma OddByteIsNotPadded()
    ensures var buffer: seq<byte> := [1, 1];
      0xFFFF - FoldFromZero(Weigh(buffer[..2], true)) != Swap16(0xFFFF - Fold(Sum16(buffer[..1])))
  {
    ChecksumsAgree([1, 1], 1);
  }

  /** Another byte in the high half of a word changes the folded sum unless it is zero. */
  lemma LastByteMatters(w: nat, b: byte)
    ensures Fold(w + 0x100 * (b as int)) == Fold(w) <==> b == 0
    ensures Weigh([b], false) == 0x100 * (b as int)
  {
    assert [b][1..] == [];
    if b != 0 && Fold(w + 0x100 * (b as int)) == Fold(w) {
      CongTransitive(w + 0x100 * (b as int), Fold(w), w);
    }
  }

  // -------------------------------------------------------- TTL and RFC 1624

  const HEADER := 20
  const TTL := 8
  const CHECK := 10

  /** ip_hdr->check as the host loads it. */
  function LoadCheck(h: seq<byte>): u16
    requires |h| == HEADER
  {
    h[CHECK] + 0x100 * (h[CHECK + 1] as int)
  }

  /** ip_checksum of the header is zero. */
  predicate Verifies(h: seq<byte>)
    requires |h| == HEADER
  {
    Swap16(0xFFFF - Fold(Sum16(h))) == 0
  }

  function BitNot(n: int): int {
    -n - 1
  }

  /** calculate_checksum, on the decremented TTL; the conversion to uint16_t wraps. */
  function CalculateChecksum(check: u16, ttl: byte): u16 {
    (check - BitNot(ttl as int + 1) - ttl - 1) % 0x1_0000
  }

  /** The header after the TTL step: the new checksum stored low byte first. */
  function Decremented(h: seq<byte>): (h': seq<byte>)
    requires |h| == HEADER && h[TTL] > 0
    ensures |h'| == HEADER
  {
    var ttl: byte := h[TTL] - 1;
    var check := CalculateChecksum(LoadCheck(h), ttl);
    h[TTL := ttl][CHECK := check % 0x100][CHECK + 1 := check / 0x100]
  }

  /** A byte of weight 1 or 256 changes the sum by its own change. */
  lemma {:induction false} WeighUpdate(data: seq<byte>, k: nat, b: byte, low: bool)
    requires k < |data|
    ensures var w := if (k % 2 == 0) == low then 1 else 0x100;
            Weigh(data[k := b], low) == Weigh(data, low) + (b as int - data[k]) * w
    decreases k
  {
    var updated := data[k := b];
    if k == 0 {
      assert updated[1..] == data[1..];
    } else {
      WeighUpdate(data[1..], k - 1, b, !low);
      assert updated[1..] == data[1..][k - 1 := b];
    }
  }

  /** A header verifies exactly when its words sum to zero modulo 65535, in either
      byte order. */
  lemma VerifiesIff(h: seq<byte>)
    requires |h| == HEADER
    ensures Verifies(h) <==> Cong(Weigh(h, true), 0)
  {
    SwappedChecksum(h);
  }

  lemma CheckPlusOne(check: u16, ttl: byte)
    ensures CalculateChecksum(check, ttl) == if check == 0xFFFF then 0 else check + 1
  {
  }

  /** The sum after storing another checksum. */
  lemma WeighStored(h: seq<byte>, check: u16)
    requires |h| == HEADER
    ensures Weigh(h[CHECK := check % 0x100][CHECK + 1 := check / 0x100], true)
         == Weigh(h, true) + check - LoadCheck(h)
  {
    var g := h[CHECK := check % 0x100];
    WeighUpdate(h, CHECK, check % 0x100, true);
    WeighUpdate(g, CHECK + 1, check / 0x100, true);
  }

  lemma DecrementedWeighs(h: seq<byte>)
    requires |h| == HEADER && h[TTL] > 0
    ensures Weigh(Decremented(h), true)
         == Weigh(h, true) - (if LoadCheck(h) == 0xFFFF then 0x1_0000 else 0)
  {
    var ttl: byte := h[TTL] - 1;
    var g := h[TTL := ttl];
    WeighUpdate(h, TTL, ttl, true);
    CheckPlusOne(LoadCheck(h), ttl);
    assert LoadCheck(g) == LoadCheck(h);
    WeighStored(g, CalculateChecksum(LoadCheck(h), ttl));
  }

  lemma LostCarry(w: int)
    requires Cong(w, 0)
    ensures !Cong(w - 0x1_0000, 0)
  {
  }

  lemma DecrementedSum(h: seq<byte>)
    requires |h| == HEADER && h[TTL] > 0 && Cong(Weigh(h, true), 0)
    ensures Cong(Weigh(Decremented(h), true), 0) <==> LoadCheck(h) != 0xFFFF
  {
    DecrementedWeighs(h);
    LostCarry(Weigh(h, true));
  }

  /** A verified header still verifies after the TTL step exactly when its checksum
      field was not 0xFFFF, the wrap-around that RFC 1624 corrects in RFC 1141. */
  lemma TtlStepVerifies(h: seq<byte>)
    requires |h| == HEADER && h[TTL] >= 2
    ensures Verifies(h) ==> (Verifies(Decremented(h)) <==> LoadCheck(h) != 0xFFFF)
  {
    if Verifies(h) {
      VerifiesIff(h);
      DecrementedSum(h);
      VerifiesIff(Decremented(h));
    }
  }

  lemma OneHop(h: seq<byte>)
    requires |h| == HEADER && h[TTL] > 0
    ensures LoadCheck(Decremented(h)) == if LoadCheck(h) == 0xFFFF then 0 else LoadCheck(h) + 1
    ensures Decremented(h)[TTL] == h[TTL] - 1
  {
    CheckPlusOne(LoadCheck(h), h[TTL] - 1);
    assert LoadCheck(Decremented(h)) == CalculateChecksum(LoadCheck(h), h[TTL] - 1);
  }

  /** The header behind k routers that each take this step. */
  function Hops(h: seq<byte>, k: nat): (r: seq<byte>)
    requires |h| == HEADER && h[TTL] > k
    ensures |r| == HEADER && r[TTL] == h[TTL] - k
  {
    if k == 0 then h
    else
      OneHop(Hops(h, k - 1));
      Decremented(Hops(h, k - 1))
  }

  lemma {:induction false} HopsWeigh(h: seq<byte>, k: nat)
    requires |h| == HEADER && h[TTL] > k && LoadCheck(h) + k <= 0xFFFF
    ensures Weigh(Hops(h, k), true) == Weigh(h, true) && LoadCheck(Hops(h, k)) == LoadCheck(h) + k
  {
    if k > 0 {
      HopsWeigh(h, k - 1);
      OneHop(Hops(h, k - 1));
      DecrementedWeighs(Hops(h, k - 1));
    }
  }

  lemma SameSum(g: seq<byte>, h: seq<byte>)
    requires |g| == |h| == HEADER && Weigh(g, true) == Weigh(h, true)
    ensures Verifies(g) == Verifies(h)
  {
    VerifiesIff(g);
    VerifiesIff(h);
  }

  lemma HopsVerify(h: seq<byte>, k: nat)
    requires |h| == HEADER && h[TTL] > k && LoadCheck(h) + k <= 0xFFFF
    ensures Verifies(Hops(h, k)) == Verifies(h) && LoadCheck(Hops(h, k)) == LoadCheck(h) + k
  {
    HopsWeigh(h, k);
    SameSum(Hops(h, k), h);
  }

  /** Every hop adds one to the checksum field: a verified header arrives intact behind
      each of the next k routers exactly when its field is at least k below the wrap. */
  lemma HopsUntilWrap(h: seq<byte>, k: nat)
    requires |h| == HEADER && h[TTL] > k
    ensures Verifies(h) ==>
              ((forall j :: 0 <= j <= k ==> Verifies(Hops(h, j))) <==> LoadCheck(h) + k <= 0xFFFF)
  {
    if Verifies(h) {
      if LoadCheck(h) + k <= 0xFFFF {
        forall j | 0 <= j <= k ensures Verifies(Hops(h, j)) { HopsVerify(h, j); }
      } else {
        var j := 0xFFFF - LoadCheck(h);
        HopsVerify(h, j);
        TtlStepVerifies(Hops(h, j));
        assert !Verifies(Hops(h, j + 1));
      }
    }
  }

  /** An echo request from 10.0.0.1 to 10.0.38.169. */
  const ECHO_REQUEST: seq<byte> := [0x45, 0, 0, 0x54, 0, 0, 0x40, 0, 0x40, 1, 0xFF, 0xFF, 10, 0, 0, 1, 10, 0, 38, 169]

  function WordAt(h: seq<byte>, i: nat): int
    requires i + 2 <= |h|
  {
    h[i] + 0x100 * (h[i + 1] as int)
  }

  lemma WeighFive(h: seq<byte>, i: nat)
    requires i + 10 <= |h|
    ensures Weigh(h[i..], true) ==
              WordAt(h, i) + WordAt(h, i + 2) + WordAt(h, i + 4) + WordAt(h, i + 6) + WordAt(h, i + 8) +
              Weigh(h[i + 10..], true)
  {
    WordAhead(h, i);
    WordAhead(h, i + 2);
    WordAhead(h, i + 4);
    WordAhead(h, i + 6);
    WordAhead(h, i + 8);
  }

  /** One header that verifies, and after one hop does not. */
  lemma EchoRequestBreaks()
    ensures Verifies(ECHO_REQUEST) && !Verifies(Decremented(ECHO_REQUEST))
  {
    EchoRequestWeighs(ECHO_REQUEST);
    BreaksAtWrap(ECHO_REQUEST);
  }

  lemma EchoRequestWords(h: seq<byte>)
    requires h == ECHO_REQUEST
    ensures WordAt(h, 0) == 0x45 && WordAt(h, 2) == 0x5400 && WordAt(h, 4) == 0
    ensures WordAt(h, 6) == 0x40 && WordAt(h, 8) == 0x140
    ensures WordAt(h, 10) == 0xFFFF && WordAt(h, 12) == 10 && WordAt(h, 14) == 0x100
    ensures WordAt(h, 16) == 10 && WordAt(h, 18) == 38 + 0x100 * 169
  {
  }

  lemma TenWordsWeigh(h: seq<byte>)
    requires |h| == HEADER
    ensures Weigh(h, true) ==
              WordAt(h, 0) + WordAt(h, 2) + WordAt(h, 4) + WordAt(h, 6) + WordAt(h, 8) +
              WordAt(h, 10) + WordAt(h, 12) + WordAt(h, 14) + WordAt(h, 16) + WordAt(h, 18)
  {
    WeighFive(h, 0);
    WeighFive(h, 10);
    assert h[0..] == h && h[20..] == [];
  }

  lemma EchoRequestWeighs(h: seq<byte>)
    requires h == ECHO_REQUEST
    ensures |h| == HEADER && Weigh(h, true) == 2 * 0xFFFF
  {
    EchoRequestWords(h);
    TenWordsWeigh(h);
  }

  lemma WeighsVerify(h: seq<byte>)
    requires |h| == HEADER && Weigh(h, true) == 2 * 0xFFFF
    ensures Verifies(h)
  {
    VerifiesIff(h);
  }

  lemma BreaksAtWrap(h: seq<byte>)
    requires |h| == HEADER && h[TTL] >= 2 && LoadCheck(h) == 0xFFFF && Weigh(h, true) == 2 * 0xFFFF
    ensures Verifies(h) && !Verifies(Decremented(h))
  {
    WeighsVerify(h);
    TtlStepVerifies(h);
  }

  /** The checksum computed from scratch over a header whose field is zeroed. */
  function Recomputed(h: seq<byte>): u16
    requires |h| == HEADER
  {
    Swap16(0xFFFF - Fold(Sum16(h[CHECK := 0][CHECK + 1 := 0])))
  }

  /** For a verified header the incremental update stores what computing from scratch
      would store exactly when the old field was below 0xFFFE: the other two values
      meet the two representations of zero. */
  lemma UpdateMatchesRecomputation(h: seq<byte>)
    requires |h| == HEADER && h[TTL] >= 2
    ensures Verifies(h) ==> (LoadCheck(Decremented(h)) == Recomputed(Decremented(h)) <==> LoadCheck(h) < 0xFFFE)
  {
    if Verifies(h) {
      var d := Decremented(h);
      var zeroed := d[CHECK := 0][CHECK + 1 := 0];
      VerifiesIff(h);
      DecrementedWeighs(h);
      WeighStored(d, 0);
      SwappedChecksum(zeroed);
      CheckPlusOne(LoadCheck(h), h[TTL] - 1);
      assert LoadCheck(d) == CalculateChecksum(LoadCheck(h), h[TTL] - 1);
      FoldOpposite(Weigh(zeroed, true), LoadCheck(h), LoadCheck(d));
    }
  }

  lemma FoldOpposite(w: nat, check: u16, check': u16)
    requires check' == if check == 0xFFFF then 0 else check + 1
    requires Cong(w + check' + (if check == 0xFFFF then 0x1_0000 else 0), 0)
    ensures check' == 0xFFFF - Fold(w) <==> check < 0xFFFE
  {
  }

  datatype Verdict = TimeExceeded | BadChecksum | Forward

  /** main's TTL and checksum step on a received header. */
  method ForwardHeader(h: array<byte>, address: nat) returns (v: Verdict)
    requires h.Length == HEADER
    modifies h
    ensures v.TimeExceeded? <==> old(h[TTL]) <= 1
    ensures v.BadChecksum? <==> old(h[TTL]) > 1 && !Verifies(old(h[..]))
    ensures h[..] == if v.Forward? then Decremented(old(h[..])) else old(h[..])
  {
    if h[TTL] <= 1 { return TimeExceeded; }
    var intact := HeaderVerifies(h[..], address);
    if !intact { return BadChecksum; }
    DecrementTtl(h);
    v := Forward;
  }

  method HeaderVerifies(h: seq<byte>, address: nat) returns (ok: bool)
    requires |h| == HEADER
    ensures ok == Verifies(h)
  {
    var check := IpChecksum(h, address);
    ok := check == 0;
  }

  method DecrementTtl(h: array<byte>)
    requires h.Length == HEADER && h[TTL] > 0
    modifies h
    ensures h[..] == Decremented(old(h[..]))
  {
    h[TTL] := h[TTL] - 1;
    var stored := CalculateChecksum(h[CHECK] + 0x100 * (h[CHECK + 1] as int), h[TTL]);
    h[CHECK], h[CHECK + 1] := stored % 0x100, stored / 0x100;
  }
}
