/**
  The Internet checksum of `ComPinger::checksum` (RFC 1071), used for ICMP echo requests: a running 32-bit sum of
  16-bit words, two folds of the carries, and the complement.
 */
module Checksum {

  type Byte = x: int | 0 <= x < 0x100
  type Word = x: int | 0 <= x < 0x1_0000

  const INT32_MAX := 0x7FFF_FFFF
  const ONES := 0xFFFF

  /** `Overflow` is signed overflow of the running sum. */
  datatype Result = Answer(value: Word) | Overflow

  /** The `uint16_t` at `buf + i` on the little-endian target. */
  function WordAt(b: seq<Byte>, i: nat): Word
    requires 2 * i + 1 < |b|
  {
    var lo: int, hi: int := b[2 * i], b[2 * i + 1];
    lo + 0x100 * hi
  }

  function Words(b: seq<Byte>): (ws: seq<Word>)
    ensures |ws| == |b| / 2
    ensures forall i :: 0 <= i < |ws| ==> ws[i] == WordAt(b, i)
  {
    seq(|b| / 2, i requires 0 <= i < |b| / 2 => WordAt(b, i))
  }

  function Sum(ws: seq<Word>, n: nat): nat
    requires n <= |ws|
  {
    if n == 0 then 0 else Sum(ws, n - 1) + ws[n - 1]
  }

  /** The sum the loop accumulates: all words, and a trailing odd byte by its own value. */
  function Total(b: seq<Byte>): nat {
    Sum(Words(b), |b| / 2) + if |b| % 2 == 1 then b[|b| - 1] else 0
  }

  /** The two folding statements, and the truncation to 16 bits. */
  function Fold(sum: nat): Word {
    var s1 := sum / 0x1_0000 + sum % 0x1_0000;
    var s2 := s1 + s1 / 0x1_0000;
    s2 % 0x1_0000
  }

  /** The one's-complement residue: `sum` modulo 65535, with 65535 for a non-zero multiple. */
  function Residue(sum: nat): Word {
    if sum == 0 then 0 else (sum - 1) % ONES + 1
  }

  method ComputeChecksum(b: seq<Byte>) returns (r: Result)
    ensures Total(b) <= 0x7FFF_FFFF ==> r == Answer(ChecksumOf(b))
    ensures Total(b) > 0x7FFF_FFFF ==> r == Overflow
  {
    var nleft, sum, w := |b|, 0, 0;
    while nleft > 1
      invariant 0 <= nleft && 2 * w + nleft == |b|
      invariant 0 <= sum == Sum(Words(b), w) <= INT32_MAX
    {
      if sum + WordAt(b, w) > INT32_MAX {
        SumMonotone(Words(b), w + 1, |b| / 2);
        return Overflow;
      }
      sum := sum + WordAt(b, w);
      w, nleft := w + 1, nleft - 2;
    }
    if nleft == 1 {
      if sum + b[2 * w] > INT32_MAX { return Overflow; }
      sum := sum + b[2 * w];
    }
    assert sum == Total(b);
    var answer := FoldCarries(sum);
    return Answer(answer);
  }

  /** The last three statements. */
  method FoldCarries(total: nat) returns (answer: Word)
    requires total <= INT32_MAX
    ensures answer == ONES - Residue(total)
  {
    FoldIsResidue(total);
    var sum := total / 0x1_0000 + total % 0x1_0000;
    sum := sum + sum / 0x1_0000;
    answer := ONES - sum % 0x1_0000;
  }

  /** Two folds lose no carry of a sum that fits an `int32_t`. */
  lemma FoldIsResidue(sum: nat)
    requires sum <= INT32_MAX
    ensures Fold(sum) == Residue(sum)
  {
    var hi, lo := sum / 0x1_0000, sum % 0x1_0000;
    var s1 := hi + lo;
    assert sum == s1 + ONES * hi;
    if s1 < 0x1_0000 {
      if sum > 0 { ResidueUnique(sum, s1, hi); }
    } else {
      assert s1 / 0x1_0000 == 1;
      ResidueUnique(sum, s1 - ONES, hi + 1);
    }
  }

  lemma ResidueUnique(sum: nat, r: Word, k: nat)
    requires sum == r + ONES * k && r > 0
    ensures Residue(sum) == r
  {
    assert (sum - 1) % ONES == r - 1;
  }

  lemma {:induction false} SumMonotone(ws: seq<Word>, m: nat, n: nat)
    requires m <= n <= |ws|
    ensures Sum(ws, m) <= Sum(ws, n)
    decreases n - m
  {
    if m < n {
      SumMonotone(ws, m, n - 1);
    }
  }

  // ---- When the sum fits ----

  lemma {:induction false} SumBound(ws: seq<Word>, n: nat)
    requires n <= |ws|
    ensures Sum(ws, n) <= ONES * n
  {
    if n > 0 {
      SumBound(ws, n - 1);
    }
  }

  /** Up to 32768 words and an odd byte can never overflow the running sum... */
  lemma ShortBuffersFit(b: seq<Byte>)
    requires |b| <= 2 * 0x8000 + 1
    ensures Total(b) <= INT32_MAX
  {
    SumBound(Words(b), |b| / 2);
  }

  /** ... and that is the best bound: every longer length has a buffer that overflows. */
  lemma LongBuffersOverflow(n: nat) returns (b: seq<Byte>)
    requires n > 2 * 0x8000 + 1
    ensures |b| == n && Total(b) > INT32_MAX
  {
    b := seq(n, _ => 0xFF);
    AllOnesSum(Words(b), n / 2);
  }

  lemma {:induction false} AllOnesSum(ws: seq<Word>, n: nat)
    requires n <= |ws| && forall i :: 0 <= i < |ws| ==> ws[i] == ONES
    ensures Sum(ws, n) == ONES * n
  {
    if n > 0 {
      AllOnesSum(ws, n - 1);
    }
  }

  // ---- RFC 1071 section 1: a buffer that carries its checksum sums to all ones ----

  /** The checksum of `b` as a value, for sums that fit. */
  function ChecksumOf(b: seq<Byte>): Word { ONES - Residue(Total(b)) }

  /** The first `n` bytes as digits of 16-bit numbers: those at odd places count 256 times. */
  ghost function Weighted(b: seq<Byte>, n: nat): nat
    requires n <= |b|
  {
    if n == 0 then 0 else var last: int := b[n - 1]; Weighted(b, n - 1) + if n % 2 == 1 then last else 0x100 * last
  }

  lemma {:induction false} SumIsWeighted(b: seq<Byte>, k: nat, n: nat)
    requires n == 2 * k <= |b|
    ensures Sum(Words(b), k) == Weighted(b, n)
  {
    if k > 0 {
      SumIsWeighted(b, k - 1, n - 2);
      var odd := n - 1;
      assert Weighted(b, odd) == Weighted(b, n - 2) + b[n - 2];
    }
  }

  /** A trailing odd byte counts like the low byte of a word. */
  lemma TotalIsWeighted(b: seq<Byte>)
    ensures Total(b) == Weighted(b, |b|)
  {
    SumIsWeighted(b, |b| / 2, |b| / 2 * 2);
  }

  /** The one word that brings the sum to a multiple of 65535; of the two such words, 65535 for a sum of 0 only. */
  lemma ChecksumExactly(b: seq<Byte>, w: Word)
    ensures ChecksumOf(b) == w <==>
      (Weighted(b, |b|) + w) % 0xFFFF == 0 && (w == 0xFFFF <==> Weighted(b, |b|) == 0)
  {
    TotalIsWeighted(b);
    var s := Total(b);
    ResidueCongruent(s);
    if s > 0 {
      var r, k := Residue(s), (s - Residue(s)) / ONES;
      ComplementUnique(s, r, k, w);
    }
  }

  lemma ComplementUnique(s: nat, r: Word, k: nat, w: Word)
    requires s == r + 0xFFFF * k && 0 < r
    ensures (s + w) % 0xFFFF == 0 && w != 0xFFFF <==> w == 0xFFFF - r
  {
    assert (s + w) % 0xFFFF == (r + w) % 0xFFFF;
    assert r + w == 2 * 0xFFFF <==> r == 0xFFFF && w == 0xFFFF;
  }

  function PutWord(b: seq<Byte>, i: nat, w: Word): (b': seq<Byte>)
    requires 2 * i + 1 < |b|
    ensures |b'| == |b| && WordAt(b', i) == w
  {
    b[2 * i := w % 0x100][2 * i + 1 := w / 0x100]
  }

  lemma {:induction false} SumUpdate(ws: seq<Word>, ws': seq<Word>, i: nat, n: nat)
    requires |ws| == |ws'| && n <= |ws| && i < |ws|
    requires forall j :: 0 <= j < |ws| && j != i ==> ws[j] == ws'[j]
    ensures i < n ==> Sum(ws', n) == Sum(ws, n) - ws[i] + ws'[i]
    ensures n <= i ==> Sum(ws', n) == Sum(ws, n)
  {
    if n > 0 {
      SumUpdate(ws, ws', i, n - 1);
    }
  }

  lemma TotalUpdate(b: seq<Byte>, i: nat, w: Word)
    requires 2 * i + 1 < |b|
    ensures Total(PutWord(b, i, w)) == Total(b) - WordAt(b, i) + w
  {
    var b' := PutWord(b, i, w);
    assert forall j :: 0 <= j < |b| / 2 && j != i ==> WordAt(b', j) == WordAt(b, j);
    SumUpdate(Words(b), Words(b'), i, |b| / 2);
  }

  /** Writing the checksum into a word that was zero makes the checksum of the whole buffer zero. */
  lemma FilledInBufferChecks(b: seq<Byte>, i: nat)
    requires 2 * i + 1 < |b| && WordAt(b, i) == 0
    ensures ChecksumOf(PutWord(b, i, ChecksumOf(b))) == 0
  {
    var s := Total(b);
    TotalUpdate(b, i, ChecksumOf(b));
    ResidueCongruent(s);
    ResidueUnique(s + ONES - Residue(s), ONES, (s - Residue(s)) / ONES);
  }

  /** As `Ping` builds its packet: clear the checksum word, compute, store.  The receiver's check then answers 0. */
  method Seal(packet: seq<Byte>, i: nat) returns (sealed: seq<Byte>)
    requires 2 * i + 1 < |packet| <= 2 * 0x8000 + 1
    ensures |sealed| == |packet| && Total(sealed) <= INT32_MAX && ChecksumOf(sealed) == 0
    ensures forall j :: 0 <= j < |packet| && j / 2 != i ==> sealed[j] == packet[j]
  {
    sealed := PutWord(packet, i, 0);
    ShortBuffersFit(sealed);
    FilledInBufferChecks(sealed, i);
    var answer := ComputeChecksum(sealed);
    sealed := PutWord(sealed, i, answer.value);
    ShortBuffersFit(sealed);
  }

  lemma ResidueCongruent(s: nat)
    ensures Residue(s) <= s && s == Residue(s) + ONES * ((s - Residue(s)) / ONES)
  {
    if s > 0 {
      assert s - 1 == (s - 1) / ONES * ONES + (s - 1) % ONES;
      assert s - Residue(s) == ONES * ((s - 1) / ONES);
    }
  }

  lemma ZeroChecksum(b: seq<Byte>)
    ensures ChecksumOf(b) == 0 <==> Total(b) > 0 && Total(b) % ONES == 0
  {
    var s := Total(b);
    if s > 0 {
      assert s == (s - 1) + 1;
    }
  }

  /** Changing one word of a buffer that checks is noticed, unless the sum keeps its residue and is not all zero. */
  lemma OneWordChanged(b: seq<Byte>, i: nat, w: Word)
    requires 2 * i + 1 < |b| && ChecksumOf(b) == 0
    ensures ChecksumOf(PutWord(b, i, w)) == 0 <==>
            Total(PutWord(b, i, w)) > 0 && (w == WordAt(b, i) || {w, WordAt(b, i)} == {0, ONES})
  {
    var b', before := PutWord(b, i, w), WordAt(b, i);
    TotalUpdate(b, i, w);
    ZeroChecksum(b);
    ZeroChecksum(b');
    var k := Total(b) / ONES;
    assert Total(b) == ONES * k;
    assert Total(b') == ONES * k + (w - before);
    SmallMultiple(w - before, k);
    assert w - before == ONES <==> {w, before} == {0, ONES} && w != 0;
    assert w - before == -ONES <==> {w, before} == {0, ONES} && w == 0;
  }

  lemma SmallMultiple(d: int, k: nat)
    requires -ONES <= d <= ONES && ONES * k + d >= 0
    ensures (ONES * k + d) % ONES == 0 <==> d == 0 || d == ONES || d == -ONES
  {
    if d == ONES {
      assert ONES * k + d == ONES * (k + 1);
    } else if d == -ONES {
      assert ONES * k + d == ONES * (k - 1);
    } else if d >= 0 {
      assert (ONES * k + d) % ONES == d;
    } else {
      assert ONES * k + d == ONES * (k - 1) + (ONES + d);
    }
  }

  // ---- RFC 1071 section 2 (A): the order of the words does not matter ----

  lemma {:induction false} SumIsOrderFree(xs: seq<Word>, ys: seq<Word>)
    requires multiset(xs) == multiset(ys)
    ensures Sum(xs, |xs|) == Sum(ys, |ys|)
    decreases |xs|
  {
    if xs == [] {
      assert |ys| == |multiset(ys)| == 0;
    } else {
      var i := Find(ys, xs[0]);
      Removed(xs, 0);
      Removed(ys, i);
      SumIsOrderFree(Without(xs, 0), Without(ys, i));
      SumRemove(xs, 0, |xs|);
      SumRemove(ys, i, |ys|);
    }
  }

  lemma Find(ws: seq<Word>, w: Word) returns (i: nat)
    requires multiset(ws)[w] > 0
    ensures i < |ws| && ws[i] == w
  {
    assert w in multiset(ws) && w in ws;
    i :| 0 <= i < |ws| && ws[i] == w;
  }

  function Without(ws: seq<Word>, i: nat): seq<Word>
    requires i < |ws|
  {
    ws[..i] + ws[i + 1..]
  }

  lemma Removed(ws: seq<Word>, i: nat)
    requires i < |ws|
    ensures multiset(Without(ws, i)) == multiset(ws) - multiset{ws[i]}
  {
    assert ws == ws[..i] + [ws[i]] + ws[i + 1..];
  }

  lemma {:induction false} SumPrefix(ws: seq<Word>, ws': seq<Word>, n: nat)
    requires n <= |ws| && n <= |ws'| && ws[..n] == ws'[..n]
    ensures Sum(ws, n) == Sum(ws', n)
  {
    if n > 0 {
      assert ws[..n - 1] == ws[..n][..n - 1] == ws'[..n - 1];
      assert ws[n - 1] == ws[..n][n - 1] == ws'[n - 1];
      SumPrefix(ws, ws', n - 1);
    }
  }

  lemma {:induction false} SumRemove(ws: seq<Word>, i: nat, n: nat)
    requires i < n <= |ws|
    ensures Sum(ws, n) == Sum(Without(ws, i), n - 1) + ws[i]
    decreases n
  {
    var ws' := Without(ws, i);
    if n == i + 1 {
      assert ws[..i] == ws'[..i];
      SumPrefix(ws, ws', i);
    } else {
      assert ws'[n - 2] == ws[n - 1];
      SumRemove(ws, i, n - 1);
    }
  }

  lemma OrderFree(b: seq<Byte>, b': seq<Byte>)
    requires |b| == |b'| && multiset(Words(b)) == multiset(Words(b'))
    requires |b| % 2 == 1 ==> b[|b| - 1] == b'[|b| - 1]
    ensures Total(b) == Total(b') && ChecksumOf(b) == ChecksumOf(b')
  {
    SumIsOrderFree(Words(b), Words(b'));
  }

  // ---- RFC 1071 section 2 (B): byte order does not matter ----

  function Swap(w: Word): Word { w % 0x100 * 0x100 + w / 0x100 }

  function SwapBytes(b: seq<Byte>): seq<Byte>
    requires |b| % 2 == 0
  {
    seq(|b|, i requires 0 <= i < |b| => b[Neighbour(i)])
  }

  function Neighbour(i: nat): nat {
    if i % 2 == 0 then i + 1 else i - 1
  }

  lemma SwappedWords(b: seq<Byte>, b': seq<Byte>)
    requires |b| % 2 == 0 && b' == SwapBytes(b)
    ensures SwapsWords(b, b')
  {
    forall i | 0 <= i < |b| / 2 ensures WordAt(b', i) == Swap(WordAt(b, i)) {
      var lo, hi := 2 * i, 2 * i + 1;
      assert Neighbour(lo) == hi && Neighbour(hi) == lo;
      assert b'[lo] == b[hi] && b'[hi] == b[lo];
    }
  }

  /** Swapping bytes multiplies by 256 modulo 65535. */
  lemma SwapIsShift(w: Word)
    ensures 0x100 * w == Swap(w) + ONES * (w / 0x100)
    ensures Swap(w) == 0 <==> w == 0
    ensures Swap(ONES - w) == ONES - Swap(w)
  {
    assert w == w / 0x100 * 0x100 + w % 0x100;
    var hi, lo := w / 0x100, w % 0x100;
    assert ONES - w == (0xFF - hi) * 0x100 + (0xFF - lo);
    assert (ONES - w) / 0x100 == 0xFF - hi && (ONES - w) % 0x100 == 0xFF - lo;
  }

  lemma {:induction false} SumOfSwapped(ws: seq<Word>, ws': seq<Word>, n: nat) returns (k: nat)
    requires n <= |ws| == |ws'| && forall i :: 0 <= i < n ==> ws'[i] == Swap(ws[i])
    ensures 0x100 * Sum(ws, n) == Sum(ws', n) + ONES * k
    ensures Sum(ws', n) == 0 <==> Sum(ws, n) == 0
  {
    if n == 0 {
      k := 0;
    } else {
      k := SumOfSwapped(ws, ws', n - 1);
      SwapIsShift(ws[n - 1]);
      k := k + ws[n - 1] / 0x100;
    }
  }

  /** Words byte-swapped one by one. */
  ghost predicate SwapsWords(b: seq<Byte>, b': seq<Byte>) {
    |b| == |b'| && |b| % 2 == 0 && forall i :: 0 <= i < |b| / 2 ==> WordAt(b', i) == Swap(WordAt(b, i))
  }

  /** The checksum of the byte-swapped buffer is the byte-swapped checksum. */
  lemma ByteOrderFree(b: seq<Byte>)
    requires |b| % 2 == 0
    ensures ChecksumOf(SwapBytes(b)) == Swap(ChecksumOf(b))
  {
    SwappedWords(b, SwapBytes(b));
    SwappedChecksum(b, SwapBytes(b));
  }

  lemma SwappedChecksum(b: seq<Byte>, b': seq<Byte>)
    requires SwapsWords(b, b')
    ensures ChecksumOf(b') == Swap(ChecksumOf(b))
  {
    var k := SwappedTotals(b, b');
    SwappedResidues(Total(b), Total(b'), k);
  }

  lemma SwappedTotals(b: seq<Byte>, b': seq<Byte>) returns (k: nat)
    requires SwapsWords(b, b')
    ensures 0x100 * Total(b) == Total(b') + ONES * k && (Total(b') == 0 <==> Total(b) == 0)
  {
    k := SumOfSwapped(Words(b), Words(b'), |b| / 2);
  }

  lemma SwappedResidues(s: nat, s': nat, k: nat)
    requires 0x100 * s == s' + ONES * k && (s' == 0 <==> s == 0)
    ensures ONES - Residue(s') == Swap(ONES - Residue(s))
  {
    var r := Residue(s);
    SwapIsShift(r);
    if s > 0 {
      ResidueCongruent(s);
      SwappedResidue(s, s', k, r, (s - r) / ONES);
    }
  }

  lemma SwappedResidue(s: nat, s': nat, k: nat, r: Word, q: nat)
    requires s == r + ONES * q && r > 0 && s' > 0 && 0x100 * s == s' + ONES * k
    ensures Residue(s') == Swap(r)
  {
    SwapIsShift(r);
    // s' and Swap(r) differ by a multiple of 65535, and Swap(r) is between 1 and 65535.
    var d := r / 0x100 + 0x100 * q - k;
    assert s' == Swap(r) + ONES * d;
    assert d >= 0;
    ResidueUnique(s', Swap(r), d);
  }
}
