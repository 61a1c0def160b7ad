/** The Internet checksum as two of the labs compute it. */
module Checksum {
  import opened Seq32

  const WORD := 0x1_0000

  /** The 16-bit words of a buffer, low byte first, a last odd byte counting alone. */
  function WordsOf(bytes: seq<byte>): seq<nat>
    decreases |bytes|
  {
    if bytes == [] then []
    else if |bytes| == 1 then [bytes[0] as nat]
    else [bytes[0] as nat + 256 * bytes[1] as nat] + WordsOf(bytes[2..])
  }

  function Sum(words: seq<nat>): nat
  {
    if words == [] then 0 else Sum(words[..|words| - 1]) + words[|words| - 1]
  }

  /** One fold: the carries are added back in. */
  function Fold(sum: nat): nat { sum / WORD + sum % WORD }

  /** Folding until nothing is left above 16 bits. */
  function FoldAll(sum: nat): (r: nat)
    ensures r < WORD
    decreases sum
  {
    if sum < WORD then sum
    else
      assert sum == sum / WORD * WORD + sum % WORD;
      FoldAll(Fold(sum))
  }

  lemma FoldKeepsResidue(sum: nat)
    ensures Fold(sum) % 65535 == sum % 65535
    ensures 0 < sum ==> 0 < Fold(sum)
  {}

  lemma MultipleVanishes(q: nat, r: nat)
    ensures (65535 * q + r) % 65535 == r % 65535
  {}

  /** Folding keeps the sum modulo 65535, and is 0 for 0 only. */
  lemma {:induction false} FoldAllKeepsResidue(sum: nat)
    ensures FoldAll(sum) % 65535 == sum % 65535
    ensures FoldAll(sum) == 0 <==> sum == 0
    decreases sum
  {
    if WORD <= sum {
      FoldKeepsResidue(sum);
      FoldAllKeepsResidue(Fold(sum));
    }
  }

  /** The two folds of the router lab: the second keeps what it adds to, and the result is cut
      to 16 bits. */
  function FoldTwice(sum: nat): nat
  {
    var once := Fold(sum);
    (once + once / WORD) % WORD
  }

  /** For every 32-bit sum, two folds are enough. */
  lemma {:induction false} TwoFoldsSuffice(sum: nat)
    requires sum < MODULUS
    ensures FoldTwice(sum) == FoldAll(sum)
  {
    var once := Fold(sum);
    assert sum / WORD < WORD && once <= 2 * (WORD - 1);
    if sum < WORD {
      assert once == sum;
    } else {
      assert FoldAll(sum) == FoldAll(once);
      if WORD <= once {
        assert once / WORD == 1 && once % WORD == once - WORD;
        assert FoldAll(once) == Fold(once) == once - WORD + 1;
        assert (once + 1) % WORD == once + 1 - WORD;
      }
    }
  }

  function Complement(x: nat): nat
    requires x < WORD
  {
    WORD - 1 - x
  }

  // -------------------------------------------------------------------------- the methods

  lemma {:induction false} SumOfBoth(a: seq<nat>, b: seq<nat>)
    ensures Sum(a + b) == Sum(a) + Sum(b)
  {
    if b == [] {
      assert a + b == a;
    } else {
      assert (a + b)[..|a + b| - 1] == a + b[..|b| - 1];
      SumOfBoth(a, b[..|b| - 1]);
    }
  }

  /** The word at byte `e`. */
  function Pair(bytes: seq<byte>, e: nat): nat
    requires e + 2 <= |bytes|
  {
    bytes[e] as nat + 256 * bytes[e + 1] as nat
  }

  lemma {:induction false} WordsSplit(bytes: seq<byte>, e: nat)
    requires e % 2 == 0 && e <= |bytes|
    ensures Sum(WordsOf(bytes)) == Sum(WordsOf(bytes[..e])) + Sum(WordsOf(bytes[e..]))
    decreases e
  {
    if e == 0 {
      assert bytes[0..] == bytes;
    } else {
      WordsSplit(bytes[2..], e - 2);
      assert bytes[..e][2..] == bytes[2..][..e - 2];
      assert bytes[e..] == bytes[2..][e - 2..];
      var w := Pair(bytes, 0);
      SumOfBoth([w], WordsOf(bytes[2..]));
      SumOfBoth([w], WordsOf(bytes[..e][2..]));
    }
  }

  lemma SumOfOne(w: nat)
    ensures Sum([w]) == w
  {}

  lemma OnePair(bytes: seq<byte>)
    requires |bytes| == 2
    ensures Sum(WordsOf(bytes)) == bytes[0] as nat + 256 * bytes[1] as nat
  {}

  lemma OneMoreWord(bytes: seq<byte>, e: nat)
    requires e % 2 == 0 && e + 2 <= |bytes|
    ensures Sum(WordsOf(bytes[..e + 2])) == Sum(WordsOf(bytes[..e])) + Pair(bytes, e)
  {
    var front := bytes[..e + 2];
    WordsSplit(front, e);
    assert front[..e] == bytes[..e];
    OnePair(front[e..]);
  }

  /** The initial value and all words, before anything wraps. */
  function Total(bytes: seq<byte>, start: nat): nat
  {
    start + Sum(WordsOf(bytes))
  }

  lemma AddedWord(bytes: seq<byte>, e: nat, start: nat)
    requires e % 2 == 0 && e + 2 <= |bytes|
    ensures Wrap(Wrap(Total(bytes[..e], start)) + Pair(bytes, e)) == Wrap(Total(bytes[..e + 2], start))
  {
    OneMoreWord(bytes, e);
    WrapPlus(Total(bytes[..e], start), Pair(bytes, e));
  }

  lemma OddLastByte(bytes: seq<byte>)
    requires |bytes| % 2 == 1
    ensures Sum(WordsOf(bytes)) == Sum(WordsOf(bytes[..|bytes| - 1])) + bytes[|bytes| - 1] as nat
  {
    WordsSplit(bytes, |bytes| - 1);
    var last := bytes[|bytes| - 1..];
    assert WordsOf(last) == [last[0] as nat];
    SumOfOne(last[0] as nat);
  }

  /** The checksum of a buffer with an initial value; the sum is a 32-bit word and wraps. */
  function ChecksumOf(bytes: seq<byte>, start: nat): nat
  {
    Complement(FoldAll(Wrap(Total(bytes, start))))
  }

  /** The bytes' own sum: those at odd places count 256 times. */
  function SumOfBytes(bytes: seq<byte>): nat
  {
    if bytes == [] then 0
    else
      var last := |bytes| - 1;
      SumOfBytes(bytes[..last]) + bytes[last] as nat * (if last % 2 == 0 then 1 else 256)
  }

  lemma {:induction false} WordsCountBytes(bytes: seq<byte>)
    ensures Sum(WordsOf(bytes)) == SumOfBytes(bytes)
    decreases |bytes|
  {
    var n := |bytes|;
    if n % 2 == 1 {
      OddLastByte(bytes);
      WordsCountBytes(bytes[..n - 1]);
    } else if n > 0 {
      OneMoreWord(bytes, n - 2);
      WordsCountBytes(bytes[..n - 2]);
      assert bytes[..n] == bytes && bytes[..n - 1][..n - 2] == bytes[..n - 2];
    }
  }

  /** What a checksum says: the initial value, the bytes and the checksum together are a multiple of
      65535, as long as the 32-bit sum does not wrap. */
  lemma ChecksumBalances(bytes: seq<byte>, start: nat)
    requires start + SumOfBytes(bytes) < MODULUS
    ensures (start + SumOfBytes(bytes) + ChecksumOf(bytes, start)) % 65535 == 0
  {
    WordsCountBytes(bytes);
    SmallIsUnwrapped(Total(bytes, start));
    FoldAllKeepsResidue(Total(bytes, start));
    Balanced(Total(bytes, start), FoldAll(Total(bytes, start)));
  }

  lemma SmallIsUnwrapped(n: nat)
    requires n < MODULUS
    ensures Wrap(n) == n
  {}

  lemma Balanced(sum: nat, folded: nat)
    requires folded % 65535 == sum % 65535 && folded < WORD
    ensures (sum + Complement(folded)) % 65535 == 0
  {}

  /** A wrapped sum loses one per wrap-around modulo 65535, so it is a faithful checksum sum
      exactly when the number of wrap-arounds is a multiple of 65535; none is the usual one. */
  lemma {:induction false} WrappedSumKeepsResidue(sum: nat)
    ensures FoldAll(Wrap(sum)) % 65535 == sum % 65535 <==> (sum / MODULUS) % 65535 == 0
  {
    FoldAllKeepsResidue(Wrap(sum));
    var q, r := sum / MODULUS, Wrap(sum);
    assert sum == 65535 * (65537 * q) + (q + r);
    MultipleVanishes(65537 * q, q + r);
    assert q + r == 65535 * (q / 65535) + (q % 65535 + r);
    MultipleVanishes(q / 65535, q % 65535 + r);
    ResidueShifts(r, q % 65535);
  }

  lemma ResidueShifts(r: nat, d: nat)
    requires d < 65535
    ensures (d + r) % 65535 == r % 65535 <==> d == 0
  {}

  /** The NAT lab's: words by index, a last odd byte, then folds in a loop. */
  method FoldingChecksum(buf: seq<byte>, start: nat) returns (r: nat)
    requires start < MODULUS
    ensures r == ChecksumOf(buf, start)
  {
    var sum := AddWords(buf, start);
    if |buf| % 2 != 0 {
      OddLastByte(buf);
      WrapPlus(Total(buf[..|buf| - 1], start), buf[|buf| - 1] as nat);
      sum := Wrap(sum + buf[|buf| - 1] as nat);
    } else {
      assert buf[..|buf|] == buf;
    }
    sum := FoldLoop(sum);
    return Complement(sum);
  }

  method AddWords(buf: seq<byte>, start: nat) returns (sum: nat)
    requires start < MODULUS
    ensures sum == Wrap(Total(buf[..|buf| - |buf| % 2], start))
  {
    sum := start;
    for i := 0 to |buf| / 2
      invariant sum == Wrap(Total(buf[..2 * i], start))
    {
      AddedWord(buf, 2 * i, start);
      sum := Wrap(sum + Pair(buf, 2 * i));
    }
  }

  method FoldLoop(start: nat) returns (sum: nat)
    ensures sum == FoldAll(start)
  {
    sum := start;
    while sum / WORD != 0
      invariant FoldAll(sum) == FoldAll(start)
      decreases sum
    {
      assert sum == sum / WORD * WORD + sum % WORD;
      sum := sum / WORD + sum % WORD;
    }
  }

  /** The router lab's: the odd byte first, then the words by a moving pointer, two folds. */
  method TwoFoldChecksum(buf: seq<byte>, start: nat) returns (r: nat)
    requires start < MODULUS
    ensures r == ChecksumOf(buf, start)
  {
    var sum := AddOddFirst(buf, start);
    TwoFoldsSuffice(sum);
    sum := sum / WORD + sum % WORD;
    sum := sum + sum / WORD;
    return Complement(sum % WORD);
  }

  method AddOddFirst(buf: seq<byte>, start: nat) returns (sum: nat)
    requires start < MODULUS
    ensures sum == Wrap(Total(buf, start))
  {
    var nbytes := |buf|;
    sum := start;
    if nbytes % 2 != 0 {
      nbytes := nbytes - 1;
      sum := Wrap(sum + buf[nbytes] as nat);
      OddLastByte(buf);
      WrapEarly(start + buf[nbytes] as nat, Sum(WordsOf(buf[..nbytes])), Total(buf, start));
    } else {
      assert buf[..nbytes] == buf;
    }
    sum := AddPairs(buf, nbytes, sum);
  }

  lemma WrapEarly(a: int, b: int, total: int)
    requires total == a + b
    ensures Wrap(Wrap(a) + b) == Wrap(total)
  {}

  method AddPairs(buf: seq<byte>, even: nat, start: nat) returns (sum: nat)
    requires even <= |buf| && even % 2 == 0 && start < MODULUS
    ensures sum == Wrap(Total(buf[..even], start))
  {
    var nbytes, ptr := even, 0;
    sum := start;
    while nbytes > 0
      invariant 0 <= nbytes && ptr + nbytes == even && nbytes % 2 == 0
      invariant sum == Wrap(Total(buf[..ptr], start))
      decreases nbytes
    {
      AddedWord(buf, ptr, start);
      sum := Wrap(sum + Pair(buf, ptr));
      ptr := ptr + 2;
      nbytes := nbytes - 2;
    }
  }

  // ------------------------------------------------------------------------ its properties

  lemma TakenOutOfSum(p: seq<nat>, x: nat, q: seq<nat>)
    ensures Sum(p + ([x] + q)) == Sum(p + q) + x
  {
    SumOfBoth(p, [x] + q);
    SumOfBoth([x], q);
    SumOfBoth(p, q);
    SumOfOne(x);
  }

  lemma TakenOutOfMultiset(p: seq<nat>, x: nat, q: seq<nat>)
    ensures multiset(p + ([x] + q)) == multiset(p + q) + multiset{x}
  {}

  lemma CancelOne(m: multiset<nat>, n: multiset<nat>, x: nat)
    requires m + multiset{x} == n + multiset{x}
    ensures m == n
  {
    assert m == (m + multiset{x}) - multiset{x} && n == (n + multiset{x}) - multiset{x};
  }

  /** The sum, and so the checksum, does not depend on the order of the words. */
  lemma {:induction false} SumIgnoresOrder(a: seq<nat>, b: seq<nat>)
    requires multiset(a) == multiset(b)
    ensures Sum(a) == Sum(b)
    decreases |a|
  {
    assert |multiset(a)| == |a| && |multiset(b)| == |b|;
    if a != [] {
      var front, x := a[..|a| - 1], a[|a| - 1];
      assert a == front + [x];
      assert x in multiset(b);
      var i :| 0 <= i < |b| && b[i] == x;
      var p, q := b[..i], b[i + 1..];
      assert b == p + ([x] + q);
      TakenOutOfMultiset(p, x, q);
      CancelOne(multiset(front), multiset(p + q), x);
      TakenOutOfSum(p, x, q);
      SumIgnoresOrder(front, p + q);
    }
  }

  lemma ZeroedWord(words: seq<nat>, i: nat)
    requires i < |words|
    ensures Sum(words) == Sum(words[i := 0]) + words[i]
  {
    assert words == words[..i] + ([words[i]] + words[i + 1..]);
    assert words[i := 0] == words[..i] + ([0] + words[i + 1..]);
    TakenOutOfSum(words[..i], words[i], words[i + 1..]);
    TakenOutOfSum(words[..i], 0, words[i + 1..]);
  }

  lemma ComplementCompletes(sum: nat, f: nat)
    requires f < WORD && f % 65535 == sum % 65535 && (f == 0 <==> sum == 0)
    ensures (sum + Complement(f)) % 65535 == 0 && sum + Complement(f) != 0
  {}

  /** A sum near the top of 32 bits has a checksum small enough to be added to it. */
  lemma CheckFits(sum: nat)
    requires sum < MODULUS
    ensures sum + Complement(FoldAll(sum)) < MODULUS
  {
    var r := sum % WORD;
    if MODULUS - WORD <= sum {
      assert sum / WORD == WORD - 1 && sum == (WORD - 1) * WORD + r;
      assert Fold(sum) == WORD - 1 + r;
      if r > 0 {
        assert Fold(WORD + (r - 1)) == r;
        assert FoldAll(sum) == FoldAll(Fold(sum)) == FoldAll(r) == r;
      }
    }
  }

  lemma FoldsToAllOnes(sum: nat)
    ensures FoldAll(sum) == 0xffff <==> sum % 65535 == 0 && sum != 0
  {
    FoldAllKeepsResidue(sum);
  }

  lemma CheckedSum(sum: nat)
    requires sum < MODULUS
    ensures FoldAll(sum + Complement(FoldAll(sum))) == 0xffff
  {
    FoldAllKeepsResidue(sum);
    ComplementCompletes(sum, FoldAll(sum));
    FoldsToAllOnes(sum + Complement(FoldAll(sum)));
  }

  /** The check of a total that wraps or not, added to it. */
  lemma CheckAdded(base: nat, total: nat)
    requires total == base + Complement(FoldAll(Wrap(base)))
    ensures FoldAll(Wrap(total)) == 0xffff
  {
    var sum := Wrap(base);
    WrapPlus(base, Complement(FoldAll(sum)));
    CheckFits(sum);
    CheckedSum(sum);
  }

  /** A receiver's check. The checksum is computed with its own word zero and stored there; the
      sum that the receiver forms over all then folds to 0xffff, whatever the words and the
      initial value, and whether or not the sums wrap at 32 bits. */
  lemma {:induction false} StoredChecksumVerifies(words: seq<nat>, i: nat, start: nat)
    requires i < |words| && words[i] == 0
    ensures var check := Complement(FoldAll(Wrap(start + Sum(words))));
            FoldAll(Wrap(start + Sum(words[i := check]))) == 0xffff
  {
    var check := Complement(FoldAll(Wrap(start + Sum(words))));
    var stored := words[i := check];
    ZeroedWord(stored, i);
    assert stored[i := 0] == words;
    CheckAdded(start + Sum(words), start + Sum(stored));
  }

  // ----------------------------------------------------------------------------- on buffers

  /** The two bytes at `e` replaced by a checksum, low byte first. */
  function Stored(bytes: seq<byte>, e: nat, check: nat): (r: seq<byte>)
    requires e + 2 <= |bytes| && check < WORD
    ensures |r| == |bytes| && r[..e] == bytes[..e] && r[e + 2..] == bytes[e + 2..]
    ensures Pair(r, e) == check
  {
    bytes[e := (check % 256) as byte][e + 1 := (check / 256) as byte]
  }

  lemma SumAround(bytes: seq<byte>, e: nat)
    requires e % 2 == 0 && e + 2 <= |bytes|
    ensures Sum(WordsOf(bytes)) == Sum(WordsOf(bytes[..e])) + Pair(bytes, e) + Sum(WordsOf(bytes[e + 2..]))
  {
    WordsSplit(bytes, e + 2);
    OneMoreWord(bytes, e);
  }

  lemma StoredAdds(bytes: seq<byte>, e: nat, check: nat)
    requires e % 2 == 0 && e + 2 <= |bytes| && bytes[e] == 0 && bytes[e + 1] == 0 && check < WORD
    ensures Sum(WordsOf(Stored(bytes, e, check))) == Sum(WordsOf(bytes)) + check
  {
    SumAround(bytes, e);
    SumAround(Stored(bytes, e, check), e);
  }

  /** What a sender stores a receiver accepts: in every buffer, of even or odd length, with its
      checksum stored in a zeroed word, the checksum computed over all of it is 0. */
  lemma {:induction false} StoredBufferVerifies(bytes: seq<byte>, e: nat, start: nat)
    requires e % 2 == 0 && e + 2 <= |bytes| && bytes[e] == 0 && bytes[e + 1] == 0
    ensures ChecksumOf(bytes, start) < WORD
    ensures ChecksumOf(Stored(bytes, e, ChecksumOf(bytes, start)), start) == 0
  {
    var check := ChecksumOf(bytes, start);
    StoredAdds(bytes, e, check);
    CheckAdded(Total(bytes, start), Total(Stored(bytes, e, check), start));
  }

  /** And what a receiver accepts: exactly the buffers whose sum, in 32 bits, is a multiple of
      65535 other than 0. */
  lemma AcceptsExactly(bytes: seq<byte>, start: nat)
    ensures var sum := Wrap(Total(bytes, start));
            ChecksumOf(bytes, start) == 0 <==> sum % 65535 == 0 && sum != 0
  {
    FoldsToAllOnes(Wrap(Total(bytes, start)));
  }
}
