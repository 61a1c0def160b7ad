/** 32-bit words as their bits, most significant first, with the operations that the lookups
    use, and contiguous masks. */
module Bits {
  type Word = w: seq<bool> | |w| == 32 witness seq(32, _ => false)

  const ZERO: Word := seq(32, _ => false)

  function And(a: Word, b: Word): (c: Word)
    ensures forall k :: 0 <= k < 32 ==> c[k] == (a[k] && b[k])
  {
    seq(32, k requires 0 <= k < 32 => a[k] && b[k])
  }

  /** w >> 1 on unsigned words, and on ints, where the sign bit is copied. */
  function Shift(w: Word): Word { [false] + w[..31] }
  function ShiftSigned(w: Word): Word { [w[0]] + w[..31] }

  /** a < b on unsigned words: the first bit that differs decides. */
  ghost predicate Less(a: Word, b: Word)
  {
    exists k :: 0 <= k < 32 && a[..k] == b[..k] && !a[k] && b[k]
  }

  /** The word whose bit `i` alone is set; zero when shifted beyond the last. */
  function Probe(i: nat): (w: Word)
    ensures forall k :: 0 <= k < 32 ==> w[k] == (k == i)
  {
    seq(32, k => k == i)
  }

  /** The word whose first `n` bits are set. */
  function Mask(n: nat): (w: Word)
    ensures forall k :: 0 <= k < 32 ==> w[k] == (k < n)
  {
    seq(32, k => k < n)
  }

  /** get_mask: 0x80000000, as an int, shifted right by `n - 1`. */
  function GetMask(n: nat): Word
    requires 1 <= n
  {
    if n == 1 then Probe(0) else ShiftSigned(GetMask(n - 1))
  }

  lemma {:induction false} GetMaskIsMask(n: nat)
    requires 1 <= n
    ensures GetMask(n) == Mask(n)
  {
    if n > 1 { GetMaskIsMask(n - 1); }
  }

  lemma NextProbe(i: nat)
    ensures Shift(Probe(i)) == Probe(i + 1)
  {}

  lemma NextMask(n: nat)
    requires 1 <= n
    ensures ShiftSigned(GetMask(n)) == GetMask(n + 1)
  {}

  /** (a & probe) == 0 tests one bit. */
  lemma ProbeTests(a: Word, i: nat)
    requires i < 32
    ensures And(a, Probe(i)) == ZERO <==> !a[i]
  {}

  /** Two words agree under a mask exactly when they share the masked prefix. */
  lemma MaskedEqualIsSamePrefix(a: Word, b: Word, n: nat)
    requires n <= 32
    ensures And(a, Mask(n)) == And(b, Mask(n)) <==> a[..n] == b[..n]
  {}

  /** Contiguous masks compare, as unsigned words, as their lengths do. */
  lemma {:induction false} MaskOrder(m: nat, n: nat)
    requires m <= 32 && n <= 32
    ensures Less(Mask(m), Mask(n)) <==> m < n
  {
    if m < n {
      assert Mask(m)[..m] == Mask(n)[..m] && !Mask(m)[m] && Mask(n)[m];
    }
  }
}
