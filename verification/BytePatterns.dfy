/** The reference scan pattern: a byte vector and an optional parallel mask. */
module BytePatterns {
  import opened Wrappers
  import opened Bytes

  /** Whether the byte at position `i` is compared; without a mask every byte is. */
  predicate Kept(mask: Option<seq<bool>>, i: nat)
    requires mask.Some? ==> i < |mask.value|
  {
    mask.None? || mask.value[i]
  }

  function Trues(n: nat): (m: seq<bool>)
    ensures |m| == n && forall i :: 0 <= i < n ==> m[i]
  {
    seq(n, i => true)
  }

  function Falses(n: nat): (m: seq<bool>)
    ensures |m| == n && forall i :: 0 <= i < n ==> !m[i]
  {
    seq(n, i => false)
  }

  /** Concatenates two masks; the side without one is filled up to `newLen` with kept positions. */
  function ConcatMasks(m0: Option<seq<bool>>, m1: Option<seq<bool>>, newLen: nat): Option<seq<bool>>
    requires m0.Some? && m1.None? ==> |m0.value| <= newLen
    requires m0.None? && m1.Some? ==> |m1.value| <= newLen
  {
    match (m0, m1)
    case (None, None) => None
    case (Some(mv0), None) => Some(mv0 + Trues(newLen - |mv0|))
    case (None, Some(mv1)) => Some(Trues(newLen - |mv1|) + mv1)
    case (Some(mv0), Some(mv1)) => Some(mv0 + mv1)
  }

  datatype BytePattern = BytePattern(value: seq<byte>, mask: Option<seq<bool>>) {

    predicate Valid() {
      mask.Some? ==> |mask.value| == |value|
    }

    predicate Matches(buf: seq<byte>)
      requires Valid() && |buf| == |value|
    {
      if mask.Some? then
        forall i :: 0 <= i < |value| ==> !mask.value[i] || value[i] == buf[i]
      else
        forall i :: 0 <= i < |value| ==> value[i] == buf[i]
    }

    function Add(other: BytePattern): (sum: BytePattern)
      requires Valid() && other.Valid()
      ensures sum.Valid() && |sum.value| == |value| + |other.value|
    {
      BytePattern(value + other.value, ConcatMasks(mask, other.mask, |value| + |other.value|))
    }
  }

  /** `n` bytes that are all ignored. */
  function Ignore(n: nat): (p: BytePattern)
    ensures p.Valid() && |p.value| == n
  {
    BytePattern(Zeros(n), Some(Falses(n)))
  }

  /** Unmasked bytes. */
  function Exactly(bytes: seq<byte>): (p: BytePattern)
    ensures p.Valid() && |p.value| == |bytes|
  {
    BytePattern(bytes, None)
  }

  /** A pattern compares exactly the kept positions. */
  lemma MatchesKept(p: BytePattern, buf: seq<byte>)
    requires p.Valid() && |buf| == |p.value|
    ensures p.Matches(buf) <==> forall i :: 0 <= i < |buf| && Kept(p.mask, i) ==> p.value[i] == buf[i]
  {
  }

  /** Concatenating masks keeps each side's positions, whichever side had no mask. */
  lemma ConcatMasksKept(m0: Option<seq<bool>>, m1: Option<seq<bool>>, n0: nat, n1: nat)
    requires m0.Some? ==> |m0.value| == n0
    requires m1.Some? ==> |m1.value| == n1
    ensures var m := ConcatMasks(m0, m1, n0 + n1);
            && (m.Some? ==> |m.value| == n0 + n1)
            && (m.None? <==> m0.None? && m1.None?)
            && (forall i :: 0 <= i < n0 ==> Kept(m, i) == Kept(m0, i))
            && (forall i :: 0 <= i < n1 ==> Kept(m, n0 + i) == Kept(m1, i))
  {
  }

  /** Adding patterns is concatenation: the sum matches `x + y` iff the parts match `x` and `y`. */
  lemma AddMatchesConcatenation(p: BytePattern, q: BytePattern, x: seq<byte>, y: seq<byte>)
    requires p.Valid() && q.Valid()
    requires |x| == |p.value| && |y| == |q.value|
    ensures p.Add(q).Matches(x + y) <==> p.Matches(x) && q.Matches(y)
  {
    var sum := p.Add(q);
    ConcatMasksKept(p.mask, q.mask, |x|, |y|);
    MatchesKept(sum, x + y);
    if sum.Matches(x + y) {
      forall i | 0 <= i < |y| && Kept(q.mask, i)
        ensures q.value[i] == y[i]
      {
        assert sum.value[|x| + i] == (x + y)[|x| + i];
      }
      forall i | 0 <= i < |x| && Kept(p.mask, i)
        ensures p.value[i] == x[i]
      {
        assert sum.value[i] == (x + y)[i];
      }
    }
    if p.Matches(x) && q.Matches(y) {
      forall i | 0 <= i < |x + y| && Kept(sum.mask, i)
        ensures sum.value[i] == (x + y)[i]
      {
        if i >= |x| {
          assert Kept(sum.mask, |x| + (i - |x|));
        }
      }
    }
  }
}
