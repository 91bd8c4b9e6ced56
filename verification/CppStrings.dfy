/** What the two C++ string layouts share: words, C strings, and patterns put together field by field. */
module CppStrings {
  import opened Wrappers
  import opened Bytes
  import opened BytePatterns

  /** The size of a machine word and of an address. */
  const USIZE: nat := 8

  const OBJECT_SIZE: nat := 32

  const NUL: byte := 0

  function WordAt(obj: seq<byte>, offset: nat): nat
    requires offset + USIZE <= |obj|
  {
    FromLittleEndian(obj[offset..][..USIZE])
  }

  lemma UsizeSpan()
    ensures Span(USIZE) == 0x1_0000_0000_0000_0000
  {
    assert Span(1) == 0x100 && Span(2) == 0x1_0000 && Span(3) == 0x100_0000 && Span(4) == 0x1_0000_0000;
    assert Span(5) == 0x100_0000_0000 && Span(6) == 0x1_0000_0000_0000 && Span(7) == 0x100_0000_0000_0000;
  }

  datatype BufferError = BufferLengthMismatch | NoNullTerminator | EmbeddedNullBytes

  /** Whether the buffer is a C string with a payload of `len` bytes. */
  function CheckBuffer(bytes: seq<byte>, len: nat): Result<(), BufferError> {
    if |bytes| != len + 1 then
      Err(BufferLengthMismatch)
    else if bytes[len] != NUL then
      Err(NoNullTerminator)
    else if NUL in bytes[..len] then
      Err(EmbeddedNullBytes)
    else
      Ok(())
  }

  /** The sum of patterns matches field by field. */
  lemma SumMatches(p: BytePattern, q: BytePattern, buf: seq<byte>)
    requires p.Valid() && q.Valid() && |buf| == |p.value| + |q.value|
    ensures p.Add(q).Matches(buf) <==> p.Matches(buf[..|p.value|]) && q.Matches(buf[|p.value|..])
  {
  }

  lemma IgnoreMatches(buf: seq<byte>)
    ensures Ignore(|buf|).Matches(buf)
  {
  }

  lemma ExactlyMatches(bytes: seq<byte>, buf: seq<byte>)
    requires |buf| == |bytes|
    ensures Exactly(bytes).Matches(buf) <==> buf == bytes
  {
  }

  /** A word's bytes match iff the word is equal. */
  lemma {:induction false} WordMatches(n: nat, obj: seq<byte>, offset: nat)
    requires n < Span(USIZE) && offset + USIZE <= |obj|
    ensures Exactly(ToLittleEndian(n, USIZE)).Matches(obj[offset..][..USIZE]) <==> WordAt(obj, offset) == n
  {
    var field := obj[offset..][..USIZE];
    ExactlyMatches(ToLittleEndian(n, USIZE), field);
    LittleEndianRoundTrip(n, USIZE);
    LittleEndianInverse(field);
  }

  /** The 16-byte in-place buffer of a short string: the payload, its terminator, and whatever follows. */
  function ShortBufferPattern(s: seq<byte>): (p: BytePattern)
    requires |s| < 16
    ensures p.Valid() && |p.value| == 16
  {
    Exactly(s + [NUL]).Add(Ignore(15 - |s|))
  }

  lemma ShortBufferMatches(s: seq<byte>, buf: seq<byte>)
    requires |s| < 16 && |buf| == 16
    ensures ShortBufferPattern(s).Matches(buf) <==> buf[..|s| + 1] == s + [NUL]
  {
  }

  /** A payload that a C string of its length can hold. */
  predicate NulFree(s: seq<byte>) {
    NUL !in s
  }

  /** A buffer is accepted iff it is a payload without null bytes and a terminator; otherwise the error says what is wrong. */
  lemma CheckBufferExact(bytes: seq<byte>, len: nat)
    ensures CheckBuffer(bytes, len).Ok? <==> |bytes| == len + 1 && bytes == bytes[..len] + [NUL] && NulFree(bytes[..len])
    ensures CheckBuffer(bytes, len) == Err(BufferLengthMismatch) <==> |bytes| != len + 1
    ensures CheckBuffer(bytes, len) == Err(NoNullTerminator) <==> |bytes| == len + 1 && bytes[len] != NUL
  {
  }

  /** A word is the weighted sum of its eight bytes, the least significant first. */
  lemma WordIs(obj: seq<byte>, offset: nat)
    requires offset + USIZE <= |obj|
    ensures WordAt(obj, offset) == WeightedSum(obj[offset..][..8], 8)
  {
    LittleEndianSum(obj[offset..][..8]);
  }
}
