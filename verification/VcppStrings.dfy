/** The layout of std::string as Visual C++ compiles it. */
module VcppStrings {
  import opened Wrappers
  import opened Bytes
  import opened BytePatterns
  import opened CppStrings

  const ALLOC_SIZES: seq<nat> := [
    0x7, 0x1F, 0x2F, 0x46, 0x69, 0x9D, 0xEB, 0x160, 0x210, 0x318, 0x4A4, 0x6F6, 0xA71, 0xFA9,
    0x17A4, 0x2362, 0x34FF, 0x4F6B, 0x770D, 0xB280, 0x10BAC, 0x1916E, 0x25A11, 0x38706, 0x54A75,
    0x7EF9C, 0xBE756, 0x11DAED]

  datatype ShortString = ShortString(string16: seq<byte>, length: nat, allocSize: nat) {

    function Payload(): seq<byte>
      requires length < |string16|
    {
      string16[..length]
    }
  }

  datatype LongString = LongString(cStrAddr: nat, length: nat, allocSize: nat)

  datatype StringValue = Short(short: ShortString) | Long(long: LongString)

  datatype StringError =
    | ZeroLength
    | BadAllocSize(got: nat)
    | BadBuffer(error: BufferError)
    | TooShort(length: nat)
    | AllocTooSmall(allocSize: nat)
    | InvalidAllocSize(allocSize: nat)
    | NullPtr

  function VerifyShort(s: ShortString): Result<(), StringError>
    requires |s.string16| == 16 && s.length < 16
  {
    if s.length == 0 then
      Err(ZeroLength)
    else if s.allocSize != 0x0F then
      Err(BadAllocSize(s.allocSize))
    else
      match CheckBuffer(s.string16[..s.length + 1], s.length)
      case Err(e) => Err(BadBuffer(e))
      case Ok(_) => Ok(())
  }

  function VerifyLong(s: LongString): Result<(), StringError> {
    if s.length < 16 then
      Err(TooShort(s.length))
    else if s.allocSize < 15 then
      Err(AllocTooSmall(s.allocSize))
    else if s.allocSize !in ALLOC_SIZES then
      Err(InvalidAllocSize(s.allocSize))
    else if s.cStrAddr == 0 then
      Err(NullPtr)
    else
      Ok(())
  }

  /** Reads an object's bytes as a string of whichever kind its length says, and checks it. */
  function FromUnk(obj: seq<byte>): Result<StringValue, StringError>
    requires |obj| == OBJECT_SIZE
  {
    var length := WordAt(obj, 16);
    if length < 16 then
      var shorty := ShortString(obj[..16], length, WordAt(obj, 24));
      match VerifyShort(shorty)
      case Err(e) => Err(e)
      case Ok(_) => Ok(Short(shorty))
    else
      var longBoy := LongString(WordAt(obj, 0), length, WordAt(obj, 24));
      match VerifyLong(longBoy)
      case Err(e) => Err(e)
      case Ok(_) => Ok(Long(longBoy))
  }

  /**
    * Which objects are accepted, field by field, and why others are not: the text in place or a pointer, then a
    * length, and then an allocation size.
    */
  lemma FromUnkIs(obj: seq<byte>)
    requires |obj| == OBJECT_SIZE
    ensures var n, allocSize, r := WordAt(obj, 16), WordAt(obj, 24), FromUnk(obj);
      if n == 0 then
        r == Err(ZeroLength)
      else if n < 16 then
        if allocSize != 15 then
          r == Err(BadAllocSize(allocSize))
        else if obj[n] != 0 then
          r == Err(BadBuffer(NoNullTerminator))
        else if exists i :: 0 <= i < n && obj[i] == 0 then
          r == Err(BadBuffer(EmbeddedNullBytes))
        else
          r == Ok(Short(ShortString(obj[0..16], n, allocSize)))
      else if allocSize < 15 then
        r == Err(AllocTooSmall(allocSize))
      else if allocSize !in ALLOC_SIZES then
        r == Err(InvalidAllocSize(allocSize))
      else if WordAt(obj, 0) == 0 then
        r == Err(NullPtr)
      else
        r == Ok(Long(LongString(WordAt(obj, 0), n, allocSize)))
  {
    var n := WordAt(obj, 16);
    if 1 <= n < 16 {
      var text := obj[..16][..n + 1];
      assert text[..n] == obj[..n] && text[n] == obj[n];
    }
  }

  /** The first size above `len`; `None` where the table has none. */
  function FindAbove(sizes: seq<nat>, len: nat): Option<nat> {
    if sizes == [] then None else if sizes[0] > len then Some(sizes[0]) else FindAbove(sizes[1..], len)
  }

  /** The `alloc_size` of a string of the given length; `None` where the table has no larger size. */
  function GetAllocSize(len: nat): Option<nat> {
    if len < 16 then Some(0x0F) else FindAbove(ALLOC_SIZES, len)
  }

  /** The size found is the least of the table that is larger. */
  lemma {:induction false} FindAboveLeast(sizes: seq<nat>, len: nat)
    requires forall i, j :: 0 <= i < j < |sizes| ==> sizes[i] < sizes[j]
    ensures match FindAbove(sizes, len)
      case None => forall size :: size in sizes ==> size <= len
      case Some(size) => size in sizes && size > len && forall other :: other in sizes && other > len ==> size <= other
  {
    if sizes != [] && sizes[0] <= len {
      FindAboveLeast(sizes[1..], len);
      assert forall size :: size in sizes <==> size == sizes[0] || size in sizes[1..];
    }
  }

  lemma AllocSizesAscend()
    ensures forall i, j :: 0 <= i < j < |ALLOC_SIZES| ==> ALLOC_SIZES[i] < ALLOC_SIZES[j]
    ensures |ALLOC_SIZES| == 28 && ALLOC_SIZES[27] == 0x11DAED
  {
  }

  lemma {:induction false} FoundIffBelowLast(sizes: seq<nat>, len: nat)
    requires sizes != [] && forall i, j :: 0 <= i < j < |sizes| ==> sizes[i] < sizes[j]
    ensures FindAbove(sizes, len).Some? <==> len < sizes[|sizes| - 1]
    ensures FindAbove(sizes, len).Some? ==> FindAbove(sizes, len).value <= sizes[|sizes| - 1]
  {
    if sizes[0] <= len && |sizes| > 1 {
      FoundIffBelowLast(sizes[1..], len);
    }
  }

  /** A long string gets the least table entry above its length, if there is one. */
  lemma AllocSizeLeast(len: nat)
    requires len >= 16
    ensures GetAllocSize(len).Some? <==> len < 0x11DAED
    ensures GetAllocSize(len).Some? ==>
      var size := GetAllocSize(len).value;
      size in ALLOC_SIZES && len < size <= 0x11DAED && forall other :: other in ALLOC_SIZES && other > len ==> size <= other
  {
    AllocSizesAscend();
    FindAboveLeast(ALLOC_SIZES, len);
    FoundIffBelowLast(ALLOC_SIZES, len);
  }

  /** The pattern of a string; strings too long for the table have none. */
  function StrToPattern(s: seq<byte>): (p: Option<BytePattern>)
    ensures p.Some? ==> p.value.Valid() && |p.value.value| == OBJECT_SIZE
  {
    UsizeSpan();
    match GetAllocSize(|s|)
    case None => None
    case Some(allocSize) =>
      AllocSizeFits(|s|);
      var lenAndAlloc := ToLittleEndian(|s|, USIZE) + ToLittleEndian(allocSize, USIZE);
      if |s| < 16 then
        Some(ShortBufferPattern(s).Add(Exactly(lenAndAlloc)))
      else
        Some(Ignore(16).Add(Exactly(lenAndAlloc)))
  }

  lemma AllocSizeFits(len: nat)
    requires GetAllocSize(len).Some?
    ensures len < Span(USIZE) && GetAllocSize(len).value < Span(USIZE)
  {
    UsizeSpan();
    if len >= 16 {
      AllocSizeLeast(len);
    }
  }

  lemma {:induction false} TrailerMatches(buffer: BytePattern, len: nat, allocSize: nat, obj: seq<byte>)
    requires len < Span(USIZE) && allocSize < Span(USIZE)
    requires buffer.Valid() && |buffer.value| == 16 && |obj| == OBJECT_SIZE
    ensures buffer.Add(Exactly(ToLittleEndian(len, USIZE) + ToLittleEndian(allocSize, USIZE))).Matches(obj)
        <==> buffer.Matches(obj[..16]) && WordAt(obj, 16) == len && WordAt(obj, 24) == allocSize
  {
    var lenBytes, allocBytes := ToLittleEndian(len, USIZE), ToLittleEndian(allocSize, USIZE);
    SumMatches(buffer, Exactly(lenBytes + allocBytes), obj);
    ExactlyMatches(lenBytes + allocBytes, obj[16..]);
    assert obj[16..] == obj[16..][..8] + obj[24..][..8];
    WordMatches(len, obj, 16);
    ExactlyMatches(lenBytes, obj[16..][..8]);
    WordMatches(allocSize, obj, 24);
    ExactlyMatches(allocBytes, obj[24..][..8]);
    assert obj[16..] == lenBytes + allocBytes <==> obj[16..][..8] == lenBytes && obj[24..][..8] == allocBytes by {
      assert (lenBytes + allocBytes)[..8] == lenBytes && (lenBytes + allocBytes)[8..] == allocBytes;
      assert obj[16..][8..] == obj[24..][..8];
    }
  }

  /** The short pattern compares the payload, its terminator, the length and the fixed allocation size. */
  lemma ShortPatternMatches(s: seq<byte>, obj: seq<byte>)
    requires |s| < 16 && |obj| == OBJECT_SIZE
    ensures StrToPattern(s).Some?
    ensures StrToPattern(s).value.Matches(obj)
        <==> obj[..16][..|s| + 1] == s + [NUL] && WordAt(obj, 16) == |s| && WordAt(obj, 24) == 0x0F
  {
    UsizeSpan();
    TrailerMatches(ShortBufferPattern(s), |s|, 0x0F, obj);
    ShortBufferMatches(s, obj[..16]);
  }

  /** An object is accepted as the short string `s`. */
  predicate AcceptedAs(obj: seq<byte>, s: seq<byte>)
    requires |obj| == OBJECT_SIZE
  {
    var r := FromUnk(obj);
    r.Ok? && r.value.Short? && r.value.short.length == |s| < 16 && r.value.short.Payload() == s
  }

  lemma AcceptedFields(obj: seq<byte>, s: seq<byte>)
    requires |obj| == OBJECT_SIZE && |s| < 16
    ensures AcceptedAs(obj, s)
        <==> 1 <= |s| && NulFree(s) && obj[..16][..|s| + 1] == s + [NUL] && WordAt(obj, 16) == |s| && WordAt(obj, 24) == 0x0F
  {
    var length := WordAt(obj, 16);
    if 1 <= length < 16 {
      var bytes := obj[..16][..length + 1];
      CheckBufferExact(bytes, length);
      assert bytes[..length] == obj[..16][..length];
    }
  }

  /** A concrete object that the pattern of `s` matches. */
  function ObjectOf(s: seq<byte>): (obj: seq<byte>)
    requires |s| < 16 && 16 < Span(USIZE)
    ensures |obj| == OBJECT_SIZE
  {
    s + [NUL] + Zeros(15 - |s|) + ToLittleEndian(|s|, USIZE) + ToLittleEndian(0x0F, USIZE)
  }

  lemma ObjectMatches(s: seq<byte>)
    requires |s| < 16
    ensures 16 < Span(USIZE) && StrToPattern(s).Some? && StrToPattern(s).value.Matches(ObjectOf(s))
  {
  }

  /**
    * A short string's pattern matches exactly the objects that are accepted as that string, if and
    * only if the string is neither empty nor has a null byte in it.
    */
  lemma ShortPatternExactIff(s: seq<byte>)
    requires |s| < 16
    ensures StrToPattern(s).Some?
    ensures 1 <= |s| && NulFree(s) <==>
      forall obj: seq<byte> :: |obj| == OBJECT_SIZE ==> (StrToPattern(s).value.Matches(obj) <==> AcceptedAs(obj, s))
  {
    ObjectMatches(s);
    forall obj: seq<byte> | |obj| == OBJECT_SIZE
      ensures AcceptedAs(obj, s) <==> 1 <= |s| && NulFree(s) && StrToPattern(s).value.Matches(obj)
    {
      ShortPatternMatches(s, obj);
      AcceptedFields(obj, s);
    }
    assert StrToPattern(s).value.Matches(ObjectOf(s));
  }

  /** An object is accepted as a long string of the given length. */
  predicate AcceptedAsLong(obj: seq<byte>, len: nat)
    requires |obj| == OBJECT_SIZE
  {
    var r := FromUnk(obj);
    r.Ok? && r.value.Long? && r.value.long.length == len
  }

  /**
    * A long string's pattern matches the objects with its length and the least table entry above it; such
    * an object is accepted iff it has a pointer. Acceptance itself allows any table entry of at least 15.
    */
  lemma LongPatternMatches(s: seq<byte>, obj: seq<byte>)
    requires 16 <= |s| && GetAllocSize(|s|).Some? && |obj| == OBJECT_SIZE
    ensures StrToPattern(s).Some?
    ensures StrToPattern(s).value.Matches(obj)
        <==> WordAt(obj, 16) == |s| && WordAt(obj, 24) == GetAllocSize(|s|).value
    ensures AcceptedAsLong(obj, |s|)
        <==> WordAt(obj, 16) == |s| && WordAt(obj, 24) in ALLOC_SIZES && WordAt(obj, 24) >= 15 && WordAt(obj, 0) != 0
    ensures StrToPattern(s).value.Matches(obj) && WordAt(obj, 0) != 0
        <==> AcceptedAsLong(obj, |s|) && WordAt(obj, 24) == GetAllocSize(|s|).value
  {
    hide StrToPattern, BytePattern.Matches;
    LongPatternFields(s, obj);
    AllocSizeLeast(|s|);
  }

  lemma LongPatternFields(s: seq<byte>, obj: seq<byte>)
    requires 16 <= |s| && GetAllocSize(|s|).Some? && |obj| == OBJECT_SIZE
    ensures StrToPattern(s).Some?
    ensures StrToPattern(s).value.Matches(obj)
        <==> WordAt(obj, 16) == |s| && WordAt(obj, 24) == GetAllocSize(|s|).value
  {
    AllocSizeFits(|s|);
    TrailerMatches(Ignore(16), |s|, GetAllocSize(|s|).value, obj);
    IgnoreMatches(obj[..16]);
  }

  /** A long string in some allocation. */
  function LongObject(len: nat, allocSize: nat): (obj: seq<byte>)
    requires len < Span(USIZE) && allocSize < Span(USIZE) && 1 < Span(USIZE)
    ensures |obj| == OBJECT_SIZE
  {
    ToLittleEndian(1, USIZE) + Zeros(8) + ToLittleEndian(len, USIZE) + ToLittleEndian(allocSize, USIZE)
  }

  lemma LongObjectFields(len: nat, allocSize: nat)
    requires len < Span(USIZE) && allocSize < Span(USIZE) && 1 < Span(USIZE)
    ensures var obj := LongObject(len, allocSize);
      WordAt(obj, 0) == 1 && WordAt(obj, 16) == len && WordAt(obj, 24) == allocSize
  {
    hide ToLittleEndian, FromLittleEndian, Span;
    var obj := LongObject(len, allocSize);
    assert obj[0..][..8] == ToLittleEndian(1, USIZE);
    assert obj[16..][..8] == ToLittleEndian(len, USIZE) && obj[24..][..8] == ToLittleEndian(allocSize, USIZE);
    LittleEndianRoundTrip(1, USIZE);
    LittleEndianRoundTrip(len, USIZE);
    LittleEndianRoundTrip(allocSize, USIZE);
  }

  /**
    * Every long string's pattern misses an accepted string of the same length in another allocation, a larger
    * one where the table has one.
    */
  lemma LongPatternMissesOthers(s: seq<byte>) returns (obj: seq<byte>)
    requires 16 <= |s| && GetAllocSize(|s|).Some?
    ensures |obj| == OBJECT_SIZE && AcceptedAsLong(obj, |s|)
    ensures StrToPattern(s).Some? && !StrToPattern(s).value.Matches(obj)
    ensures GetAllocSize(|s|).value < 0x11DAED ==> WordAt(obj, 24) > GetAllocSize(|s|).value
  {
    UsizeSpan();
    AllocSizeFits(|s|);
    AllocSizeLeast(|s|);
    var allocSize := if GetAllocSize(|s|).value == 0x11DAED then 0xBE756 else 0x11DAED;
    assert ALLOC_SIZES[27] == 0x11DAED && ALLOC_SIZES[26] == 0xBE756;
    obj := LongObject(|s|, allocSize);
    LongObjectFields(|s|, allocSize);
    LongPatternMatches(s, obj);
  }
}
