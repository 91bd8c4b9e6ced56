/** The layout of std::string as GCC compiles it. */
module GccStrings {
  import opened Wrappers
  import opened Bytes
  import opened BytePatterns
  import opened CppStrings

  datatype ShortString = ShortString(cStr: nat, length: nat, string16: seq<byte>) {

    /** The payload, if the string is valid. */
    function Payload(): seq<byte>
      requires length < |string16|
    {
      string16[..length]
    }
  }

  datatype LongString = LongString(cStr: nat, length: nat, capacity: nat)

  datatype StringValue = Short(short: ShortString) | Long(long: LongString)

  datatype StringError =
    | InvalidLength(length: nat)
    | BadBuffer(error: BufferError)
    | NullPtr
    | CapacityTooSmall(capacity: nat, length: nat)

  function VerifyShort(s: ShortString): Result<(), StringError>
    requires |s.string16| == 16
  {
    if s.length < 1 || s.length > 15 then
      Err(InvalidLength(s.length))
    else
      match CheckBuffer(s.string16[..s.length + 1], s.length)
      case Err(e) => Err(BadBuffer(e))
      case Ok(_) => Ok(())
  }

  function VerifyLong(s: LongString): Result<(), StringError> {
    if s.cStr == 0 then
      Err(NullPtr)
    else if s.capacity < s.length then
      Err(CapacityTooSmall(s.capacity, s.length))
    else
      Ok(())
  }

  /** Reads an object's bytes as a string of whichever kind its length says, and checks it. */
  function FromUnk(obj: seq<byte>): Result<StringValue, StringError>
    requires |obj| == OBJECT_SIZE
  {
    var length := WordAt(obj, 8);
    if length < 16 then
      var shorty := ShortString(WordAt(obj, 0), length, obj[16..]);
      match VerifyShort(shorty)
      case Err(e) => Err(e)
      case Ok(_) => Ok(Short(shorty))
    else
      var longBoy := LongString(WordAt(obj, 0), length, WordAt(obj, 16));
      match VerifyLong(longBoy)
      case Err(e) => Err(e)
      case Ok(_) => Ok(Long(longBoy))
  }

  /**
    * Which objects are accepted, field by field, and why others are not: a pointer, a length, and then the text
    * in place or a capacity.
    */
  lemma FromUnkIs(obj: seq<byte>)
    requires |obj| == OBJECT_SIZE
    ensures var pointer, n, r := WordAt(obj, 0), WordAt(obj, 8), FromUnk(obj);
      if n == 0 then
        r == Err(InvalidLength(0))
      else if n < 16 then
        if obj[16 + n] != 0 then
          r == Err(BadBuffer(NoNullTerminator))
        else if exists i :: 16 <= i < 16 + n && obj[i] == 0 then
          r == Err(BadBuffer(EmbeddedNullBytes))
        else
          r == Ok(Short(ShortString(pointer, n, obj[16..32])))
      else if pointer == 0 then
        r == Err(NullPtr)
      else if WordAt(obj, 16) < n then
        r == Err(CapacityTooSmall(WordAt(obj, 16), n))
      else
        r == Ok(Long(LongString(pointer, n, WordAt(obj, 16))))
  {
    var n := WordAt(obj, 8);
    assert obj[16..] == obj[16..32];
    if 1 <= n < 16 {
      var text := obj[16..][..n + 1];
      assert text[..n] == obj[16..16 + n] && text[n] == obj[16 + n];
      if NUL in text[..n] {
        var k :| 0 <= k < n && text[..n][k] == NUL;
        assert obj[16 + k] == 0;
      }
      assert forall i :: 16 <= i < 16 + n ==> obj[i] == text[..n][i - 16];
    }
  }

  function StrToPattern(s: seq<byte>): (p: BytePattern)
    requires |s| < Span(USIZE)
    ensures p.Valid() && |p.value| == OBJECT_SIZE
  {
    var lenAsBytes := ToLittleEndian(|s|, USIZE);
    if |s| < 16 then
      Ignore(USIZE).Add(Exactly(lenAsBytes)).Add(ShortBufferPattern(s))
    else
      Ignore(USIZE).Add(Exactly(lenAsBytes)).Add(Ignore(16))
  }

  lemma {:induction false} HeaderMatches(s: seq<byte>, rest: BytePattern, obj: seq<byte>)
    requires |s| < Span(USIZE) && |obj| == OBJECT_SIZE && rest.Valid() && |rest.value| == 16
    ensures Ignore(USIZE).Add(Exactly(ToLittleEndian(|s|, USIZE))).Add(rest).Matches(obj)
        <==> WordAt(obj, 8) == |s| && rest.Matches(obj[16..])
  {
    hide BytePattern.Matches, BytePattern.Add;
    var lenAsBytes := ToLittleEndian(|s|, USIZE);
    SumMatches(Ignore(USIZE).Add(Exactly(lenAsBytes)), rest, obj);
    SumMatches(Ignore(USIZE), Exactly(lenAsBytes), obj[..16]);
    IgnoreMatches(obj[..16][..8]);
    assert obj[..16][8..] == obj[8..][..8];
    WordMatches(|s|, obj, 8);
  }

  /** The short pattern compares the length field, the payload and its terminator. */
  lemma ShortPatternMatches(s: seq<byte>, obj: seq<byte>)
    requires |s| < 16 && |obj| == OBJECT_SIZE
    ensures |s| < Span(USIZE)
    ensures StrToPattern(s).Matches(obj) <==> WordAt(obj, 8) == |s| && obj[16..][..|s| + 1] == s + [NUL]
  {
    UsizeSpan();
    HeaderMatches(s, ShortBufferPattern(s), obj);
    ShortBufferMatches(s, obj[16..]);
  }

  /** An object is accepted as the short string `s`. */
  predicate AcceptedAs(obj: seq<byte>, s: seq<byte>)
    requires |obj| == OBJECT_SIZE
  {
    var r := FromUnk(obj);
    r.Ok? && r.value.Short? && r.value.short.length == |s| < 16 && r.value.short.Payload() == s
  }

  /** An object is accepted as `s` iff its fields are those of a C string with payload `s`. */
  lemma AcceptedFields(obj: seq<byte>, s: seq<byte>)
    requires |obj| == OBJECT_SIZE && |s| < 16
    ensures AcceptedAs(obj, s)
        <==> 1 <= |s| && NulFree(s) && WordAt(obj, 8) == |s| && obj[16..][..|s| + 1] == s + [NUL]
  {
    var length := WordAt(obj, 8);
    if 1 <= length < 16 {
      var bytes := obj[16..][..length + 1];
      CheckBufferExact(bytes, length);
      assert bytes[..length] == obj[16..][..length];
    }
  }

  /** A concrete object that the pattern of `s` matches. */
  function ObjectOf(s: seq<byte>): (obj: seq<byte>)
    requires |s| < 16 && |s| < Span(USIZE)
    ensures |obj| == OBJECT_SIZE
  {
    Zeros(8) + ToLittleEndian(|s|, USIZE) + s + [NUL] + Zeros(15 - |s|)
  }

  lemma ObjectMatches(s: seq<byte>)
    requires |s| < 16
    ensures |s| < Span(USIZE) && StrToPattern(s).Matches(ObjectOf(s))
  {
  }

  /**
    * A short string's pattern matches exactly the objects that are accepted as that string, if and
    * only if the string is neither empty nor has a null byte in it.
    */
  lemma ShortPatternExactIff(s: seq<byte>)
    requires |s| < 16
    ensures |s| < Span(USIZE)
    ensures 1 <= |s| && NulFree(s) <==>
      forall obj: seq<byte> :: |obj| == OBJECT_SIZE ==> (StrToPattern(s).Matches(obj) <==> AcceptedAs(obj, s))
  {
    ObjectMatches(s);
    forall obj: seq<byte> | |obj| == OBJECT_SIZE
      ensures StrToPattern(s).Matches(obj) <==> WordAt(obj, 8) == |s| && obj[16..][..|s| + 1] == s + [NUL]
      ensures AcceptedAs(obj, s) <==> 1 <= |s| && NulFree(s) && StrToPattern(s).Matches(obj)
    {
      ShortPatternMatches(s, obj);
      AcceptedFields(obj, s);
    }
    assert StrToPattern(s).Matches(ObjectOf(s));
  }

  /** A long string's pattern matches every object with its length; such an object is accepted iff its header is sound. */
  lemma LongPatternMatches(s: seq<byte>, obj: seq<byte>)
    requires 16 <= |s| < Span(USIZE) && |obj| == OBJECT_SIZE
    ensures StrToPattern(s).Matches(obj) <==> WordAt(obj, 8) == |s|
    ensures FromUnk(obj).Ok? && FromUnk(obj).value.Long? && FromUnk(obj).value.long.length == |s|
        <==> StrToPattern(s).Matches(obj) && WordAt(obj, 0) != 0 && WordAt(obj, 16) >= |s|
  {
    HeaderMatches(s, Ignore(16), obj);
    IgnoreMatches(obj[16..]);
  }
}
