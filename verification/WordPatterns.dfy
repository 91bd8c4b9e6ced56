/** Patterns whose length is a multiple of the word size, compared one machine word at a time. */
module WordPatterns {
  import opened Wrappers
  import opened Bytes
  import opened BytePatterns
  import opened Simd32Patterns

  const WORD_SIZE: nat := 8

  type word = bv64

  function Pack(b0: bv8, b1: bv8, b2: bv8, b3: bv8, b4: bv8, b5: bv8, b6: bv8, b7: bv8): word {
    (b0 as word) | ((b1 as word) << 8) | ((b2 as word) << 16) | ((b3 as word) << 24)
    | ((b4 as word) << 32) | ((b5 as word) << 40) | ((b6 as word) << 48) | ((b7 as word) << 56)
  }

  /** Reads eight bytes as one little-endian word. */
  function WordOf(bytes: seq<byte>): word
    requires |bytes| == WORD_SIZE
  {
    Pack(Bits(bytes[0]), Bits(bytes[1]), Bits(bytes[2]), Bits(bytes[3]),
         Bits(bytes[4]), Bits(bytes[5]), Bits(bytes[6]), Bits(bytes[7]))
  }

  /** The words that a byte vector packs into. */
  function Words(bytes: seq<byte>): (ws: seq<word>)
    requires |bytes| % WORD_SIZE == 0
    ensures |ws| == |bytes| / WORD_SIZE
  {
    seq(|bytes| / WORD_SIZE, k requires 0 <= k < |bytes| / WORD_SIZE => WordOf(bytes[k * WORD_SIZE..][..WORD_SIZE]))
  }

  /** Packs a byte vector by sliding a word-sized window over it in word-sized steps. */
  method ToWordVec(bytes: seq<byte>) returns (ret: seq<word>)
    requires |bytes| % WORD_SIZE == 0
    ensures ret == Words(bytes)
  {
    ret := [];
    var offset := 0;
    while offset + WORD_SIZE <= |bytes|
      invariant 0 <= offset <= |bytes|
      invariant offset == |ret| * WORD_SIZE
      invariant ret == Words(bytes)[..|ret|]
    {
      ret := ret + [WordOf(bytes[offset..][..WORD_SIZE])];
      offset := offset + WORD_SIZE;
    }
  }

  predicate EqualMasked(value: seq<word>, words: seq<word>, mask: seq<word>)
    requires |value| == |words| == |mask|
  {
    forall k :: 0 <= k < |value| ==> value[k] == words[k] & mask[k]
  }

  predicate EqualWords(value: seq<word>, words: seq<word>)
    requires |value| == |words|
  {
    forall k :: 0 <= k < |value| ==> value[k] == words[k]
  }

  datatype WordPattern = WordPattern(
    value: seq<word>,
    mask: Option<seq<word>>,
    maskedValue: seq<word>,
    trueLen: nat,
    valueBytes: seq<byte>,
    maskBools: Option<seq<bool>>)
  {
    /** The pattern came out of `New`; its cached bytes are what it was made from. */
    predicate Valid() {
      && |valueBytes| % WORD_SIZE == 0
      && (maskBools.Some? ==> |maskBools.value| == |valueBytes|)
      && this == New(BytePattern(valueBytes, maskBools))
    }

    predicate Matches(buf: seq<byte>)
      requires Valid() && |buf| == |value| * WORD_SIZE
    {
      var words := Words(buf);
      match mask
      case Some(m) => EqualMasked(maskedValue, words, m)
      case None => EqualWords(maskedValue, words)
    }

    function Add(other: WordPattern): WordPattern
      requires Valid() && other.Valid()
    {
      New(BytePattern(
            valueBytes + other.valueBytes,
            ConcatMasks(maskBools, other.maskBools, |valueBytes| + |other.valueBytes|)))
    }
  }

  function New(p: BytePattern): WordPattern
    requires p.Valid() && |p.value| % WORD_SIZE == 0
  {
    var maskAsBytes := if p.mask.Some? then Some(MaskBytes(p.mask.value)) else None;
    var value := Words(p.value);
    WordPattern(
      value,
      if maskAsBytes.Some? then Some(Words(maskAsBytes.value)) else None,
      match maskAsBytes
      case Some(m) => Words(AndLanes(p.value, m))
      case None => value,
      |p.value|,
      p.value,
      p.mask)
  }

  lemma PackBytes(b0: bv8, b1: bv8, b2: bv8, b3: bv8, b4: bv8, b5: bv8, b6: bv8, b7: bv8)
    ensures var w := Pack(b0, b1, b2, b3, b4, b5, b6, b7);
      && w & 0xFF == b0 as word && (w >> 8) & 0xFF == b1 as word
      && (w >> 16) & 0xFF == b2 as word && (w >> 24) & 0xFF == b3 as word
      && (w >> 32) & 0xFF == b4 as word && (w >> 40) & 0xFF == b5 as word
      && (w >> 48) & 0xFF == b6 as word && (w >> 56) & 0xFF == b7 as word
  {
  }

  /** A word's bytes, from the least significant on, are those of its eight bytes in order. */
  lemma WordsAreLittleEndian(bytes: seq<byte>, k: nat)
    requires |bytes| % WORD_SIZE == 0 && k < |bytes| / WORD_SIZE
    ensures 8 * k + 8 <= |bytes| && k < |Words(bytes)|
    ensures var w := Words(bytes)[k];
      && w & 0xFF == Bits(bytes[8 * k]) as word && (w >> 8) & 0xFF == Bits(bytes[8 * k + 1]) as word
      && (w >> 16) & 0xFF == Bits(bytes[8 * k + 2]) as word && (w >> 24) & 0xFF == Bits(bytes[8 * k + 3]) as word
      && (w >> 32) & 0xFF == Bits(bytes[8 * k + 4]) as word && (w >> 40) & 0xFF == Bits(bytes[8 * k + 5]) as word
      && (w >> 48) & 0xFF == Bits(bytes[8 * k + 6]) as word && (w >> 56) & 0xFF == Bits(bytes[8 * k + 7]) as word
  {
    hide Pack;
    var b := bytes[k * WORD_SIZE..][..WORD_SIZE];
    PackBytes(Bits(b[0]), Bits(b[1]), Bits(b[2]), Bits(b[3]), Bits(b[4]), Bits(b[5]), Bits(b[6]), Bits(b[7]));
  }

  lemma PackInjective(
    a0: bv8, a1: bv8, a2: bv8, a3: bv8, a4: bv8, a5: bv8, a6: bv8, a7: bv8,
    b0: bv8, b1: bv8, b2: bv8, b3: bv8, b4: bv8, b5: bv8, b6: bv8, b7: bv8)
    requires Pack(a0, a1, a2, a3, a4, a5, a6, a7) == Pack(b0, b1, b2, b3, b4, b5, b6, b7)
    ensures a0 == b0 && a1 == b1 && a2 == b2 && a3 == b3 && a4 == b4 && a5 == b5 && a6 == b6 && a7 == b7
  {
  }

  lemma PackAnd(
    a0: bv8, a1: bv8, a2: bv8, a3: bv8, a4: bv8, a5: bv8, a6: bv8, a7: bv8,
    b0: bv8, b1: bv8, b2: bv8, b3: bv8, b4: bv8, b5: bv8, b6: bv8, b7: bv8)
    ensures Pack(a0, a1, a2, a3, a4, a5, a6, a7) & Pack(b0, b1, b2, b3, b4, b5, b6, b7)
         == Pack(a0 & b0, a1 & b1, a2 & b2, a3 & b3, a4 & b4, a5 & b5, a6 & b6, a7 & b7)
  {
  }

  /** Packing loses nothing: equal words come from equal bytes. */
  lemma WordInjective(a: seq<byte>, b: seq<byte>)
    requires |a| == |b| == WORD_SIZE
    ensures WordOf(a) == WordOf(b) <==> a == b
  {
    if WordOf(a) == WordOf(b) {
      PackInjective(
        Bits(a[0]), Bits(a[1]), Bits(a[2]), Bits(a[3]), Bits(a[4]), Bits(a[5]), Bits(a[6]), Bits(a[7]),
        Bits(b[0]), Bits(b[1]), Bits(b[2]), Bits(b[3]), Bits(b[4]), Bits(b[5]), Bits(b[6]), Bits(b[7]));
      forall i | 0 <= i < WORD_SIZE
        ensures a[i] == b[i]
      {
        assert i == 0 || i == 1 || i == 2 || i == 3 || i == 4 || i == 5 || i == 6 || i == 7;
        BitsInjective(a[i], b[i]);
      }
    }
  }

  /** The word "and" works byte by byte. */
  lemma WordAnd(a: seq<byte>, b: seq<byte>)
    requires |a| == |b| == WORD_SIZE
    ensures WordOf(a) & WordOf(b) == WordOf(AndLanes(a, b))
  {
    PackAnd(
      Bits(a[0]), Bits(a[1]), Bits(a[2]), Bits(a[3]), Bits(a[4]), Bits(a[5]), Bits(a[6]), Bits(a[7]),
      Bits(b[0]), Bits(b[1]), Bits(b[2]), Bits(b[3]), Bits(b[4]), Bits(b[5]), Bits(b[6]), Bits(b[7]));
    AndBits(a[0], b[0]); AndBits(a[1], b[1]); AndBits(a[2], b[2]); AndBits(a[3], b[3]);
    AndBits(a[4], b[4]); AndBits(a[5], b[5]); AndBits(a[6], b[6]); AndBits(a[7], b[7]);
  }

  /** Byte vectors are equal iff their packed words are. */
  lemma WordsInjective(a: seq<byte>, b: seq<byte>)
    requires |a| == |b| && |a| % WORD_SIZE == 0
    ensures Words(a) == Words(b) <==> a == b
  {
    if Words(a) == Words(b) {
      forall i | 0 <= i < |a|
        ensures a[i] == b[i]
      {
        var k := i / WORD_SIZE;
        var x, y := a[k * WORD_SIZE..][..WORD_SIZE], b[k * WORD_SIZE..][..WORD_SIZE];
        assert Words(a)[k] == WordOf(x) && Words(b)[k] == WordOf(y);
        WordInjective(x, y);
        assert x[i % WORD_SIZE] == a[i] && y[i % WORD_SIZE] == b[i];
      }
    }
  }

  /** "And"-ing packed vectors word by word packs the bytewise "and". */
  lemma WordsAnd(a: seq<byte>, b: seq<byte>, k: nat)
    requires |a| == |b| && |a| % WORD_SIZE == 0
    requires k < |a| / WORD_SIZE
    ensures Words(a)[k] & Words(b)[k] == Words(AndLanes(a, b))[k]
  {
    hide WordOf, And;
    var x, y := a[k * WORD_SIZE..][..WORD_SIZE], b[k * WORD_SIZE..][..WORD_SIZE];
    WordAnd(x, y);
    assert AndLanes(x, y) == AndLanes(a, b)[k * WORD_SIZE..][..WORD_SIZE];
  }

  /** Comparing masked words is comparing masked bytes. */
  lemma MaskedWords(value: seq<byte>, window: seq<byte>, m: seq<byte>)
    requires |value| == |window| == |m| && |m| % WORD_SIZE == 0
    ensures EqualMasked(Words(AndLanes(value, m)), Words(window), Words(m))
        <==> AndLanes(value, m) == AndLanes(window, m)
  {
    var ws, masks := Words(window), Words(m);
    var lhs, rhs := AndLanes(value, m), AndLanes(window, m);
    forall k | 0 <= k < |masks|
      ensures ws[k] & masks[k] == Words(rhs)[k]
    {
      WordsAnd(window, m, k);
    }
    WordsInjective(lhs, rhs);
    SameMasked(Words(lhs), ws, masks, Words(rhs));
  }

  lemma SameMasked(value: seq<word>, words: seq<word>, mask: seq<word>, masked: seq<word>)
    requires |value| == |words| == |mask| == |masked|
    requires forall k :: 0 <= k < |mask| ==> words[k] & mask[k] == masked[k]
    ensures EqualMasked(value, words, mask) <==> value == masked
  {
  }

  /** The packed, masked word comparison agrees with the bytewise one. */
  lemma WordsRefineBytes(p: BytePattern, window: seq<byte>)
    requires p.Valid() && |p.value| % WORD_SIZE == 0 && |window| == |p.value|
    ensures New(p).Valid()
    ensures New(p).Matches(window) <==> p.Matches(window)
  {
    if p.mask.Some? {
      MaskedWords(p.value, window, MaskBytes(p.mask.value));
      LanesAgree(p.value, p.mask.value, window);
    } else {
      WordsInjective(p.value, window);
      assert New(p).Matches(window) <==> Words(p.value) == Words(window);
    }
  }

  /** Adding word patterns packs the sum of the byte patterns they were made from. */
  lemma WordAddIsByteAdd(p: BytePattern, q: BytePattern)
    requires p.Valid() && |p.value| % WORD_SIZE == 0
    requires q.Valid() && |q.value| % WORD_SIZE == 0
    ensures New(p).Valid() && New(q).Valid()
    ensures New(p).Add(New(q)) == New(p.Add(q))
  {
  }
}
