/** Printing a query's struct as hex tokens, and parsing such tokens back to a pattern. */
module HexPatterns {
  import opened Wrappers
  import opened Bytes
  import opened PatternStructs
  import opened Queries
  import opened Texts

  const LOWER := "0123456789abcdef"
  const UPPER := "0123456789ABCDEF"

  function HexDigit(n: nat): char
    requires n < 16
  {
    UPPER[n]
  }

  function HexString(b: byte): string {
    if b < 16 then [HexDigit(b)] else [HexDigit(b / 16), HexDigit(b % 16)]
  }

  function PadLeading(s: string, width: nat): string {
    if |s| >= width then s else seq(width - |s|, i => '0') + s
  }

  function HexToken(b: byte, m: byte): string {
    if m == 0 then "??" else PadLeading(HexString(b), 2)
  }

  function Wildcards(n: nat): seq<string> {
    seq(n, i => "??")
  }

  function Join(tokens: seq<string>): string {
    if |tokens| == 0 then
      ""
    else if |tokens| == 1 then
      tokens[0]
    else
      tokens[0] + " " + Join(tokens[1..])
  }

  /** The tokens of the struct's layout: wildcards around the bytes that the pattern compares. */
  function LayoutTokens(s: PatternStruct, offset: nat, totalSize: nat): seq<string>
    requires offset + |s.bytes| <= totalSize
    requires s.mask.Some? ==> |s.mask.value| == |s.bytes|
  {
    var middle := seq(|s.bytes|, i requires 0 <= i < |s.bytes| =>
      HexToken(s.bytes[i], if s.mask.Some? then s.mask.value[i] else 0xFF));
    Wildcards(offset) + middle + Wildcards(totalSize - offset - |s.bytes|)
  }

  /** The printed layout of a query's struct; `None` where the query has no significant byte. */
  function PatternHexForQuery(bytes: seq<byte>, mask: seq<byte>): Option<string>
    requires |bytes| == |mask|
  {
    match QueryToScanPattern(bytes, mask)
    case None => None
    case Some((s, offset)) =>
      QueryLayout(bytes, mask, s, offset);
      Some(Join(LayoutTokens(s, offset, |bytes|)))
  }

  lemma QueryLayout(bytes: seq<byte>, mask: seq<byte>, s: PatternStruct, offset: nat)
    requires |bytes| == |mask| && QueryToScanPattern(bytes, mask) == Some((s, offset))
    ensures offset + |s.bytes| <= |bytes|
    ensures s.mask.Some? ==> |s.mask.value| == |s.bytes|
    ensures forall i :: 0 <= i < |s.bytes| ==>
              && s.bytes[i] == bytes[offset + i]
              && (s.mask.None? ==> mask[offset + i] == 0xFF)
              && (s.mask.Some? ==> s.mask.value[i] == if mask[offset + i] != 0 then 0xFF else 0)
    ensures 1 <= |s.bytes|
    ensures offset == FirstSignificant(mask) && offset + |s.bytes| - 1 == LastSignificant(mask)
  {
    hide QueryToScanPattern, TruncateSignificantBytes, SamePattern, FirstSignificant, LastSignificant;
    var t, finalMask, compiled := QueryCompiles(bytes, mask);
    TrimmedSpan(t, bytes, mask);
    StructDescribesPattern(t.bytes, finalMask);
  }

  /** Splits at whitespace; blank stretches, also at either end, separate nothing. */
  function Split(s: string): seq<string> {
    SplitFrom(s, "")
  }

  function SplitFrom(s: string, token: string): seq<string> {
    var done := if token == "" then [] else [token];
    if s == "" then
      done
    else if IsSpace(s[0]) then
      done + SplitFrom(s[1..], "")
    else
      SplitFrom(s[1..], token + [s[0]])
  }

  function DigitValue(c: char): Option<nat> {
    if '0' <= c <= '9' then
      Some(c as int - '0' as int)
    else if 'A' <= c <= 'F' then
      Some(c as int - 'A' as int + 10)
    else if 'a' <= c <= 'f' then
      Some(c as int - 'a' as int + 10)
    else
      None
  }

  predicate IsHex(token: string) {
    1 <= |token| <= 2 && forall i :: 0 <= i < |token| ==> DigitValue(token[i]).Some?
  }

  function HexValue(token: string): (b: byte)
    requires IsHex(token)
  {
    DigitBound(token[0]);
    DigitBound(token[|token| - 1]);
    if |token| == 1 then
      DigitValue(token[0]).value
    else
      16 * DigitValue(token[0]).value + DigitValue(token[1]).value
  }

  lemma DigitBound(c: char)
    requires DigitValue(c).Some?
    ensures DigitValue(c).value < 16 && c != '?'
  {
  }

  /** A token's byte and mask byte. A question mark before a character takes the character literally. */
  function ParseToken(token: string): Result<(byte, byte), string> {
    if token == "?" || token == "??" then
      Ok((0, 0))
    else if |token| == 2 && token[0] == '?' && token[1] as int < 0x80 then
      Ok((token[1] as int, 0xFF))
    else if IsHex(token) then
      Ok((HexValue(token), 0xFF))
    else
      Err(token)
  }

  /** Parses the tokens in turn; the first invalid one is the error. */
  function ParseTokens(tokens: seq<string>): Result<(seq<byte>, seq<byte>), string> {
    if tokens == [] then
      Ok(([], []))
    else
      match ParseToken(tokens[0])
      case Err(token) => Err(token)
      case Ok((b, m)) =>
        match ParseTokens(tokens[1..])
        case Err(token) => Err(token)
        case Ok((bytes, mask)) => Ok(([b] + bytes, [m] + mask))
  }

  function ParseHexPattern(str: string): Result<(seq<byte>, Option<seq<byte>>), string> {
    match ParseTokens(Split(str))
    case Err(token) => Err(token)
    case Ok((bytes, mask)) =>
      Ok((bytes, if forall i :: 0 <= i < |mask| ==> mask[i] == 0xFF then None else Some(mask)))
  }

  predicate IsWord(token: string) {
    token != "" && forall i :: 0 <= i < |token| ==> !IsSpace(token[i])
  }

  /** Reading a word to its end only extends the token. */
  lemma {:induction false} SplitReadsWord(word: string, rest: string, token: string)
    requires forall i :: 0 <= i < |word| ==> !IsSpace(word[i])
    ensures SplitFrom(word + rest, token) == SplitFrom(rest, token + word)
  {
    if word == "" {
      assert word + rest == rest && token + word == token;
    } else {
      SplitReadsWord(word[1..], rest, token + [word[0]]);
      assert (word + rest)[1..] == word[1..] + rest;
      assert token + [word[0]] + word[1..] == token + word;
    }
  }

  /** Splitting undoes joining. */
  lemma {:induction false} SplitJoin(tokens: seq<string>)
    requires forall i :: 0 <= i < |tokens| ==> IsWord(tokens[i])
    ensures Split(Join(tokens)) == tokens
  {
    if |tokens| == 1 {
      SplitReadsWord(tokens[0], "", "");
      assert tokens[0] + "" == tokens[0] && "" + tokens[0] == tokens[0];
    } else if |tokens| > 1 {
      var rest := " " + Join(tokens[1..]);
      SplitReadsWord(tokens[0], rest, "");
      assert Join(tokens) == tokens[0] + rest && "" + tokens[0] == tokens[0];
      assert rest[1..] == Join(tokens[1..]);
      SplitJoin(tokens[1..]);
      assert SplitFrom(rest, tokens[0]) == [tokens[0]] + Split(Join(tokens[1..]));
    }
  }

  lemma HexTokenParses(b: byte, m: byte)
    ensures IsWord(HexToken(b, m))
    ensures ParseToken(HexToken(b, m)) == Ok(if m == 0 then (0, 0) else (b, 0xFF))
  {
    if m != 0 {
      var token := HexToken(b, m);
      assert token == [HexDigit(b / 16), HexDigit(b % 16)];
      HexDigitValue(b / 16);
      HexDigitValue(b % 16);
    }
  }

  lemma HexDigitValue(n: nat)
    requires n < 16
    ensures DigitValue(HexDigit(n)) == Some(n) && HexDigit(n) != '?' && !IsSpace(HexDigit(n))
  {
  }

  /** A byte is printed as two upper-case digits, an ignored one as two question marks. */
  lemma HexTokenIs(b: byte, m: byte)
    ensures HexToken(b, m) == if m == 0 then "??" else [UPPER[b / 16], UPPER[b % 16]]
  {
  }

  /** Parsing goes token by token. */
  lemma {:induction false} ParseTokensAt(tokens: seq<string>, bytes: seq<byte>, mask: seq<byte>)
    requires |tokens| == |bytes| == |mask|
    requires forall i :: 0 <= i < |tokens| ==> ParseToken(tokens[i]) == Ok((bytes[i], mask[i]))
    ensures ParseTokens(tokens) == Ok((bytes, mask))
  {
    if tokens != [] {
      ParseTokensAt(tokens[1..], bytes[1..], mask[1..]);
      assert bytes == [bytes[0]] + bytes[1..] && mask == [mask[0]] + mask[1..];
    }
  }

  // What any pattern text means.

  /** The character is the hex digit `d`, in either case. */
  predicate IsDigit(c: char, d: nat) {
    d < 16 && (c == LOWER[d] || c == UPPER[d])
  }

  lemma DigitIs(c: char)
    ensures forall d: nat :: IsDigit(c, d) <==> DigitValue(c) == Some(d)
  {
    forall d: nat
      ensures IsDigit(c, d) <==> DigitValue(c) == Some(d)
    {
      if d < 16 {
        assert '0' <= LOWER[d] <= '9' || 'a' <= LOWER[d] <= 'f';
      }
    }
  }

  /** Two hex digits, or one, of either case, are the byte with those digits, and it is compared. */
  lemma HexDigitsParse(high: char, h: nat, low: char, l: nat)
    requires IsDigit(high, h) && IsDigit(low, l)
    ensures 16 * h + l < 0x100
    ensures ParseToken([high, low]) == Ok((16 * h + l, 0xFF)) && ParseToken([low]) == Ok((l, 0xFF))
  {
    hide IsDigit, DigitValue;
    DigitIs(high);
    DigitIs(low);
    DigitBound(high);
    DigitBound(low);
  }

  /** A wildcard is ignored; after a question mark, another ASCII character stands for its code. */
  lemma QuestionsParse(c: char)
    ensures ParseToken("?") == ParseToken("??") == Ok((0, 0))
    ensures c != '?' && c as int < 0x80 ==> ParseToken(['?', c]) == Ok((c as int, 0xFF))
    ensures c as int >= 0x80 ==> ParseToken(['?', c]) == Err(['?', c])
  {
    assert ['?', c] == "??" ==> c == "??"[1];
  }

  predicate IsHexWord(token: string) {
    1 <= |token| <= 2 && forall i :: 0 <= i < |token| ==> exists d :: 0 <= d < 16 && IsDigit(token[i], d)
  }

  predicate IsQuestion(token: string) {
    token == "?" || (|token| == 2 && token[0] == '?' && token[1] as int < 0x80)
  }

  /** Nothing else is a token, and the error is the token. */
  lemma TokenIff(token: string)
    ensures ParseToken(token).Ok? <==> IsHexWord(token) || IsQuestion(token)
    ensures ParseToken(token).Err? ==> ParseToken(token) == Err(token)
  {
    forall i | 0 <= i < |token|
      ensures DigitValue(token[i]).Some? <==> exists d :: 0 <= d < 16 && IsDigit(token[i], d)
    {
      DigitIs(token[i]);
      if DigitValue(token[i]).Some? {
        DigitBound(token[i]);
        assert IsDigit(token[i], DigitValue(token[i]).value);
      }
    }
  }

  /** The index of the first token that is none, or the number of tokens. */
  function FirstInvalid(tokens: seq<string>): (n: nat)
    ensures n <= |tokens|
    ensures forall i :: 0 <= i < n ==> ParseToken(tokens[i]).Ok?
    ensures n < |tokens| ==> ParseToken(tokens[n]).Err?
  {
    if tokens == [] || ParseToken(tokens[0]).Err? then
      0
    else
      var n := FirstInvalid(tokens[1..]);
      assert forall i :: 1 <= i < n + 1 ==> tokens[i] == tokens[1..][i - 1];
      1 + n
  }

  /** The tokens' bytes and masks in order, or the first token that is none. */
  lemma {:induction false} TokensParse(tokens: seq<string>)
    ensures var n := FirstInvalid(tokens);
      if n < |tokens| then ParseTokens(tokens) == Err(tokens[n]) else ParseTokens(tokens).Ok?
    ensures ParseTokens(tokens).Ok? ==>
      var (bytes, mask) := ParseTokens(tokens).value;
      && |bytes| == |mask| == |tokens|
      && forall i :: 0 <= i < |tokens| ==> ParseToken(tokens[i]) == Ok((bytes[i], mask[i]))
  {
    hide ParseToken;
    if tokens != [] {
      TokensParse(tokens[1..]);
      if ParseToken(tokens[0]).Err? {
        TokenIff(tokens[0]);
      }
    }
  }

  /** Words with blanks of any kind and number between them, and any after the last. */
  function Spaced(words: seq<string>, blanks: seq<string>): string
    requires |words| == |blanks|
  {
    if words == [] then "" else words[0] + blanks[0] + Spaced(words[1..], blanks[1..])
  }

  lemma {:induction false} SplitSkips(blank: string, rest: string)
    requires AllSpace(blank)
    ensures SplitFrom(blank + rest, "") == SplitFrom(rest, "")
  {
    if blank == "" {
      assert blank + rest == rest;
    } else {
      SplitSkips(blank[1..], rest);
      assert (blank + rest)[1..] == blank[1..] + rest;
    }
  }

  lemma {:induction false} SplitEndsWord(word: string, blank: string, rest: string)
    requires IsWord(word) && AllSpace(blank) && (rest != "" ==> blank != "")
    ensures SplitFrom(word + blank + rest, "") == [word] + SplitFrom(rest, "")
  {
    hide SplitFrom;
    SplitReadsWord(word, blank + rest, "");
    assert word + blank + rest == word + (blank + rest) && "" + word == word;
    if blank == "" {
      assert blank + rest == "";
      SplitNothing(word);
    } else {
      assert (blank + rest)[1..] == blank[1..] + rest;
      SplitAtSpace(blank + rest, word);
      SplitSkips(blank[1..], rest);
    }
  }

  lemma {:induction false} SplitNothing(token: string)
    requires token != ""
    ensures SplitFrom("", token) == [token] && SplitFrom("", "") == []
  {
  }

  lemma {:induction false} SplitAtSpace(s: string, token: string)
    requires token != "" && s != "" && IsSpace(s[0])
    ensures SplitFrom(s, token) == [token] + SplitFrom(s[1..], "")
  {
  }

  /** Splitting finds the words, whatever blanks are between and around them. */
  lemma {:induction false} SplitFindsWords(front: string, words: seq<string>, blanks: seq<string>)
    requires |words| == |blanks| && AllSpace(front)
    requires forall i :: 0 <= i < |words| ==> IsWord(words[i]) && AllSpace(blanks[i]) && (i < |words| - 1 ==> blanks[i] != "")
    ensures Split(front + Spaced(words, blanks)) == words
    decreases |words|
  {
    hide SplitFrom, IsWord, AllSpace;
    SplitSkips(front, Spaced(words, blanks));
    if words == [] {
      SplitNothing("?");
    } else {
      var rest := Spaced(words[1..], blanks[1..]);
      SplitFindsWords(NoBlank(), words[1..], blanks[1..]);
      assert "" + rest == rest;
      SplitEndsWord(words[0], blanks[0], rest);
      assert words == [words[0]] + words[1..];
    }
  }

  function NoBlank(): (blank: string)
    ensures AllSpace(blank) && blank == ""
  {
    ""
  }

  /**
    * A pattern's text is read word by word, whatever blanks separate the words: its bytes and mask are those of
    * the words, without a mask exactly when no word is a wildcard, and the error is the first word that is no token.
    */
  lemma {:induction false} PatternTextParses(front: string, words: seq<string>, blanks: seq<string>)
    requires |words| == |blanks| && AllSpace(front)
    requires forall i :: 0 <= i < |words| ==> IsWord(words[i]) && AllSpace(blanks[i]) && (i < |words| - 1 ==> blanks[i] != "")
    ensures var n, r := FirstInvalid(words), ParseHexPattern(front + Spaced(words, blanks));
      if n < |words| then
        r == Err(words[n])
      else
        && r.Ok? && |r.value.0| == |words| && (r.value.1.Some? ==> |r.value.1.value| == |words|)
        && (r.value.1.None? <==> forall i :: 0 <= i < |words| ==> words[i] != "?" && words[i] != "??")
        && forall i :: 0 <= i < |words| ==>
             ParseToken(words[i]) == Ok((r.value.0[i], if r.value.1.Some? then r.value.1.value[i] else 0xFF))
  {
    SplitFindsWords(front, words, blanks);
    TokensParse(words);
    hide Split, Spaced, ParseTokens, IsWord, AllSpace;
    forall i | 0 <= i < |words| && ParseToken(words[i]).Ok?
      ensures ParseToken(words[i]).value.1 == if words[i] == "?" || words[i] == "??" then 0 else 0xFF
    {
    }
  }

  // Printed layouts.

  /** The struct's bytes with everything that is not compared zeroed. */
  function Compared(bytes: seq<byte>, mask: seq<byte>): (r: seq<byte>)
    requires |bytes| == |mask|
    ensures |r| == |bytes|
  {
    seq<byte>(|bytes|, i requires 0 <= i < |bytes| => if mask[i] != 0 then bytes[i] else 0)
  }

  /** Each token of the layout is a word that parses to its struct byte. */
  lemma LayoutParses(bytes: seq<byte>, mask: seq<byte>, s: PatternStruct, offset: nat)
    requires |bytes| == |mask| && QueryToScanPattern(bytes, mask) == Some((s, offset))
    ensures offset + |s.bytes| <= |bytes| && (s.mask.Some? ==> |s.mask.value| == |s.bytes|)
    ensures var tokens := LayoutTokens(s, offset, |bytes|);
      |tokens| == |bytes| && forall i :: 0 <= i < |bytes| ==>
        && IsWord(tokens[i])
        && ParseToken(tokens[i]) == Ok((Compared(bytes, ScannedMask(mask))[i], ScannedMask(mask)[i]))
  {
    hide QueryToScanPattern, ParseToken, HexToken, IsWord, FirstSignificant, LastSignificant;
    QueryLayout(bytes, mask, s, offset);
    var tokens := LayoutTokens(s, offset, |bytes|);
    HexTokenParses(0, 0);
    WildcardToken();
    forall i | 0 <= i < |bytes|
      ensures IsWord(tokens[i])
      ensures ParseToken(tokens[i]) == Ok((Compared(bytes, ScannedMask(mask))[i], ScannedMask(mask)[i]))
    {
      if offset <= i < offset + |s.bytes| {
        var m := if s.mask.Some? then s.mask.value[i - offset] else 0xFF;
        HexTokenParses(bytes[i], m);
        assert tokens[i] == HexToken(bytes[i], m) && m == ScannedMask(mask)[i];
      } else {
        assert tokens[i] == "??" && ScannedMask(mask)[i] == 0;
      }
    }
  }

  lemma WildcardToken()
    ensures HexToken(0, 0) == "??"
  {
  }

  /**
    * Round trip, whatever the mask: parsing the printed layout gives back the whole struct's pattern,
    * ignored bytes zeroed, without a mask exactly when every byte is scanned for.
    */
  lemma HexRoundTrip(bytes: seq<byte>, mask: seq<byte>)
    requires |bytes| == |mask| && 0xFF in mask
    ensures PatternHexForQuery(bytes, mask).Some?
    ensures var scanned := ScannedMask(mask);
      ParseHexPattern(PatternHexForQuery(bytes, mask).value)
        == Ok((Compared(bytes, scanned), if forall i :: 0 <= i < |mask| ==> scanned[i] == 0xFF then None else Some(scanned)))
  {
    TruncateSpans(bytes, mask);
    var (s, offset) := QueryToScanPattern(bytes, mask).value;
    hide QueryToScanPattern, TruncateSignificantBytes, FirstSignificant, LastSignificant, Split,
         SplitFrom, Join, ParseTokens, ParseToken, HexToken;
    LayoutParses(bytes, mask, s, offset);
    var tokens := LayoutTokens(s, offset, |bytes|);
    SplitJoin(tokens);
    ParseTokensAt(tokens, Compared(bytes, ScannedMask(mask)), ScannedMask(mask));
  }

  lemma {:induction false} JoinAt(tokens: seq<string>, i: nat)
    requires i < |tokens| && forall k :: 0 <= k < |tokens| ==> |tokens[k]| == 2
    ensures |Join(tokens)| == 3 * |tokens| - 1
    ensures Join(tokens)[3 * i..3 * i + 2] == tokens[i]
    ensures i < |tokens| - 1 ==> Join(tokens)[3 * i + 2] == ' '
  {
    hide Join;
    JoinCons(tokens);
    if |tokens| > 1 {
      var rest := Join(tokens[1..]);
      JoinAt(tokens[1..], if i > 0 then i - 1 else 0);
      AfterFront(tokens[0], rest, if i > 0 then 3 * (i - 1) else 0);
    }
  }

  lemma {:induction false} JoinCons(tokens: seq<string>)
    requires tokens != []
    ensures Join(tokens) == if |tokens| == 1 then tokens[0] else tokens[0] + " " + Join(tokens[1..])
  {
  }

  lemma AfterFront(token: string, rest: string, at: nat)
    requires |token| == 2 && at + 2 <= |rest|
    ensures var text := token + " " + rest;
      && text[0..2] == token && text[2] == ' '
      && text[at + 3..at + 5] == rest[at..at + 2] && (at + 2 < |rest| ==> text[at + 5] == rest[at + 2])
  {
  }

  function PrintedByte(b: byte, m: byte): string {
    if m == 0 then "??" else [UPPER[b / 16], UPPER[b % 16]]
  }

  lemma LayoutTokenAt(bytes: seq<byte>, mask: seq<byte>, s: PatternStruct, offset: nat, k: nat)
    requires |bytes| == |mask| && QueryToScanPattern(bytes, mask) == Some((s, offset)) && k < |bytes|
    ensures offset + |s.bytes| <= |bytes| && (s.mask.Some? ==> |s.mask.value| == |s.bytes|)
    ensures |LayoutTokens(s, offset, |bytes|)| == |bytes|
    ensures LayoutTokens(s, offset, |bytes|)[k] == PrintedByte(bytes[k], ScannedMask(mask)[k])
  {
    hide QueryToScanPattern, HexToken, FirstSignificant, LastSignificant;
    QueryLayout(bytes, mask, s, offset);
    if offset <= k < offset + |s.bytes| {
      HexTokenIs(bytes[k], if s.mask.Some? then s.mask.value[k - offset] else 0xFF);
    }
  }

  /** The printed layout, character by character: a byte of the struct takes two, with a blank between bytes. */
  lemma LayoutTextAt(bytes: seq<byte>, mask: seq<byte>, i: nat)
    requires |bytes| == |mask| && 0xFF in mask && i < |bytes|
    ensures PatternHexForQuery(bytes, mask).Some?
    ensures var text := PatternHexForQuery(bytes, mask).value;
      && |text| == 3 * |bytes| - 1
      && text[3 * i..3 * i + 2] == PrintedByte(bytes[i], ScannedMask(mask)[i])
      && (i < |bytes| - 1 ==> text[3 * i + 2] == ' ')
  {
    PatternIffSignificant(bytes, mask);
    var (s, offset) := QueryToScanPattern(bytes, mask).value;
    LayoutTokenAt(bytes, mask, s, offset, i);
    var tokens := LayoutTokens(s, offset, |bytes|);
    hide QueryToScanPattern, FirstSignificant, LastSignificant, Join, LayoutTokens, ScannedMask;
    forall k | 0 <= k < |tokens|
      ensures |tokens[k]| == 2
    {
      LayoutTokenAt(bytes, mask, s, offset, k);
    }
    JoinAt(tokens, i);
  }
}
