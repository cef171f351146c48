/**
 What the recursive-descent parser of cJSON computes: each function reads its
 production from the head of the text and returns the value with the text it
 has not consumed.
 */
module Parser {
  import opened Bits
  import opened CText
  import opened Unicode
  import opened JsonValue

  /**
   `Fail` is a null return. `Undef` marks texts on which the C code reads past
   the terminator or desynchronises its two passes: a backslash in front of
   the terminator, or `\u` without four hex digits.
   */
  datatype Parsed<+T> = Ok(value: T, rest: seq<byte>) | Fail | Undef {
    predicate IsFailure() { !Ok? }

    function PropagateFailure<U>(): Parsed<U>
      requires IsFailure()
    {
      if Fail? then Fail else Undef
    }

    function Extract(): (T, seq<byte>)
      requires Ok?
    {
      (value, rest)
    }

    ghost predicate Consumes(s: seq<byte>) {
      Ok? ==> |rest| < |s|
    }
  }

  const NULL_TEXT: seq<byte> := [110, 117, 108, 108]
  const TRUE_TEXT: seq<byte> := [116, 114, 117, 101]
  const FALSE_TEXT: seq<byte> := [102, 97, 108, 115, 101]

  /** `skip`: past white space and control characters. */
  function Skip(s: seq<byte>): (r: seq<byte>)
    ensures |r| <= |s|
    ensures !(0 < Peek(r) <= SPACE)
  {
    if 0 < Peek(s) <= SPACE then Skip(s[1..]) else s
  }

  // Numbers ----------------------------------------------------------------

  function Pow10(e: int): real
    decreases if e < 0 then -e else e
  {
    if e == 0 then 1.0 else if e > 0 then 10.0 * Pow10(e - 1) else Pow10(e + 1) / 10.0
  }

  /** `n * 10^e` */
  function Scaled(n: int, e: int): real {
    n as real * Pow10(e)
  }

  /** `while digit: n = n*10 + digit` */
  function ScanDigits(n: int, s: seq<byte>): (r: (int, seq<byte>))
    ensures |r.1| <= |s|
    ensures !IsDigit(Peek(r.1))
    ensures n >= 0 ==> r.0 >= 0
    decreases s
  {
    if IsDigit(Peek(s)) then ScanDigits(n * 10 + (s[0] - ZERO), s[1..]) else (n, s)
  }

  predicate StartsNumber(s: seq<byte>) {
    Peek(s) == MINUS || IsDigit(Peek(s))
  }

  /** Sign, digits, fraction and exponent, each of them optional. */
  function ParseNumber(s: seq<byte>): (r: (real, seq<byte>))
    ensures |r.1| <= |s|
    ensures StartsNumber(s) ==> |r.1| < |s|
  {
    var negative := Peek(s) == MINUS;
    var s1 := if negative then s[1..] else s;
    var s2 := if Peek(s1) == ZERO then s1[1..] else s1;
    var (n, s3) := if ZERO < Peek(s2) <= NINE then ScanDigits(0, s2) else (0, s2);
    var (n, scale, s4) := ParseFraction(n, s3);
    var (subscale, s5) := ParseExponent(s4);
    (Scaled(if negative then -n else n, scale + subscale), s5)
  }

  function ParseFraction(n: int, s: seq<byte>): (r: (int, int, seq<byte>))
    ensures |r.2| <= |s|
  {
    if Peek(s) == DOT && IsDigit(At(s, 1)) then
      var (n, t) := ScanDigits(n, s[1..]);
      (n, |t| - (|s| - 1), t)
    else (n, 0, s)
  }

  function ParseExponent(s: seq<byte>): (r: (int, seq<byte>))
    ensures |r.1| <= |s|
  {
    if Peek(s) == 101 || Peek(s) == 69 then
      var t := s[1..];
      if Peek(t) == PLUS then ScanDigits(0, t[1..])
      else if Peek(t) == MINUS then var (e, u) := ScanDigits(0, t[1..]); (-e, u)
      else ScanDigits(0, t)
    else (0, s)
  }

  /** `parse_number`, pointer by pointer. */
  lemma NumberSteps(s: seq<byte>, negative: bool, s1: seq<byte>, whole: int, s3: seq<byte>,
                    n: int, scale: int, s4: seq<byte>, e: int, s5: seq<byte>)
    requires negative == (Peek(s) == MINUS) && s1 == (if negative then s[1..] else s)
    requires var s2 := if Peek(s1) == ZERO then s1[1..] else s1;
             (if ZERO < Peek(s2) <= NINE then ScanDigits(0, s2) else (0, s2)) == (whole, s3)
    requires ParseFraction(whole, s3) == (n, scale, s4) && ParseExponent(s4) == (e, s5)
    ensures ParseNumber(s) == (Scaled(if negative then -n else n, scale + e), s5)
  {}

  // Strings ----------------------------------------------------------------

  /** The byte an escape other than `\u` stands for. */
  function Unescape(c: byte): byte {
    if c == 98 then BACKSPACE
    else if c == 102 then FORMFEED
    else if c == 110 then NEWLINE
    else if c == 114 then RETURN
    else if c == 116 then TAB
    else c
  }

  const U: byte := 117

  /**
   One `\uXXXX` escape or surrogate pair at the head of the text: the bytes it
   stands for. Lone surrogates and U+0000 stand for nothing.
   */
  function UnicodeEscape(s: seq<byte>): (r: Parsed<seq<byte>>)
    requires Peek(s) == BACKSLASH && At(s, 1) == U
    ensures r.Consumes(s) && !r.Fail?
    ensures r.Ok? ==> |r.rest| + 6 <= |s| && |r.value| + 2 <= |s| - |r.rest|
  {
    if !HasHex4(s[2..]) then Undef
    else
      var uc := ParseHex4(s[2..]);
      HexBound(s[2..]);
      if IsLowSurrogate(uc) || uc == 0 then Ok([], s[6..])
      else if IsHighSurrogate(uc) then
        if At(s, 6) != BACKSLASH || At(s, 7) != U then Ok([], s[6..])
        else if !HasHex4(s[8..]) then Undef
        else
          var uc2 := ParseHex4(s[8..]);
          if !IsLowSurrogate(uc2) then Ok([], s[12..])
          else
            CombineIsRfc2781(uc, uc2);
            Ok(WriteUtf8(CombineSurrogates(uc, uc2)), s[12..])
      else Ok(WriteUtf8(uc), s[6..])
  }

  /** The second pass of `parse_string`, from behind the opening quote. */
  function StringBody(s: seq<byte>): (r: Parsed<seq<byte>>)
    ensures !r.Fail?
    ensures r.Ok? ==> |r.rest| <= |s|
  {
    if Peek(s) == QUOTE then Ok([], s[1..])
    else if Peek(s) == NUL then Ok([], s)
    else if Peek(s) != BACKSLASH then
      var (out, rest) :- StringBody(s[1..]);
      Ok([s[0]] + out, rest)
    else if At(s, 1) == NUL then Undef
    else if At(s, 1) != U then
      var (out, rest) :- StringBody(s[2..]);
      Ok([Unescape(s[1])] + out, rest)
    else
      var (head, t) :- UnicodeEscape(s);
      var (out, rest) :- StringBody(t);
      Ok(head + out, rest)
  }

  function ParseString(s: seq<byte>): (r: Parsed<seq<byte>>)
    ensures r.Consumes(s)
  {
    if Peek(s) != QUOTE then Fail else StringBody(s[1..])
  }

  lemma EscapeNulFree(s: seq<byte>)
    requires Peek(s) == BACKSLASH && At(s, 1) == U && UnicodeEscape(s).Ok?
    ensures NulFree(UnicodeEscape(s).value)
  {
    hide WriteUtf8, EncodedBy, CombineSurrogates, ParseHex4;
    var uc := ParseHex4(s[2..]);
    HexBound(s[2..]);
    if IsHighSurrogate(uc) {
      if At(s, 6) == BACKSLASH && At(s, 7) == U && HasHex4(s[8..]) && IsLowSurrogate(ParseHex4(s[8..])) {
        CombineIsRfc2781(uc, ParseHex4(s[8..]));
        WrittenNulFree(CombineSurrogates(uc, ParseHex4(s[8..])));
      }
    } else if uc != 0 {
      WrittenNulFree(uc);
    }
  }

  /** A decoded string contains no terminator of its own. */
  lemma {:induction false} DecodedNulFree(s: seq<byte>)
    requires StringBody(s).Ok?
    ensures NulFree(StringBody(s).value)
    decreases |s|
  {
    if Peek(s) == NUL || Peek(s) == QUOTE {
    } else if s[0] != BACKSLASH {
      DecodedNulFree(s[1..]);
    } else if At(s, 1) != U {
      DecodedNulFree(s[2..]);
    } else {
      DecodedNulFree(UnicodeEscape(s).rest);
      EscapeNulFree(s);
    }
  }

  // Values -----------------------------------------------------------------

  function ParseValue(s: seq<byte>): (r: Parsed<Json>)
    ensures r.Consumes(s)
    decreases |s|, 0
  {
    if NULL_TEXT <= s then Ok(Null, s[4..])
    else if FALSE_TEXT <= s then Ok(False, s[5..])
    else if TRUE_TEXT <= s then Ok(True, s[4..])
    else if Peek(s) == QUOTE then
      var (text, rest) :- ParseString(s);
      Ok(String(text), rest)
    else if StartsNumber(s) then
      var (d, rest) := ParseNumber(s);
      Ok(Number(d), rest)
    else if Peek(s) == LBRACKET then
      var t := Skip(s[1..]);
      if Peek(t) == RBRACKET then Ok(Array([]), t[1..])
      else
        var (items, rest) :- ParseElements(t);
        Ok(Array(items), rest)
    else if Peek(s) == LBRACE then
      var t := Skip(s[1..]);
      if Peek(t) == RBRACE then Ok(Object([]), t[1..])
      else
        var (members, rest) :- ParseMembers(t);
        Ok(Object(members), rest)
    else Fail
  }

  /** The elements of an array up to its closing bracket. */
  function ParseElements(s: seq<byte>): (r: Parsed<seq<Json>>)
    ensures r.Consumes(s)
    decreases |s|, 1
  {
    var (v, t) :- ParseValue(Skip(s));
    var t := Skip(t);
    if Peek(t) == COMMA then
      var (vs, rest) :- ParseElements(t[1..]);
      Ok([v] + vs, rest)
    else if Peek(t) == RBRACKET then Ok([v], t[1..])
    else Fail
  }

  /** One `"name" : value` pair and the white space behind it. */
  function ParseMember(s: seq<byte>): (r: Parsed<Member>)
    ensures r.Consumes(s)
    decreases |s|, 1
  {
    var (name, t) :- ParseString(Skip(s));
    var t := Skip(t);
    if Peek(t) != COLON then Fail
    else
      var (v, u) :- ParseValue(Skip(t[1..]));
      Ok(Member(name, v), Skip(u))
  }

  /** The members of an object up to its closing brace. */
  function ParseMembers(s: seq<byte>): (r: Parsed<seq<Member>>)
    ensures r.Consumes(s)
    decreases |s|, 2
  {
    var (m, t) :- ParseMember(s);
    if Peek(t) == COMMA then
      var (ms, rest) :- ParseMembers(t[1..]);
      Ok([m] + ms, rest)
    else if Peek(t) == RBRACE then Ok([m], t[1..])
    else Fail
  }

  /** `cJSON_ParseWithOpts` */
  function ParseWithOpts(s: seq<byte>, requireNullTerminated: bool): Parsed<Json> {
    var (v, rest) :- ParseValue(Skip(s));
    if !requireNullTerminated then Ok(v, rest)
    else if Peek(Skip(rest)) != NUL then Fail
    else Ok(v, Skip(rest))
  }

  lemma HexBound(s: seq<byte>)
    requires HasHex4(s)
    ensures ParseHex4(s) < 0x10000
  {
    ShlTimes(HexVal(s[0]), 4);
    var h := 16 * HexVal(s[0]) + HexVal(s[1]);
    ShlTimes(h, 4);
    ShlTimes(16 * h + HexVal(s[2]), 4);
  }
}
