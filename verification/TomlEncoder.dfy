/** The string encoder of libtoml, which the string parser of cJSON undoes. */
module TomlEncoder {
  import opened CText
  import opened Grammar
  import opened PrintBuffers
  import opened Parser

  /** The letter behind the backslash, for the bytes that get one. */
  function Letter(c: byte): (l: byte)
    requires Escaped(c)
    ensures l != NUL && l != U
  {
    if c == BACKSPACE then 98
    else if c == FORMFEED then 102
    else if c == NEWLINE then 110
    else if c == RETURN then 114
    else if c == TAB then 116
    else c
  }

  predicate Escaped(c: byte) {
    c in [QUOTE, BACKSLASH, SLASH, BACKSPACE, FORMFEED, NEWLINE, RETURN, TAB]
  }

  function EncodeByte(c: byte): seq<byte> {
    if Escaped(c) then [BACKSLASH, Letter(c)] else [c]
  }

  function Encode(s: seq<byte>): seq<byte> {
    if s == [] then [] else EncodeByte(s[0]) + Encode(s[1..])
  }

  lemma EncodeUnfold(s: seq<byte>, i: nat)
    requires i < |s|
    ensures Encode(s[i..]) == EncodeByte(s[i]) + Encode(s[i + 1..])
  {
    assert s[i..][1..] == s[i + 1..];
  }

  /** `_json_textencode`: the second pass fills the block the first one measured. */
  method JsonStringEncode(text: seq<byte>) returns (ret: array<byte>)
    requires NulFree(text)
    ensures fresh(ret) && ret[..] == Encode(text) + [NUL]
  {
    hide Encode, EncodeByte, Letter, Filled;
    var i, j := 0, 0;
    assert text[0..] == text;
    NothingEncoded();
    while At(text, i) != NUL
      invariant i <= |text| && i + j + |Encode(text[i..])| == |Encode(text)|
      decreases |text| - i
    {
      EncodeUnfold(text, i);
      EncodedAs([], text[i], []);
      if Escaped(text[i]) { j := j + 1; }
      i := i + 1;
    }
    assert text[i..] == [];
    ret := new byte[i + j + 1];
    i, j := 0, 0;
    ghost var t: seq<byte> := [];
    NothingFilled(ret);
    assert [] + Encode(text) == Encode(text);
    while At(text, i) != NUL
      invariant i <= |text| && i + j == |t| && t + Encode(text[i..]) == Encode(text) && Filled(ret, t)
      decreases |text| - i
    {
      EncodeUnfold(text, i);
      EncodedAs(t, text[i], Encode(text[i + 1..]));
      var c, ptr := text[i], i + j;
      if Escaped(c) {
        ptr, t := Put(ret, ptr, BACKSLASH, t);
        j := j + 1;
        ptr, t := Put(ret, ptr, Letter(c), t);
      } else {
        ptr, t := Put(ret, ptr, c, t);
      }
      i := i + 1;
    }
    assert text[i..] == [] && t + [] == t;
    var end;
    end, t := Put(ret, i + j, NUL, t);
    WholeFilled(ret, t);
  }

  lemma NothingEncoded()
    ensures Encode([]) == []
  {}

  lemma NothingFilled(out: array<byte>)
    ensures Filled(out, [])
  {}

  lemma WholeFilled(out: array<byte>, t: seq<byte>)
    requires Filled(out, t) && |t| == out.Length
    ensures out[..] == t
  {}

  lemma EncodedAs(t: seq<byte>, c: byte, more: seq<byte>)
    ensures |EncodeByte(c)| == if Escaped(c) then 2 else 1
    ensures t + (EncodeByte(c) + more) == (if Escaped(c) then t + [BACKSLASH] + [Letter(c)] else t + [c]) + more
  {}

  lemma ByteDecodes(c: byte, rest: seq<byte>)
    requires c != NUL
    ensures StringBody(EncodeByte(c) + rest) ==
      match StringBody(rest)
      case Ok(out, t) => Ok([c] + out, t)
      case Fail => Fail
      case Undef => Undef
  {
    var s := EncodeByte(c) + rest;
    assert s[|EncodeByte(c)|..] == rest;
  }

  lemma {:induction false} BodyDecodes(s: seq<byte>, rest: seq<byte>)
    requires NulFree(s)
    ensures StringBody(Encode(s) + ([QUOTE] + rest)) == Ok(s, rest)
  {
    hide StringBody, EncodeByte;
    if s == [] {
      assert Encode(s) + ([QUOTE] + rest) == [QUOTE] + rest;
      Closing(rest);
    } else {
      var tail := Encode(s[1..]) + ([QUOTE] + rest);
      BodyDecodes(s[1..], rest);
      ByteDecodes(s[0], tail);
      assert Encode(s) + ([QUOTE] + rest) == EncodeByte(s[0]) + tail;
      assert [s[0]] + s[1..] == s;
    }
  }

  lemma Closing(rest: seq<byte>)
    ensures StringBody([QUOTE] + rest) == Ok([], rest)
  {
    assert ([QUOTE] + rest)[1..] == rest;
  }

  /** What libtoml writes between quotes, cJSON reads back as the string it was. */
  lemma ParserUndoesEncoder(s: seq<byte>, rest: seq<byte>)
    requires NulFree(s)
    ensures ParseString([QUOTE] + (Encode(s) + ([QUOTE] + rest))) == Ok(s, rest)
  {
    BodyDecodes(s, rest);
    var body := Encode(s) + ([QUOTE] + rest);
    assert ([QUOTE] + body)[1..] == body;
  }

  // Whether it is JSON ---------------------------------------------------------------------------

  function CharFor(c: byte): Char {
    if Escaped(c) then Short(Letter(c)) else Raw(c)
  }

  function CharsFor(s: seq<byte>): seq<Char> {
    if s == [] then [] else [CharFor(s[0])] + CharsFor(s[1..])
  }

  /** The control bytes that have an escape of their own, or none at all. */
  predicate HasForm(c: byte) {
    c >= 32 || c in {8, 9, 10, 12, 13}
  }

  lemma ByteForm(c: byte, chars: seq<Char>)
    requires HasForm(c)
    ensures ValidChar(CharFor(c)) && CharOnto(CharFor(c), CharsOnto(chars, [])) == EncodeByte(c) + CharsOnto(chars, [])
    ensures StringValue([CharFor(c)] + chars) == [c] + StringValue(chars)
  {
    assert ([CharFor(c)] + chars)[1..] == chars;
  }

  lemma {:induction false} FormsAreJson(s: seq<byte>)
    requires forall i :: 0 <= i < |s| ==> HasForm(s[i])
    ensures ValidChars(CharsFor(s)) && CharsOnto(CharsFor(s), []) == Encode(s) && StringValue(CharsFor(s)) == s
  {
    hide CharFor, EncodeByte, CharOnto;
    if s != [] {
      FormsAreJson(s[1..]);
      ByteForm(s[0], CharsFor(s[1..]));
      assert CharsFor(s)[1..] == CharsFor(s[1..]);
      assert [s[0]] + s[1..] == s;
    }
  }

  predicate Visible(t: seq<byte>) {
    forall i :: 0 <= i < |t| ==> t[i] >= 32
  }

  lemma {:induction false} JsonIsVisible(chars: seq<Char>)
    requires ValidChars(chars)
    ensures Visible(CharsOnto(chars, []))
  {
    if chars != [] {
      assert ValidChar(chars[0]);
      JsonIsVisible(chars[1..]);
    }
  }

  lemma {:induction false} VisibleHasForm(s: seq<byte>)
    requires Visible(Encode(s))
    ensures forall i :: 0 <= i < |s| ==> HasForm(s[i])
  {
    if s != [] {
      var a, b := EncodeByte(s[0]), Encode(s[1..]);
      assert forall i :: 0 <= i < |b| ==> b[i] == (a + b)[|a| + i];
      VisibleHasForm(s[1..]);
      assert s[0] in [QUOTE, BACKSLASH, SLASH, BACKSPACE, FORMFEED, NEWLINE, RETURN, TAB] || (a + b)[0] == s[0];
    }
  }

  /**
   The encoding is the text of a JSON string by RFC 8259, one that denotes the
   string, if and only if the string has no control byte but those five.
   */
  lemma EncodesJsonIff(s: seq<byte>)
    ensures (exists chars :: ValidChars(chars) && CharsOnto(chars, []) == Encode(s) && StringValue(chars) == s) <==>
            forall i :: 0 <= i < |s| ==> HasForm(s[i])
  {
    hide StringValue, CharsOnto, Encode;
    if forall i :: 0 <= i < |s| ==> HasForm(s[i]) { FormsAreJson(s); }
    forall chars | ValidChars(chars) && CharsOnto(chars, []) == Encode(s)
      ensures forall i :: 0 <= i < |s| ==> HasForm(s[i]) {
      JsonIsVisible(chars);
      VisibleHasForm(s);
    }
  }
}
