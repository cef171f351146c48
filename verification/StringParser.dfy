/**
 `parse_string` as it runs: one pass to size the buffer, one to fill it. The
 count of the first pass bounds what the second one writes.
 */
module StringParser {
  import opened Bits
  import opened CText
  import opened Unicode
  import opened CJsonNode
  import Parser

  /** `skip` */
  method Skip(text: seq<byte>, pos: nat) returns (end: nat)
    requires pos <= |text|
    ensures pos <= end <= |text| && text[end..] == Parser.Skip(text[pos..])
  {
    end := pos;
    while At(text, end) != NUL && At(text, end) <= SPACE
      invariant pos <= end <= |text| && Parser.Skip(text[end..]) == Parser.Skip(text[pos..])
      decreases |text| - end
    {
      Tail(text, end);
      end := end + 1;
    }
    Tail(text, end);
  }

  lemma Tail(text: seq<byte>, i: nat)
    requires i <= |text|
    ensures forall k: nat :: At(text[i..], k) == At(text, i + k)
    ensures Peek(text[i..]) == At(text, i) && (At(text, i) != NUL ==> i < |text|)
    ensures forall k: nat :: k <= |text| - i ==> text[i..][k..] == text[i + k..]
  {}

  // First pass ---------------------------------------------------------------

  /** How many rounds the counting loop makes: an escape counts once for both bytes. */
  function Count(s: seq<byte>): nat {
    if Peek(s) == NUL || Peek(s) == QUOTE then 0
    else if s[0] == BACKSLASH && |s| > 1 then 1 + Count(s[2..])
    else 1 + Count(s[1..])
  }

  lemma {:induction false} CountHex(s: seq<byte>, n: nat)
    requires n <= |s| && forall i :: 0 <= i < n ==> IsHex(s[i])
    ensures Count(s) == n + Count(s[n..])
  {
    if n > 0 {
      CountHex(s[1..], n - 1);
      assert s[1..][n - 1..] == s[n..];
    }
  }

  lemma CountEscape(s: seq<byte>)
    requires |s| >= 6 && s[0] == BACKSLASH && HasHex4(s[2..])
    ensures Count(s) == 5 + Count(s[6..])
  {
    CountHex(s[2..], 4);
    assert s[2..][4..] == s[6..];
  }

  /** The decoded string fits the counted length. */
  lemma {:induction false} CountBounds(s: seq<byte>)
    requires Parser.StringBody(s).Ok?
    ensures |Parser.StringBody(s).value| <= Count(s)
    decreases |s|
  {
    if Peek(s) == NUL || Peek(s) == QUOTE {
    } else if s[0] != BACKSLASH {
      CountBounds(s[1..]);
    } else if At(s, 1) != Parser.U {
      CountBounds(s[2..]);
    } else {
      var e := Parser.UnicodeEscape(s);
      CountBounds(e.rest);
      EscapeCount(s);
    }
  }

  lemma EscapeCount(s: seq<byte>)
    requires Peek(s) == BACKSLASH && At(s, 1) == Parser.U && Parser.UnicodeEscape(s).Ok?
    ensures |Parser.UnicodeEscape(s).value| + Count(Parser.UnicodeEscape(s).rest) <= Count(s)
  {
    CountEscape(s);
    if Parser.UnicodeEscape(s).rest != s[6..] {
      assert s[6..][2..] == s[8..];
      CountEscape(s[6..]);
      assert s[6..][6..] == s[12..];
    }
  }

  /** The loop of the first pass. */
  method Measure(text: seq<byte>, start: nat) returns (len: nat)
    requires start <= |text|
    ensures len == Count(text[start..])
  {
    var ptr;
    ptr, len := start, 0;
    while At(text, ptr) != QUOTE && At(text, ptr) != NUL
      invariant start <= ptr <= |text| + 1
      invariant len + Count(if ptr <= |text| then text[ptr..] else []) == Count(text[start..])
      decreases |text| - ptr
    {
      Tail(text, ptr);
      len := len + 1;
      if text[ptr] == BACKSLASH { ptr := ptr + 1; }
      ptr := ptr + 1;
    }
    if ptr <= |text| { Tail(text, ptr); }
  }

  // Second pass --------------------------------------------------------------

  /** The bytes of a character from the last one back. */
  lemma WrittenBackwards(uc: nat)
    requires uc < 0x110000
    ensures var w, n := WriteUtf8(uc), SequenceLength(uc);
            && Shr(uc, 6) == uc / 64 && Shr(uc / 64, 6) == uc / 64 / 64 && Shr(uc / 64 / 64, 6) == uc / 64 / 64 / 64
            && uc / 64 / 64 / 64 < 8 && (n <= 3 ==> uc / 64 / 64 < 0x10) && (n <= 2 ==> uc / 64 < 0x20)
            && (n == 1 ==> w == [Leading(uc, 1)])
            && (n == 2 ==> w == [Leading(uc / 64, 2), Trailing(uc)])
            && (n == 3 ==> w == [Leading(uc / 64 / 64, 3), Trailing(uc / 64), Trailing(uc)])
            && (n == 4 ==>
                  w == [Leading(uc / 64 / 64 / 64, 4), Trailing(uc / 64 / 64), Trailing(uc / 64), Trailing(uc)])
  {
    hide Shr, Or, And;
    DropSix(uc);
    DropSix(uc / 64);
    DropSix(uc / 64 / 64);
  }

  /** The fall-through switch that stores a character from its last byte back. */
  method StoreUtf8(out: array<byte>, k: nat, code: nat) returns (k': nat)
    requires 0 < code < 0x110000 && k + SequenceLength(code) <= out.Length
    modifies out
    ensures k' == k + SequenceLength(code) && out[k..k'] == WriteUtf8(code)
    ensures out[..k] == old(out[..k]) && out[k'..] == old(out[k'..])
  {
    hide WriteUtf8, Shr, Trailing, Leading;
    var uc := code;
    var len := 4;
    if uc < 0x80 { len := 1; } else if uc < 0x800 { len := 2; } else if uc < 0x10000 { len := 3; }
    k' := k + len;
    WrittenBackwards(code);
    if len == 4 { k' := k' - 1; out[k'] := Trailing(uc); uc := Shr(uc, 6); }
    if len >= 3 { k' := k' - 1; out[k'] := Trailing(uc); uc := Shr(uc, 6); }
    if len >= 2 { k' := k' - 1; out[k'] := Trailing(uc); uc := Shr(uc, 6); }
    k' := k' - 1;
    out[k'] := Leading(uc, len);
    k' := k' + len;
  }

  /** The `\u` case, from the backslash at `p` to behind the escape. */
  method DecodeEscape(text: seq<byte>, p: nat, out: array<byte>, k: nat) returns (p': nat, k': nat)
    requires p < |text| && text[p] == BACKSLASH && At(text, p + 1) == Parser.U
    requires Parser.UnicodeEscape(text[p..]).Ok?
    requires k + |Parser.UnicodeEscape(text[p..]).value| <= out.Length
    modifies out
    ensures var e := Parser.UnicodeEscape(text[p..]);
            && p < p' <= |text| && text[p'..] == e.rest
            && k' == k + |e.value| && out[k..k'] == e.value
    ensures out[..k] == old(out[..k])
  {
    Tail(text, p);
    var ptr := p + 1;
    Parser.HexBound(text[p..][2..]);
    var uc := ParseHex4(text[ptr + 1..]);
    ptr := ptr + 4;
    k' := k;
    if IsLowSurrogate(uc) || uc == 0 {
    } else if IsHighSurrogate(uc) {
      if At(text, ptr + 1) == BACKSLASH && At(text, ptr + 2) == Parser.U {
        var uc2 := ParseHex4(text[ptr + 3..]);
        ptr := ptr + 6;
        if IsLowSurrogate(uc2) {
          CombineIsRfc2781(uc, uc2);
          uc := CombineSurrogates(uc, uc2);
          k' := StoreUtf8(out, k, uc);
        }
      }
    } else {
      k' := StoreUtf8(out, k, uc);
    }
    p' := ptr + 1;
  }

  /** `parse_string`: the end of the literal and the decoded string, or -1. */
  method ParseString(item: Node, text: seq<byte>, pos: nat) returns (end: int)
    requires pos <= |text| && !Parser.ParseString(text[pos..]).Undef?
    modifies item`kind, item`valuestring
    ensures match Parser.ParseString(text[pos..])
            case Ok(v, rest) =>
              && pos < end <= |text| && text[end..] == rest && NulFree(v)
              && item.kind == StringKind && item.valuestring == Some(v)
            case _ => end == -1 && item.kind == old(item.kind) && item.valuestring == old(item.valuestring)
  {
    hide Parser.StringBody, Count;
    Tail(text, pos);
    if At(text, pos) != QUOTE { return -1; }
    ghost var body := text[pos + 1..];
    var ptr;
    var len := Measure(text, pos + 1);
    var out := new byte[len + 1];
    var k;
    ptr, k := Decode(text, pos + 1, out);
    out[k] := NUL;
    if At(text, ptr) == QUOTE { ptr := ptr + 1; }
    Parser.DecodedNulFree(body);
    Tail(text, ptr);
    item.valuestring := Some(out[..k]);
    item.kind := StringKind;
    end := ptr;
  }

  /** The second pass: up to the closing quote or the terminator. */
  method Decode(text: seq<byte>, start: nat, out: array<byte>) returns (ptr: nat, k: nat)
    requires start <= |text| && Parser.StringBody(text[start..]).Ok? && out.Length == Count(text[start..]) + 1
    modifies out
    ensures start <= ptr <= |text| && k < out.Length
    ensures At(text, ptr) == QUOTE || At(text, ptr) == NUL
    ensures Parser.StringBody(text[start..]) == Parser.Ok(out[..k],
              if At(text, ptr) == QUOTE then text[ptr + 1..] else text[ptr..])
  {
    ghost var total := Parser.StringBody(text[start..]);
    CountBounds(text[start..]);
    ptr, k := start, 0;
    assert out[..0] == [] && [] + total.value == total.value;
    while At(text, ptr) != QUOTE && At(text, ptr) != NUL
      invariant start <= ptr <= |text| && k <= |total.value| < out.Length
      invariant Parser.StringBody(text[ptr..]).Ok? && Parser.StringBody(text[ptr..]).rest == total.rest
      invariant out[..k] + Parser.StringBody(text[ptr..]).value == total.value
      decreases |text| - ptr
    {
      ghost var done, tail := out[..k], Parser.StringBody(text[ptr..]).value;
      ghost var head;
      ptr, k, head := DecodeOne(text, ptr, out, k);
      Glue(done, head, Parser.StringBody(text[ptr..]).value);
    }
    Tail(text, ptr);
    assert out[..k] + [] == out[..k];
  }

  lemma Glue(a: seq<byte>, b: seq<byte>, c: seq<byte>)
    ensures a + (b + c) == (a + b) + c
  {}

  /** One round of the second pass. */
  method DecodeOne(text: seq<byte>, p: nat, out: array<byte>, k: nat) returns (p': nat, k': nat, ghost head: seq<byte>)
    requires p < |text| && text[p] != QUOTE && text[p] != NUL
    requires Parser.StringBody(text[p..]).Ok? && k + |Parser.StringBody(text[p..]).value| < out.Length
    modifies out
    ensures p < p' <= |text| && Parser.StringBody(text[p'..]).Ok?
    ensures Parser.StringBody(text[p..]).value == head + Parser.StringBody(text[p'..]).value
    ensures Parser.StringBody(text[p..]).rest == Parser.StringBody(text[p'..]).rest
    ensures k' == k + |head| < out.Length && out[..k'] == old(out[..k]) + head
  {
    BodyStep(text, p);
    hide Parser.StringBody, Parser.UnicodeEscape;
    p', k' := p, k;
    if text[p'] != BACKSLASH {
      head := [text[p']];
      out[k'] := text[p'];
      p', k' := p' + 1, k' + 1;
    } else if text[p' + 1] == Parser.U {
      head := Parser.UnicodeEscape(text[p..]).value;
      p', k' := DecodeEscape(text, p, out, k);
    } else {
      p' := p' + 1;
      head := [Parser.Unescape(text[p'])];
      out[k'] := Parser.Unescape(text[p']);
      p', k' := p' + 1, k' + 1;
    }
  }

  /** How the decoded string continues behind its first character. */
  lemma BodyStep(text: seq<byte>, p: nat)
    requires p < |text| && text[p] != QUOTE && text[p] != NUL && Parser.StringBody(text[p..]).Ok?
    ensures var r := Parser.StringBody(text[p..]);
            if text[p] != BACKSLASH then
              && p + 1 <= |text| && Parser.StringBody(text[p + 1..]).Ok?
              && r == Parser.Ok([text[p]] + Parser.StringBody(text[p + 1..]).value,
                                Parser.StringBody(text[p + 1..]).rest)
            else if At(text, p + 1) == Parser.U then
              var e := Parser.UnicodeEscape(text[p..]);
              && e.Ok? && Parser.StringBody(e.rest).Ok?
              && r == Parser.Ok(e.value + Parser.StringBody(e.rest).value, Parser.StringBody(e.rest).rest)
            else
              && p + 2 <= |text| && Parser.StringBody(text[p + 2..]).Ok?
              && r == Parser.Ok([Parser.Unescape(text[p + 1])] + Parser.StringBody(text[p + 2..]).value,
                                Parser.StringBody(text[p + 2..]).rest)
  {
    Tail(text, p);
  }
}
