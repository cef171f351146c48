/**
 `cJSON_Minify`: removes white space and comments in place. On every JSON text,
 with comments or without, what is left parses to the same value.
 */
module Minify {
  import opened CText
  import opened Parser
  import opened Grammar
  import opened RoundTrip
  import opened Completeness

  /** `Overrun`: an unclosed comment or string leads the C code past the terminator. */
  datatype Minified = Done(text: seq<byte>) | Overrun {
    function Behind(head: seq<byte>): Minified {
      if Done? then Done(head + text) else Overrun
    }
  }

  datatype Position = Found(rest: seq<byte>) | Missing

  /** Past a line comment, up to its line end. */
  function AfterLine(s: seq<byte>): (r: seq<byte>)
    ensures |r| <= |s|
  {
    if Peek(s) == NUL || Peek(s) == NEWLINE then s else AfterLine(s[1..])
  }

  /** Past the next star and slash. */
  function AfterBlock(s: seq<byte>): (r: Position)
    ensures r.Found? ==> |r.rest| < |s|
  {
    if Peek(s) == NUL then Missing
    else if s[0] == STAR && At(s, 1) == SLASH then Found(s[2..])
    else AfterBlock(s[1..])
  }

  /** The bytes of a string literal behind its opening quote, closing quote included. */
  function AfterString(s: seq<byte>): (r: Position)
    ensures r.Found? ==> |r.rest| < |s|
  {
    if Peek(s) == NUL then Missing
    else if s[0] == QUOTE then Found(s[1..])
    else if s[0] != BACKSLASH then AfterString(s[1..])
    else if At(s, 1) == NUL then Missing
    else AfterString(s[2..])
  }

  function Minify(s: seq<byte>): (r: Minified)
    ensures r.Done? ==> |r.text| <= |s|
    decreases |s|
  {
    if Peek(s) == NUL then Done([])
    else if IsWhite(s[0]) then Minify(s[1..])
    else if s[0] == SLASH && At(s, 1) == SLASH then Minify(AfterLine(s))
    else if s[0] == SLASH && At(s, 1) == STAR then
      match AfterBlock(s)
      case Missing => Overrun
      case Found(t) => Minify(t)
    else if s[0] == QUOTE then
      match AfterString(s[1..])
      case Missing => Overrun
      case Found(t) => Minify(t).Behind(s[..|s| - |t|])
    else Minify(s[1..]).Behind([s[0]])
  }

  // The in-place loop --------------------------------------------------------

  /** From `i` on the buffer still holds the rest of the text and its terminator. */
  ghost predicate Unread(json: array<byte>, text: seq<byte>, i: nat)
    reads json
  {
    && i <= |text| < json.Length
    && (forall k :: i <= k < |text| ==> json[k] == text[k] != NUL)
    && json[|text|] == NUL
  }

  lemma Step(text: seq<byte>, i: nat)
    requires i < |text|
    ensures text[i..][0] == text[i] && text[i..][1..] == text[i + 1..]
    ensures At(text[i..], 1) == At(text, i + 1)
    ensures i + 2 <= |text| ==> text[i..][2..] == text[i + 2..]
  {}

  /**
   Between two rounds: the beginning of the buffer holds what is written so
   far, and from the read position on, which is never behind the write
   position, it is still the text.
   */
  ghost predicate Midway(json: array<byte>, text: seq<byte>, into: nat, i: nat, out: seq<byte>)
    reads json
  {
    && into <= i && Unread(json, text, i) && json[..into] == out
    && Minify(text[i..]).Done? && Minify(text) == Minify(text[i..]).Behind(out)
  }

  /** A round that only moves the read position, to where `rest` begins. */
  lemma Skipped(json: array<byte>, text: seq<byte>, into: nat, i: nat, i': nat, out: seq<byte>)
    requires Midway(json, text, into, i, out) && i <= i' <= |text| && Minify(text[i..]) == Minify(text[i'..])
    ensures Midway(json, text, into, i', out)
  {
    hide Minify;
  }

  /** The branch that copies a byte. */
  method CopyOther(json: array<byte>, ghost text: seq<byte>, into: nat, i: nat, ghost out: seq<byte>)
    requires Midway(json, text, into, i, out) && i < |text|
    requires Minify(text[i..]) == Minify(text[i + 1..]).Behind([text[i]])
    modifies json
    ensures Midway(json, text, into + 1, i + 1, out + [text[i]]) && json[i + 1..] == old(json[i + 1..])
  {
    hide Minify;
    json[into] := json[i];
    BehindBehind(Minify(text[i + 1..]), [text[i]], out);
    assert json[..into + 1] == out + [text[i]];
  }

  /** The branch that copies a string literal. */
  method CopyLiteral(json: array<byte>, ghost text: seq<byte>, into0: nat, i0: nat, ghost out: seq<byte>)
    returns (into: nat, i: nat)
    requires Midway(json, text, into0, i0, out) && i0 < |text| && NulFree(text)
    requires text[i0] == QUOTE && AfterString(text[i0 + 1..]).Found?
    modifies json
    ensures i0 < i <= |text| && into == into0 + (i - i0) && json[i..] == old(json[i..])
    ensures Midway(json, text, into, i, out + text[i0..i])
  {
    hide Minify, AfterString, Copying;
    ghost var before := json[..];
    into, i := CopyString(json, text, into0, i0);
    CopiedString(text, i0, i, out);
    CopyDone(json, before, text, into0, i0, i - i0);
  }

  /** One round of the loop. What it writes lies before the bytes that are still to be read. */
  method MinifyRound(json: array<byte>, ghost text: seq<byte>, into0: nat, i0: nat, ghost out0: seq<byte>)
    returns (into: nat, i: nat, ghost out: seq<byte>)
    requires Midway(json, text, into0, i0, out0) && i0 < |text| && NulFree(text)
    modifies json
    ensures into0 <= into <= i && i0 < i <= |text| && json[i..] == old(json[i..])
    ensures Midway(json, text, into, i, out)
  {
    hide Minify, AfterString, AfterBlock, AfterLine, Midway;
    into, i, out := into0, i0, out0;
    HeldIn(json, text, into, i, out);
    MinifySteps(text, i);
    if json[i] == SPACE || json[i] == TAB || json[i] == RETURN || json[i] == NEWLINE {
      i := i + 1;
      Skipped(json, text, into, i0, i, out);
    } else if json[i] == SLASH && json[i + 1] == SLASH {
      i := SkipLine(json, text, i);
      Skipped(json, text, into, i0, i, out);
    } else if json[i] == SLASH && json[i + 1] == STAR {
      i := SkipBlock(json, text, i);
      Skipped(json, text, into, i0, i, out);
    } else if json[i] == QUOTE {
      into, i := CopyLiteral(json, text, into, i, out);
      out := out + text[i0..i];
    } else {
      CopyOther(json, text, into, i, out);
      out := out + [text[i]];
      into, i := into + 1, i + 1;
    }
  }

  lemma HeldIn(json: array<byte>, text: seq<byte>, into: nat, i: nat, out: seq<byte>)
    requires Midway(json, text, into, i, out)
    ensures Unread(json, text, i) && into <= i && Minify(text[i..]).Done?
    ensures i < |text| ==> json[i + 1] == At(text, i + 1)
  {}

  method MinifyInPlace(json: array<byte>, ghost text: seq<byte>)
    requires Unread(json, text, 0) && NulFree(text)
    requires Minify(text).Done?
    modifies json
    ensures var out := Minify(text).text;
            json[..|out|] == out && json[|out|] == NUL
    ensures json[|text| + 1..] == old(json[|text| + 1..])
  {
    hide Minify;
    var into, i := 0, 0;
    ghost var out: seq<byte> := [];
    assert text[0..] == text;
    Start(text, out);
    while json[i] != NUL
      invariant into <= i <= |text| < json.Length && Midway(json, text, into, i, out)
      invariant json[|text| + 1..] == old(json[|text| + 1..])
      decreases |text| - i
    {
      ghost var before := json[..];
      into, i, out := MinifyRound(json, text, into, i, out);
      Behind(json, before, i, |text| + 1);
    }
    Finished(text, i, out);
    json[into] := NUL;
  }

  lemma Behind(json: array<byte>, before: seq<byte>, i: nat, j: nat)
    requires i <= j <= json.Length == |before| && json[i..] == before[i..]
    ensures json[j..] == before[j..]
  {
    assert json[j..] == json[i..][j - i..];
  }

  lemma Start(text: seq<byte>, empty: seq<byte>)
    requires empty == [] && Minify(text).Done?
    ensures Minify(text) == Minify(text).Behind(empty)
  {
    assert [] + Minify(text).text == Minify(text).text;
  }

  lemma MinifySteps(text: seq<byte>, i: nat)
    requires i < |text| && text[i] != NUL
    ensures IsWhite(text[i]) ==> Minify(text[i..]) == Minify(text[i + 1..])
    ensures text[i] == SLASH && At(text, i + 1) == SLASH ==> Minify(text[i..]) == Minify(AfterLine(text[i..]))
    ensures text[i] == SLASH && At(text, i + 1) == STAR && Minify(text[i..]).Done? ==>
      AfterBlock(text[i..]).Found? && Minify(text[i..]) == Minify(AfterBlock(text[i..]).rest)
    ensures text[i] == QUOTE && Minify(text[i..]).Done? ==> AfterString(text[i + 1..]).Found?
    ensures !IsWhite(text[i]) && text[i] != QUOTE
            && !(text[i] == SLASH && (At(text, i + 1) == SLASH || At(text, i + 1) == STAR)) ==>
      Minify(text[i..]) == Minify(text[i + 1..]).Behind([text[i]])
  {
    Step(text, i);
  }

  lemma Finished(text: seq<byte>, i: nat, out: seq<byte>)
    requires i <= |text| && At(text, i) == NUL && Minify(text) == Minify(text[i..]).Behind(out)
    ensures Minify(text) == Done(out)
  {
    assert out + [] == out;
  }

  lemma BehindBehind(m: Minified, a: seq<byte>, b: seq<byte>)
    ensures m.Behind(a).Behind(b) == m.Behind(b + a)
  {
    if m.Done? { assert b + (a + m.text) == (b + a) + m.text; }
  }

  lemma CopiedString(text: seq<byte>, i0: nat, i: nat, out: seq<byte>)
    requires i0 < i <= |text| && text[i0] == QUOTE
    requires AfterString(text[i0 + 1..]) == Found(text[i..])
    ensures Minify(text[i0..]).Behind(out) == Minify(text[i..]).Behind(out + text[i0..i])
    ensures Minify(text[i0..]).Done? ==> Minify(text[i..]).Done?
  {
    Step(text, i0);
    var s := text[i0..];
    assert s[..|s| - |text[i..]|] == text[i0..i];
    BehindBehind(Minify(text[i..]), text[i0..i], out);
  }

  method SkipLine(json: array<byte>, ghost text: seq<byte>, i0: nat) returns (i: nat)
    requires Unread(json, text, i0) && i0 < |text| && json[i0] == SLASH
    ensures i0 < i <= |text| && AfterLine(text[i0..]) == text[i..]
  {
    i := i0;
    while json[i] != NUL && json[i] != NEWLINE
      invariant i0 <= i <= |text| && AfterLine(text[i0..]) == AfterLine(text[i..])
      decreases |text| - i
    {
      Step(text, i);
      i := i + 1;
    }
    if i < |text| { Step(text, i); }
  }

  method SkipBlock(json: array<byte>, ghost text: seq<byte>, i0: nat) returns (i: nat)
    requires Unread(json, text, i0) && AfterBlock(text[i0..]).Found?
    ensures i0 < i <= |text| && AfterBlock(text[i0..]) == Found(text[i..])
  {
    i := i0;
    while json[i] != NUL && !(json[i] == STAR && json[i + 1] == SLASH)
      invariant i0 <= i <= |text| && AfterBlock(text[i0..]) == AfterBlock(text[i..])
      decreases |text| - i
    {
      Step(text, i);
      i := i + 1;
    }
    assert i < |text|;
    Step(text, i);
    i := i + 2;
  }

  lemma CopyDone(json: array<byte>, before: seq<byte>, text: seq<byte>, into0: nat, i0: nat, n: nat)
    requires Copying(json, before, text, into0, i0, n)
    ensures json[..into0 + n] == before[..into0] + text[i0..i0 + n]
    ensures Unread(json, text, i0 + n)
    ensures forall k :: i0 + n <= k < json.Length ==> json[k] == before[k]
  {
    assert json[..into0 + n] == json[..into0] + json[into0..into0 + n];
    forall k | i0 + n <= k < json.Length ensures json[k] == before[k] {
      assert json[k] == json[i0 + n..][k - i0 - n] == before[i0 + n..][k - i0 - n];
    }
    forall k | i0 + n <= k < |text| ensures json[k] == text[k] {
      assert before[i0..|text|][k - i0] == text[i0..][k - i0];
    }
  }

  /**
   While a literal is copied: `before` is the buffer in front of it, the first
   `n` bytes of the literal are in place, and the rest is still unread.
   */
  ghost predicate Copying(json: array<byte>, before: seq<byte>, text: seq<byte>, into0: nat, i0: nat, n: nat)
    reads json
  {
    && into0 <= i0 && i0 + n <= |text| < json.Length == |before|
    && json[..into0] == before[..into0]
    && json[into0..into0 + n] == text[i0..i0 + n]
    && json[i0 + n..] == before[i0 + n..]
    && before[i0..|text|] == text[i0..] && before[|text|] == NUL && NulFree(text)
  }

  method CopyByte(json: array<byte>, ghost before: seq<byte>, ghost text: seq<byte>, into0: nat, i0: nat, n: nat)
    requires Copying(json, before, text, into0, i0, n) && i0 + n < |text|
    modifies json
    ensures Copying(json, before, text, into0, i0, n + 1)
  {
    assert json[i0 + n] == json[i0 + n..][0] == before[i0 + n] == text[i0 + n] by {
      assert before[i0..|text|][n] == text[i0..][n];
    }
    ghost var done := json[into0..into0 + n];
    json[into0 + n] := json[i0 + n];
    assert json[into0..into0 + n + 1] == done + [text[i0 + n]];
    assert text[i0..i0 + n + 1] == text[i0..i0 + n] + [text[i0 + n]];
    assert json[i0 + n + 1..] == before[i0 + n..][1..];
  }

  lemma Reads(json: array<byte>, before: seq<byte>, text: seq<byte>, into0: nat, i0: nat, n: nat)
    requires Copying(json, before, text, into0, i0, n)
    ensures json[i0 + n] == At(text, i0 + n)
    ensures i0 + n < |text| ==> json[i0 + n + 1] == At(text, i0 + n + 1)
  {
    assert json[i0 + n] == json[i0 + n..][0] == before[i0 + n];
    if i0 + n < |text| {
      assert before[i0..|text|][n] == text[i0..][n];
      assert json[i0 + n + 1] == json[i0 + n..][1] == before[i0 + n + 1];
      if i0 + n + 1 < |text| { assert before[i0..|text|][n + 1] == text[i0..][n + 1]; }
    }
  }

  lemma AfterStringStep(text: seq<byte>, i: nat)
    requires i < |text| && text[i] != QUOTE && text[i] != NUL && AfterString(text[i..]).Found?
    ensures text[i] != BACKSLASH ==> AfterString(text[i..]) == AfterString(text[i + 1..])
    ensures text[i] == BACKSLASH ==> i + 1 < |text| && AfterString(text[i..]) == AfterString(text[i + 2..])
  {
    Step(text, i);
  }

  lemma AtClosingQuote(text: seq<byte>, i: nat)
    requires i <= |text| && (At(text, i) == NUL || At(text, i) == QUOTE) && AfterString(text[i..]).Found?
    ensures i < |text| && AfterString(text[i..]) == Found(text[i + 1..])
  {
    if i < |text| { Step(text, i); }
  }

  /** One round of the copying loop: a byte, or a backslash and the byte behind it. */
  method CopyChar(json: array<byte>, ghost before: seq<byte>, ghost text: seq<byte>, into0: nat, i0: nat, n: nat)
    returns (n': nat)
    requires Copying(json, before, text, into0, i0, n) && AfterString(text[i0 + n..]).Found?
    requires json[i0 + n] != NUL && json[i0 + n] != QUOTE
    modifies json
    ensures n < n' && i0 + n' <= |text| && Copying(json, before, text, into0, i0, n')
    ensures AfterString(text[i0 + n'..]) == AfterString(text[i0 + n..])
  {
    hide AfterString;
    Reads(json, before, text, into0, i0, n);
    AfterStringStep(text, i0 + n);
    if json[i0 + n] == BACKSLASH {
      n' := n + 2;
      CopyByte(json, before, text, into0, i0, n);
      CopyByte(json, before, text, into0, i0, n + 1);
    } else {
      n' := n + 1;
      CopyByte(json, before, text, into0, i0, n);
    }
  }

  lemma CopyStarts(json: array<byte>, text: seq<byte>, into0: nat, i0: nat)
    requires Unread(json, text, i0) && into0 <= i0 && NulFree(text)
    ensures Copying(json, json[..], text, into0, i0, 0) && |text| < json.Length
  {
    assert json[..][i0..|text|] == text[i0..];
  }

  /** The branch that copies one string literal. */
  method CopyString(json: array<byte>, ghost text: seq<byte>, into0: nat, i0: nat) returns (into: nat, i: nat)
    requires Unread(json, text, i0) && into0 <= i0 < |text| && NulFree(text)
    requires AfterString(text[i0 + 1..]).Found?
    modifies json
    ensures i0 < i <= |text| && into == into0 + (i - i0)
    ensures AfterString(text[i0 + 1..]) == Found(text[i..])
    ensures Copying(json, old(json[..]), text, into0, i0, i - i0)
  {
    hide AfterString, Copying, Unread;
    ghost var before := json[..];
    CopyStarts(json, text, into0, i0);
    CopyByte(json, before, text, into0, i0, 0);
    var n := 1;
    while json[i0 + n] != NUL && json[i0 + n] != QUOTE
      invariant n >= 1 && i0 + n <= |text| < json.Length && Copying(json, before, text, into0, i0, n)
      invariant AfterString(text[i0 + 1..]) == AfterString(text[i0 + n..])
      decreases |text| - n
    {
      n := CopyChar(json, before, text, into0, i0, n);
    }
    i := i0 + n;
    Reads(json, before, text, into0, i0, n);
    AtClosingQuote(text, i);
    CopyByte(json, before, text, into0, i0, n);
    into, i := into0 + n + 1, i + 1;
  }

  // Meaning ------------------------------------------------------------------

  /** The same tree without white space and comments. */
  function Strip(t: Tree): Tree
    decreases t, 0
  {
    match t
    case EmptyArray(_) => EmptyArray([])
    case EmptyObject(_) => EmptyObject([])
    case ArrayTree(items) => ArrayTree(StripItems(items))
    case ObjectTree(fields) => ObjectTree(StripFields(fields))
    case _ => t
  }

  function StripItems(items: seq<Item>): (r: seq<Item>)
    ensures |r| == |items|
    decreases items, 1
  {
    if items == [] then [] else [Item([], Strip(items[0].value), [])] + StripItems(items[1..])
  }

  function StripFields(fields: seq<Field>): (r: seq<Field>)
    ensures |r| == |fields|
    decreases fields, 1
  {
    if fields == [] then []
    else [Field([], fields[0].name, [], [], Strip(fields[0].value), [])] + StripFields(fields[1..])
  }

  /** Stripping keeps the value. */
  lemma {:induction false} StripKeepsValue(t: Tree)
    requires Valid(t, true)
    ensures Valid(Strip(t), false) && Value(Strip(t)) == Value(t)
    decreases t, 0
  {
    match t
    case ArrayTree(items) => StripItemsKeepsValue(items);
    case ObjectTree(fields) => StripFieldsKeepsValue(fields);
    case _ =>
  }

  lemma {:induction false} StripItemsKeepsValue(items: seq<Item>)
    requires ValidItems(items, true)
    ensures ValidItems(StripItems(items), false) && ItemsValue(StripItems(items)) == ItemsValue(items)
    decreases items, 1
  {
    if items != [] {
      assert ValidItem(items[0], true);
      StripKeepsValue(items[0].value);
      StripItemsKeepsValue(items[1..]);
      var x := Item([], Strip(items[0].value), []);
      assert ValidItem(x, false);
      assert StripItems(items)[1..] == StripItems(items[1..]);
    }
  }

  lemma {:induction false} StripFieldsKeepsValue(fields: seq<Field>)
    requires ValidFields(fields, true)
    ensures ValidFields(StripFields(fields), false)
    ensures FieldsValue(StripFields(fields)) == FieldsValue(fields)
    decreases fields, 1
  {
    if fields != [] {
      assert ValidField(fields[0], true);
      StripKeepsValue(fields[0].value);
      StripFieldsKeepsValue(fields[1..]);
      var x := Field([], fields[0].name, [], [], Strip(fields[0].value), []);
      assert ValidField(x, false);
      assert StripFields(fields)[1..] == StripFields(fields[1..]);
    }
  }

  lemma {:induction false} StripTwice(t: Tree)
    ensures Strip(Strip(t)) == Strip(t)
    decreases t, 0
  {
    match t
    case ArrayTree(items) => StripItemsTwice(items);
    case ObjectTree(fields) => StripFieldsTwice(fields);
    case _ =>
  }

  lemma {:induction false} StripItemsTwice(items: seq<Item>)
    ensures StripItems(StripItems(items)) == StripItems(items)
    decreases items, 1
  {
    if items != [] {
      StripTwice(items[0].value);
      StripItemsTwice(items[1..]);
      assert StripItems(items)[1..] == StripItems(items[1..]);
    }
  }

  lemma {:induction false} StripFieldsTwice(fields: seq<Field>)
    ensures StripFields(StripFields(fields)) == StripFields(fields)
    decreases fields, 1
  {
    if fields != [] {
      StripTwice(fields[0].value);
      StripFieldsTwice(fields[1..]);
      assert StripFields(fields)[1..] == StripFields(fields[1..]);
    }
  }

  /** A text of the RFC is one that happens to have no comments. */
  lemma {:induction false} PlainIsValid(t: Tree)
    requires Valid(t, false)
    ensures Valid(t, true)
    decreases t, 0
  {
    match t
    case ArrayTree(items) => PlainItemsAreValid(items);
    case ObjectTree(fields) => PlainFieldsAreValid(fields);
    case _ =>
  }

  lemma {:induction false} PlainItemsAreValid(items: seq<Item>)
    requires ValidItems(items, false)
    ensures ValidItems(items, true)
    decreases items, 1
  {
    if items != [] {
      assert ValidItem(items[0], false);
      PlainIsValid(items[0].value);
      PlainItemsAreValid(items[1..]);
      assert ValidItem(items[0], true);
    }
  }

  lemma {:induction false} PlainFieldsAreValid(fields: seq<Field>)
    requires ValidFields(fields, false)
    ensures ValidFields(fields, true)
    decreases fields, 1
  {
    if fields != [] {
      assert ValidField(fields[0], false);
      PlainIsValid(fields[0].value);
      PlainFieldsAreValid(fields[1..]);
      assert ValidField(fields[0], true);
    }
  }

  // Minifying each production --------------------------------------------------

  /** Bytes the loop copies one by one. */
  predicate Copied(s: seq<byte>) {
    forall i :: 0 <= i < |s| ==> s[i] != NUL && !IsWhite(s[i]) && s[i] != SLASH && s[i] != QUOTE
  }

  lemma {:induction false} MinifyCopied(tok: seq<byte>, s: seq<byte>)
    requires Copied(tok)
    ensures Minify(tok + s) == Minify(s).Behind(tok)
  {
    if tok == [] {
      assert [] + s == s;
      if Minify(s).Done? { assert [] + Minify(s).text == Minify(s).text; }
    } else {
      assert (tok + s)[1..] == tok[1..] + s;
      MinifyCopied(tok[1..], s);
      BehindBehind(Minify(s), tok[1..], [tok[0]]);
      assert [tok[0]] + tok[1..] == tok;
    }
  }

  lemma {:induction false} LineSkipped(body: seq<byte>, rest: seq<byte>)
    requires NulFree(body) && NEWLINE !in body
    ensures AfterLine(body + ([NEWLINE] + rest)) == [NEWLINE] + rest
  {
    if body == [] {
      assert body + ([NEWLINE] + rest) == [NEWLINE] + rest;
    } else {
      assert (body + ([NEWLINE] + rest))[1..] == body[1..] + ([NEWLINE] + rest);
      LineSkipped(body[1..], rest);
    }
  }

  lemma {:induction false} BlockSkipped(body: seq<byte>, rest: seq<byte>)
    requires NulFree(body) && !Closes(body)
    ensures AfterBlock(body + ([STAR, SLASH] + rest)) == Found(rest)
  {
    var s := body + ([STAR, SLASH] + rest);
    if body == [] {
      assert s == [STAR, SLASH] + rest;
      assert s[2..] == rest;
    } else {
      assert s[1..] == body[1..] + ([STAR, SLASH] + rest);
      assert At(s, 1) == (if |body| > 1 then body[1] else STAR);
      assert |body| > 1 ==> !(body[0] == STAR && body[1] == SLASH);
      forall i | 0 <= i && i + 1 < |body[1..]|
        ensures !(body[1..][i] == STAR && body[1..][i + 1] == SLASH)
      {
        assert body[1..][i] == body[i + 1] && body[1..][i + 1] == body[i + 2];
      }
      BlockSkipped(body[1..], rest);
    }
  }

  lemma OneSpaceRemoved(x: Space, rest: seq<byte>)
    requires ValidSpace(x)
    ensures Minify(SpaceOnto(x, rest)) == Minify(rest)
  {
    var s := SpaceOnto(x, rest);
    match x
    case White(c) => Uncons(c, rest);
    case LineComment(b) =>
      LineSkipped([SLASH, SLASH] + b, rest);
      assert s == ([SLASH, SLASH] + b) + ([NEWLINE] + rest);
      Uncons(NEWLINE, rest);
    case BlockComment(b) =>
      var tail := [STAR, SLASH] + rest;
      assert s[1..] == ([STAR] + b) + tail;
      BlockSkipped([STAR] + b, rest);
      assert AfterBlock(s) == AfterBlock(s[1..]);
  }

  lemma {:induction false} SpacesRemoved(ws: seq<Space>, rest: seq<byte>)
    requires ValidSpaces(ws)
    ensures Minify(SpacesOnto(ws, rest)) == Minify(rest)
  {
    if ws != [] {
      OneSpaceRemoved(ws[0], SpacesOnto(ws[1..], rest));
      SpacesRemoved(ws[1..], rest);
    }
  }

  lemma GapRemoved(ws: seq<Space>, rest: seq<byte>)
    requires Gap(ws, true)
    ensures Minify(SpacesOnto(ws, rest)) == Minify(rest)
  {
    SpacesRemoved(ws, rest);
  }

  lemma {:induction false} CharsSplit(chars: seq<Char>, rest: seq<byte>)
    ensures CharsOnto(chars, rest) == CharsOnto(chars, []) + rest
  {
    if chars != [] {
      CharsSplit(chars[1..], rest);
      CharSplit(chars[0], CharsOnto(chars[1..], []), rest);
    }
  }

  lemma CharSplit(x: Char, a: seq<byte>, b: seq<byte>)
    ensures CharOnto(x, a + b) == CharOnto(x, a) + b
  {
    match x
    case Raw(c) => Regroup2([c], a, b);
    case Short(c) => Regroup2([BACKSLASH, c], a, b);
    case Unit(h) =>
      Regroup2(h, a, b);
      Regroup2([BACKSLASH, U], h + a, b);
  }

  lemma Regroup2(a: seq<byte>, b: seq<byte>, c: seq<byte>)
    ensures a + (b + c) == (a + b) + c
  {}

  lemma {:induction false} StringScanned(chars: seq<Char>, rest: seq<byte>)
    requires ValidChars(chars)
    ensures AfterString(CharsOnto(chars, [QUOTE] + rest)) == Found(rest)
  {
    if chars == [] {
      Uncons(QUOTE, rest);
    } else {
      var tail := CharsOnto(chars[1..], [QUOTE] + rest);
      StringScanned(chars[1..], rest);
      CharScanned(chars[0], tail);
    }
  }

  lemma CharScanned(x: Char, tail: seq<byte>)
    requires ValidChar(x)
    ensures AfterString(CharOnto(x, tail)) == AfterString(tail)
  {
    match x
    case Raw(c) => Uncons(c, tail);
    case Short(c) => assert ([BACKSLASH, c] + tail)[2..] == tail;
    case Unit(h) =>
      assert ([BACKSLASH, U] + (h + tail))[2..] == h + tail;
      HexScanned(h, tail);
  }

  lemma {:induction false} HexScanned(h: seq<byte>, tail: seq<byte>)
    requires forall i :: 0 <= i < |h| ==> IsHex(h[i])
    ensures AfterString(h + tail) == AfterString(tail)
  {
    if h == [] {
      assert h + tail == tail;
    } else {
      assert (h + tail)[1..] == h[1..] + tail;
      HexScanned(h[1..], tail);
    }
  }

  lemma Regroup3(a: seq<byte>, b: seq<byte>, c: seq<byte>, rest: seq<byte>)
    ensures a + (b + (c + rest)) == (a + (b + c)) + rest
  {}

  /** A string literal is kept byte for byte. */
  lemma StringKept(chars: seq<Char>, rest: seq<byte>)
    requires ValidChars(chars)
    ensures Minify(StringOnto(chars, rest)) == Minify(rest).Behind(StringOnto(chars, []))
    ensures StringOnto(chars, rest) == StringOnto(chars, []) + rest
  {
    var s := StringOnto(chars, rest);
    StringScanned(chars, rest);
    Uncons(QUOTE, CharsOnto(chars, [QUOTE] + rest));
    CharsSplit(chars, [QUOTE] + rest);
    CharsSplit(chars, [QUOTE] + []);
    Regroup3([QUOTE], CharsOnto(chars, []), [QUOTE], rest);
    assert [QUOTE] + [] == [QUOTE];
    assert s[..|s| - |rest|] == StringOnto(chars, []);
  }

  lemma TokenKept(tok: seq<byte>, rest: seq<byte>, r: seq<byte>)
    requires Copied(tok) && Minify(rest) == Done(r)
    ensures Minify(tok + rest) == Done(tok + r)
  {
    MinifyCopied(tok, rest);
  }

  lemma NumeralKept(n: Numeral, rest: seq<byte>, r: seq<byte>)
    requires ValidNumeral(n) && Minify(rest) == Done(r)
    ensures Minify(NumeralOnto(n, rest)) == Done(NumeralOnto(n, r))
  {
    hide Minify;
    var e, e' := ExponentOnto(n.exponent, rest), ExponentOnto(n.exponent, r);
    if n.exponent.Exponent? {
      var x := n.exponent;
      TokenKept(x.digits, rest, r);
      TokenKept(SignText(x.sign), x.digits + rest, x.digits + r);
      TokenKept([x.mark], SignText(x.sign) + (x.digits + rest), SignText(x.sign) + (x.digits + r));
    }
    var f, f' := FractionOnto(n.fraction, e), FractionOnto(n.fraction, e');
    if n.fraction.Fraction? {
      TokenKept(n.fraction.digits, e, e');
      TokenKept([DOT], n.fraction.digits + e, n.fraction.digits + e');
    }
    TokenKept(n.whole, f, f');
    TokenKept(if n.negative then [MINUS] else [], n.whole + f, n.whole + f');
  }

  lemma StringKeptOnto(chars: seq<Char>, rest: seq<byte>, r: seq<byte>)
    requires ValidChars(chars) && Minify(rest) == Done(r)
    ensures Minify(StringOnto(chars, rest)) == Done(StringOnto(chars, r))
  {
    hide Minify;
    StringKept(chars, rest);
    StringKept(chars, r);
  }

  /** White space behind a production disappears, the production itself is stripped. */
  lemma {:induction false} TreeMinified(t: Tree, rest: seq<byte>, r: seq<byte>)
    requires Valid(t, true) && Minify(rest) == Done(r)
    ensures Minify(TreeOnto(t, rest)) == Done(TreeOnto(Strip(t), r))
    decreases t, 0
  {
    hide Minify;
    match t
    case NullTree => TokenKept(NULL_TEXT, rest, r);
    case FalseTree => TokenKept(FALSE_TEXT, rest, r);
    case TrueTree => TokenKept(TRUE_TEXT, rest, r);
    case NumberTree(n) => NumeralKept(n, rest, r);
    case StringTree(chars) => StringKeptOnto(chars, rest, r);
    case EmptyArray(pad) =>
      TokenKept([RBRACKET], rest, r);
      GapRemoved(pad, [RBRACKET] + rest);
      TokenKept([LBRACKET], SpacesOnto(pad, [RBRACKET] + rest), [RBRACKET] + r);
    case EmptyObject(pad) =>
      TokenKept([RBRACE], rest, r);
      GapRemoved(pad, [RBRACE] + rest);
      TokenKept([LBRACE], SpacesOnto(pad, [RBRACE] + rest), [RBRACE] + r);
    case ArrayTree(items) =>
      ItemsMinified(items, rest, r);
      TokenKept([LBRACKET], ItemsOnto(items, rest), ItemsOnto(StripItems(items), r));
    case ObjectTree(fields) =>
      FieldsMinified(fields, rest, r);
      TokenKept([LBRACE], FieldsOnto(fields, rest), FieldsOnto(StripFields(fields), r));
  }

  lemma ItemMinified(x: Item, rest: seq<byte>, r: seq<byte>)
    requires ValidItem(x, true) && Minify(rest) == Done(r)
    ensures Minify(ItemOnto(x, rest)) == Done(ItemOnto(Item([], Strip(x.value), []), r))
    decreases x, 1
  {
    hide Minify;
    GapRemoved(x.after, rest);
    TreeMinified(x.value, SpacesOnto(x.after, rest), r);
    GapRemoved(x.before, TreeOnto(x.value, SpacesOnto(x.after, rest)));
  }

  lemma {:induction false} ItemsMinified(items: seq<Item>, rest: seq<byte>, r: seq<byte>)
    requires ValidItems(items, true) && Minify(rest) == Done(r)
    ensures Minify(ItemsOnto(items, rest)) == Done(ItemsOnto(StripItems(items), r))
    decreases items, 2
  {
    hide Minify;
    if items == [] {
      TokenKept([RBRACKET], rest, r);
    } else if |items| == 1 {
      assert ValidItem(items[0], true);
      TokenKept([RBRACKET], rest, r);
      ItemMinified(items[0], [RBRACKET] + rest, [RBRACKET] + r);
    } else {
      assert ValidItem(items[0], true);
      ItemsMinified(items[1..], rest, r);
      var more, more' := ItemsOnto(items[1..], rest), ItemsOnto(StripItems(items[1..]), r);
      TokenKept([COMMA], more, more');
      ItemMinified(items[0], [COMMA] + more, [COMMA] + more');
      assert StripItems(items)[1..] == StripItems(items[1..]);
    }
  }

  lemma FieldMinified(x: Field, rest: seq<byte>, r: seq<byte>)
    requires ValidField(x, true) && Minify(rest) == Done(r)
    ensures Minify(FieldOnto(x, rest)) == Done(FieldOnto(Field([], x.name, [], [], Strip(x.value), []), r))
    decreases x, 1
  {
    hide Minify;
    var e, e' := TreeOnto(x.value, SpacesOnto(x.after, rest)), TreeOnto(Strip(x.value), r);
    GapRemoved(x.after, rest);
    TreeMinified(x.value, SpacesOnto(x.after, rest), r);
    GapRemoved(x.afterColon, e);
    var c := [COLON] + SpacesOnto(x.afterColon, e);
    TokenKept([COLON], SpacesOnto(x.afterColon, e), e');
    GapRemoved(x.beforeColon, c);
    StringKeptOnto(x.name, SpacesOnto(x.beforeColon, c), [COLON] + e');
    GapRemoved(x.before, StringOnto(x.name, SpacesOnto(x.beforeColon, c)));
  }

  lemma {:induction false} FieldsMinified(fields: seq<Field>, rest: seq<byte>, r: seq<byte>)
    requires ValidFields(fields, true) && Minify(rest) == Done(r)
    ensures Minify(FieldsOnto(fields, rest)) == Done(FieldsOnto(StripFields(fields), r))
    decreases fields, 2
  {
    hide Minify;
    if fields == [] {
      TokenKept([RBRACE], rest, r);
    } else if |fields| == 1 {
      assert ValidField(fields[0], true);
      TokenKept([RBRACE], rest, r);
      FieldMinified(fields[0], [RBRACE] + rest, [RBRACE] + r);
    } else {
      assert ValidField(fields[0], true);
      FieldsMinified(fields[1..], rest, r);
      var more, more' := FieldsOnto(fields[1..], rest), FieldsOnto(StripFields(fields[1..]), r);
      TokenKept([COMMA], more, more');
      FieldMinified(fields[0], [COMMA] + more, [COMMA] + more');
      assert StripFields(fields)[1..] == StripFields(fields[1..]);
    }
  }

  // Main results -------------------------------------------------------------

  function StripDocument(d: Document): Document {
    Document([], Strip(d.value), [])
  }

  /** The minified text is the text of the same tree with every gap empty. */
  lemma MinifiedIsStripped(d: Document)
    requires ValidDocument(d, true)
    ensures Minify(DocumentText(d)) == Done(DocumentText(StripDocument(d)))
    ensures ValidDocument(StripDocument(d), false)
  {
    GapRemoved(d.after, []);
    TreeMinified(d.value, SpacesOnto(d.after, []), []);
    GapRemoved(d.before, TreeOnto(d.value, SpacesOnto(d.after, [])));
    StripKeepsValue(d.value);
  }

  /**
   On a JSON text, with comments or without: the minified text is accepted to
   its end with the value the grammar gives to the original, and minifying
   again changes nothing.
   */
  lemma MinifyKeepsMeaning(d: Document)
    requires ValidDocument(d, true)
    ensures Minify(DocumentText(d)).Done?
    ensures var out := Minify(DocumentText(d)).text;
            && ParseWithOpts(out, true) == Ok(Value(d.value), [])
            && Minify(out) == Done(out)
            && |out| <= |DocumentText(d)|
  {
    MinifiedIsStripped(d);
    StripKeepsValue(d.value);
    AcceptsEveryJsonText(StripDocument(d));
    PlainIsValid(Strip(d.value));
    MinifiedIsStripped(StripDocument(d));
    StripTwice(d.value);
  }

  /** And on a JSON text of the RFC, the value is also the one parsed before. */
  lemma MinifyThenParse(d: Document)
    requires ValidDocument(d, false)
    ensures Minify(DocumentText(d)).Done?
    ensures ParseWithOpts(Minify(DocumentText(d)).text, true) == ParseWithOpts(DocumentText(d), true)
  {
    PlainIsValid(d.value);
    AcceptsEveryJsonText(d);
    MinifyKeepsMeaning(d);
  }
}
