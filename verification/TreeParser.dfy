/**
 The recursive-descent parser as it runs: it moves a pointer over the text and
 builds the linked tree. Each method is proved against the function of module
 Parser that says what its production reads.
 */
module TreeParser {
  import opened CText
  import opened JsonValue
  import opened CJsonNode
  import opened Links
  import opened Sequences
  import opened NodeTree
  import opened Shapes
  import opened ChildList
  import opened StringParser
  import Parser

  // Numbers --------------------------------------------------------------------

  method ScanDigits(n0: int, text: seq<byte>, pos: nat) returns (n: int, end: nat)
    requires pos <= |text|
    ensures pos <= end <= |text| && (n, text[end..]) == Parser.ScanDigits(n0, text[pos..])
  {
    n, end := n0, pos;
    while IsDigit(CText.At(text, end))
      invariant pos <= end <= |text| && Parser.ScanDigits(n, text[end..]) == Parser.ScanDigits(n0, text[pos..])
      decreases |text| - end
    {
      Tail(text, end);
      n := n * 10 + (text[end] - ZERO);
      end := end + 1;
    }
    Tail(text, end);
  }

  method ParseFraction(n0: int, text: seq<byte>, pos: nat) returns (n: int, scale: int, end: nat)
    requires pos <= |text|
    ensures pos <= end <= |text| && (n, scale, text[end..]) == Parser.ParseFraction(n0, text[pos..])
  {
    Tail(text, pos);
    n, scale, end := n0, 0, pos;
    if CText.At(text, end) == DOT && IsDigit(CText.At(text, end + 1)) {
      n, end := ScanDigits(n0, text, end + 1);
      scale := pos + 1 - end;
    }
  }

  method ParseExponent(text: seq<byte>, pos: nat) returns (subscale: int, end: nat)
    requires pos <= |text|
    ensures pos <= end <= |text| && (subscale, text[end..]) == Parser.ParseExponent(text[pos..])
  {
    Tail(text, pos);
    subscale, end := 0, pos;
    if CText.At(text, end) == 101 || CText.At(text, end) == 69 {
      end := end + 1;
      Tail(text, end);
      var signsubscale := 1;
      if CText.At(text, end) == PLUS { end := end + 1; }
      else if CText.At(text, end) == MINUS { signsubscale := -1; end := end + 1; }
      subscale, end := ScanDigits(0, text, end);
      subscale := subscale * signsubscale;
    }
  }

  method ParseNumber(item: Node, text: seq<byte>, pos: nat) returns (end: int)
    requires pos <= |text|
    modifies item`kind, item`valuedouble
    ensures 0 <= end <= |text| && (item.valuedouble, text[end..]) == Parser.ParseNumber(text[pos..])
    ensures item.kind == NumberKind
  {
    hide Parser.ParseNumber, Parser.ParseFraction, Parser.ParseExponent, Parser.ScanDigits, Parser.Scaled;
    Tail(text, pos);
    var sign, num, n, scale, subscale := 1, pos, 0, 0, 0;
    if CText.At(text, num) == MINUS { sign, num := -1, num + 1; }
    Tail(text, num);
    ghost var s1 := text[num..];
    if CText.At(text, num) == ZERO { num := num + 1; }
    Tail(text, num);
    if ZERO < CText.At(text, num) <= NINE { n, num := ScanDigits(0, text, num); }
    ghost var whole, s3 := n, text[num..];
    n, scale, num := ParseFraction(n, text, num);
    ghost var s4 := text[num..];
    subscale, num := ParseExponent(text, num);
    Parser.NumberSteps(text[pos..], sign < 0, s1, whole, s3, n, scale, s4, subscale, text[num..]);
    item.valuedouble := Parser.Scaled(if sign < 0 then -n else n, scale + subscale);
    item.kind := NumberKind;
    end := num;
  }

  // Values ---------------------------------------------------------------------

  /** The children built so far, in a list under `item`. */
  ghost predicate Built(item: Node, ks: seq<NodeShape>, vs: seq<Json>)
    reads item`child, AllNodes(ks)
  {
    Separate(ks) && Heads(item, Tops(ks)) && item !in AllNodes(ks) && StandFor(ks, vs)
  }

  ghost predicate StandFor(ks: seq<NodeShape>, vs: seq<Json>)
    reads AllNodes(ks)
    requires Separate(ks)
  {
    |ks| == |vs| && forall j :: 0 <= j < |ks| ==> TreeOf(ks[j], vs[j])
  }

  ghost predicate NamedSoFar(ks: seq<NodeShape>, ms: seq<Member>)
    reads (set s | s in ks :: s.node)`name
  {
    |ks| == |ms| && forall j :: 0 <= j < |ks| ==> ks[j].node.name == Some(ms[j].name)
  }

  ghost predicate BuiltMembers(item: Node, ks: seq<NodeShape>, ms: seq<Member>)
    reads item`child, AllNodes(ks), (set s | s in ks :: s.node)`name
  {
    Built(item, ks, MemberValues(ms)) && NamedSoFar(ks, ms)
  }

  ghost function MemberValues(ms: seq<Member>): (vs: seq<Json>)
    ensures |vs| == |ms|
  {
    seq(|ms|, j requires 0 <= j < |ms| => ms[j].value)
  }

  lemma NothingBuilt(item: Node)
    requires item.child == null
    ensures var none: seq<NodeShape> := [];
            Built(item, none, []) && AllNodes(none) == {} && NodeAt(Tops(none), |none| - 1) == null
  {
    var none: seq<NodeShape> := [];
    assert AllNodes(none) == {};
  }

  /** A finished list of children makes a tree. */
  lemma ArrayBuilt(item: Node, ks: seq<NodeShape>, vs: seq<Json>)
    requires Built(item, ks, vs) && !item.isReference && item.kind == ArrayKind
    ensures TreeOf(Shape(item, ks, {item} + AllNodes(ks)), Array(vs))
  {
    var s := Shape(item, ks, {item} + AllNodes(ks));
    assert Trees(ks);
    Owned(s);
    assert Siblings(ks);
    assert RepresentItems(ks, vs);
  }

  lemma ObjectBuilt(item: Node, ks: seq<NodeShape>, ms: seq<Member>)
    requires BuiltMembers(item, ks, ms) && !item.isReference && item.kind == ObjectKind
    ensures TreeOf(Shape(item, ks, {item} + AllNodes(ks)), Object(ms))
  {
    var s := Shape(item, ks, {item} + AllNodes(ks));
    assert Trees(ks);
    Owned(s);
    assert Siblings(ks);
    assert RepresentMembers(ks, ms);
  }

  lemma ScalarBuilt(item: Node, v: Json)
    requires item.child == null && !item.isReference
    requires match v
             case Null => item.kind == NullKind
             case False => item.kind == FalseKind
             case True => item.kind == TrueKind
             case Number(d) => item.kind == NumberKind && item.valuedouble == d
             case String(t) => item.kind == StringKind && item.valuestring == Some(t)
             case _ => false
    ensures TreeOf(Shape(item, [], {item}), v)
  {
    NoKids(Shape(item, [], {item}));
  }

  /** What a call that reads a value into `item` has to deliver. */
  ghost predicate Delivers(item: Node, text: seq<byte>, pos: nat, end: int, s: NodeShape, r: Parser.Parsed<Json>)
    reads s.node`child, s.node`isReference, s.node`kind, s.node`valuestring, s.node`valuedouble, s.nodes
  {
    match r
    case Ok(v, rest) =>
      pos < end <= |text| && text[end..] == rest && s.node == item && item in s.nodes && TreeOf(s, v)
    case _ => end == -1
  }

  /** `parse_value` */
  method ParseValue(item: Node, text: seq<byte>, pos: nat) returns (end: int, ghost s: NodeShape)
    requires pos <= |text| && item.child == null && !item.isReference
    requires !Parser.ParseValue(text[pos..]).Undef?
    modifies item`kind, item`child, item`valuestring, item`valuedouble
    ensures Delivers(item, text, pos, end, s, Parser.ParseValue(text[pos..])) && fresh(s.nodes - {item})
    decreases |text| - pos, 2
  {
    s := Shape(item, [], {item});
    Tail(text, pos);
    if Parser.NULL_TEXT <= text[pos..] {
      item.kind := NullKind;
      end := pos + 4;
      ScalarBuilt(item, Null);
    } else if Parser.FALSE_TEXT <= text[pos..] {
      item.kind := FalseKind;
      end := pos + 5;
      ScalarBuilt(item, False);
    } else if Parser.TRUE_TEXT <= text[pos..] {
      item.kind := TrueKind;
      end := pos + 4;
      ScalarBuilt(item, True);
    } else if CText.At(text, pos) == QUOTE {
      end := ParseString(item, text, pos);
      ScalarBuilt(item, String(item.valuestring.value));
    } else if CText.At(text, pos) == MINUS || IsDigit(CText.At(text, pos)) {
      end := ParseNumber(item, text, pos);
      ScalarBuilt(item, Number(item.valuedouble));
    } else if CText.At(text, pos) == LBRACKET {
      end, s := ParseArray(item, text, pos);
    } else if CText.At(text, pos) == LBRACE {
      end, s := ParseObject(item, text, pos);
    } else {
      end := -1;
    }
  }

  ghost function Prefixed<T>(xs: seq<T>, r: Parser.Parsed<seq<T>>): Parser.Parsed<seq<T>> {
    match r
    case Ok(more, rest) => Parser.Ok(xs + more, rest)
    case Fail => Parser.Fail
    case Undef => Parser.Undef
  }

  // Arrays ---------------------------------------------------------------------

  /** The element loop of the specification, at the mark behind the elements `vs`. */
  ghost function AfterElement(vs: seq<Json>, t: seq<byte>): Parser.Parsed<seq<Json>> {
    if Peek(t) == COMMA then Prefixed(vs, Parser.ParseElements(t[1..]))
    else if Peek(t) == RBRACKET then Parser.Ok(vs, t[1..])
    else Parser.Fail
  }

  lemma ElementRead(vs: seq<Json>, s: seq<byte>)
    ensures var r := Parser.ParseValue(Parser.Skip(s));
            Prefixed(vs, Parser.ParseElements(s)) ==
              match r
              case Ok(v, t) => AfterElement(vs + [v], Parser.Skip(t))
              case Fail => Parser.Fail
              case Undef => Parser.Undef
    ensures !Parser.ParseElements(s).Undef? ==> !Parser.ParseValue(Parser.Skip(s)).Undef?
  {
    var r := Parser.ParseValue(Parser.Skip(s));
    if r.Ok? {
      var t := Parser.Skip(r.rest);
      if Peek(t) == COMMA && Parser.ParseElements(t[1..]).Ok? {
        var more := Parser.ParseElements(t[1..]).value;
        assert vs + ([r.value] + more) == (vs + [r.value]) + more;
      }
    }
  }

  /** A new item `child` is linked behind the others and waits to be filled. */
  ghost predicate Waiting(item: Node, ks: seq<NodeShape>, child: Node, vs: seq<Json>)
    reads item`child, AllNodes(ks), child`next, child`prev
  {
    && Separate(ks) && StandFor(ks, vs) && item !in AllNodes(ks) && item != child && child !in AllNodes(ks)
    && Heads(item, Tops(ks) + [child])
  }

  method NewItem(item: Node, last: Node?, ghost ks: seq<NodeShape>, ghost vs: seq<Json>, ghost all: set<Node>)
    returns (child: Node)
    requires all == AllNodes(ks) && Built(item, ks, vs) && last == NodeAt(Tops(ks), |ks| - 1)
    modifies item`child, all`next
    ensures fresh(child) && child.child == null && !child.isReference
    ensures Waiting(item, ks, child, vs)
  {
    hide Separate, AllNodes, Linked, Distinct, TreeOf, Tree;
    TopNodesOf(ks);
    child := new Node();
    LinkAfter(item, last, child, Tops(ks));
  }

  /** A filled item becomes the last of the children. */
  lemma Grown(item: Node, ks: seq<NodeShape>, s: NodeShape, vs: seq<Json>, v: Json)
    requires Waiting(item, ks, s.node, vs) && TreeOf(s, v)
    requires AllNodes(ks) !! s.nodes && item !in s.nodes
    ensures Built(item, ks + [s], vs + [v]) && AllNodes(ks + [s]) == AllNodes(ks) + s.nodes
    ensures s.node == NodeAt(Tops(ks + [s]), |ks + [s]| - 1)
  {
    Appended(ks, s);
    assert Tops(ks + [s]) == Tops(ks) + [s.node];
    forall j | 0 <= j < |ks + [s]| ensures TreeOf((ks + [s])[j], (vs + [v])[j]) {
      assert j < |ks| ==> (ks + [s])[j] == ks[j] && (vs + [v])[j] == vs[j];
    }
  }

  lemma Delivered(item: Node, text: seq<byte>, pos: nat, end: int, s: NodeShape, r: Parser.Parsed<Json>)
    requires Delivers(item, text, pos, end, s, r)
    ensures if r.Ok? then
              pos < end <= |text| && text[end..] == r.rest && s.node == item && item in s.nodes && TreeOf(s, r.value)
            else end == -1
  {}

  /** One element: a new item behind the others, and the value the text gives it. */
  method ParseElement(item: Node, last: Node?, text: seq<byte>, pos: nat, ghost ks: seq<NodeShape>, ghost vs: seq<Json>,
                      ghost all: set<Node>)
    returns (child: Node, end: int, ghost ks': seq<NodeShape>, ghost vs': seq<Json>, ghost made: set<Node>)
    requires pos <= |text| && all == AllNodes(ks) && Built(item, ks, vs) && last == NodeAt(Tops(ks), |ks| - 1)
    requires !Parser.ParseElements(text[pos..]).Undef?
    modifies item`child, all`next
    ensures AllNodes(ks') == all + made && fresh(made)
    ensures end < 0 ==> Prefixed(vs, Parser.ParseElements(text[pos..])) == Parser.Fail
    ensures end >= 0 ==>
      && pos < end <= |text| && Built(item, ks', vs') && child == NodeAt(Tops(ks'), |ks'| - 1)
      && Prefixed(vs, Parser.ParseElements(text[pos..])) == AfterElement(vs', text[end..])
    decreases |text| - pos, 3
  {
    hide *;
    ElementRead(vs, text[pos..]);
    ghost var v := Parser.ParseValue(Parser.Skip(text[pos..]));
    ks', vs', made := ks, vs, {};
    ghost var s;
    child := NewItem(item, last, ks, vs, all);
    var start := Skip(text, pos);
    end, s := ParseValue(child, text, start);
    Delivered(child, text, start, end, s, v);
    if end >= 0 {
      end := Skip(text, end);
      Grown(item, ks, s, vs, v.value);
      ks', vs', made := ks + [s], vs + [v.value], s.nodes;
    }
  }

  /** The element loop of `parse_array`, up to the closing bracket. */
  method ParseElements(item: Node, text: seq<byte>, pos: nat)
    returns (end: int, ghost ks: seq<NodeShape>, ghost vs: seq<Json>)
    requires pos <= |text| && item.child == null && !Parser.ParseElements(text[pos..]).Undef?
    modifies item`child
    ensures fresh(AllNodes(ks))
    ensures match Parser.ParseElements(text[pos..])
            case Ok(v, rest) => pos < end <= |text| && text[end..] == rest && vs == v && Built(item, ks, vs)
            case _ => end == -1
    decreases |text| - pos, 4
  {
    hide *;
    NothingBuilt(item);
    FromNothing(Parser.ParseElements(text[pos..]));
    ks, vs := [], [];
    ghost var r, made := Parser.ParseElements(text[pos..]), AllNodes(ks);
    var child;
    child, end, ks, vs, made := ParseElement(item, null, text, pos, ks, vs, made);
    if end < 0 { return -1, ks, vs; }
    while CText.At(text, end) == COMMA
      invariant pos < end <= |text| && fresh(AllNodes(ks))
      invariant Built(item, ks, vs) && child == NodeAt(Tops(ks), |ks| - 1) && r == AfterElement(vs, text[end..])
      decreases |text| - end
    {
      AfterComma(vs, text, end);
      child, end, ks, vs, made := ParseElement(item, child, text, end + 1, ks, vs, AllNodes(ks));
      if end < 0 { return -1, ks, vs; }
    }
    AfterLast(vs, text, end);
    end := if CText.At(text, end) == RBRACKET then end + 1 else -1;
  }

  lemma FromNothing<T>(r: Parser.Parsed<seq<T>>)
    ensures Prefixed([], r) == r
  {
    if r.Ok? { assert [] + r.value == r.value; }
  }

  lemma AfterComma(vs: seq<Json>, text: seq<byte>, pos: nat)
    requires pos <= |text| && CText.At(text, pos) == COMMA
    ensures pos < |text| && AfterElement(vs, text[pos..]) == Prefixed(vs, Parser.ParseElements(text[pos + 1..]))
    ensures AfterElement(vs, text[pos..]).Undef? <==> Parser.ParseElements(text[pos + 1..]).Undef?
  {
    Tail(text, pos);
  }

  lemma AfterLast(vs: seq<Json>, text: seq<byte>, pos: nat)
    requires pos <= |text| && CText.At(text, pos) != COMMA
    ensures if CText.At(text, pos) == RBRACKET then
              pos < |text| && AfterElement(vs, text[pos..]) == Parser.Ok(vs, text[pos + 1..])
            else AfterElement(vs, text[pos..]) == Parser.Fail
  {
    Tail(text, pos);
  }

  /** `parse_array` */
  method ParseArray(item: Node, text: seq<byte>, pos: nat) returns (end: int, ghost s: NodeShape)
    requires pos <= |text| && CText.At(text, pos) == LBRACKET && item.child == null && !item.isReference
    requires !Parser.ParseValue(text[pos..]).Undef?
    modifies item`kind, item`child
    ensures Delivers(item, text, pos, end, s, Parser.ParseValue(text[pos..])) && fresh(s.nodes - {item})
    decreases |text| - pos, 1
  {
    hide Built, Parser.ParseElements, Parser.ParseValue, Parser.Skip, AllNodes, TreeOf;
    Tail(text, pos);
    item.kind := ArrayKind;
    var value := Skip(text, pos + 1);
    Tail(text, value);
    ArrayDispatch(text[pos..], text[value..]);
    ghost var ks: seq<NodeShape>, vs: seq<Json> := [], [];
    NothingBuilt(item);
    if CText.At(text, value) == RBRACKET {
      end := value + 1;
    } else {
      end, ks, vs := ParseElements(item, text, value);
    }
    s := Shape(item, ks, {item} + AllNodes(ks));
    if end >= 0 { ArrayBuilt(item, ks, vs); }
  }

  lemma ArrayDispatch(s: seq<byte>, t: seq<byte>)
    requires Peek(s) == LBRACKET && t == Parser.Skip(s[1..])
    ensures Parser.ParseValue(s) ==
      if Peek(t) == RBRACKET then Parser.Ok(Array([]), t[1..])
      else match Parser.ParseElements(t)
           case Ok(vs, rest) => Parser.Ok(Array(vs), rest)
           case Fail => Parser.Fail
           case Undef => Parser.Undef
  {}

  // Objects --------------------------------------------------------------------

  /** The member loop of the specification, at the mark behind the members `ms`. */
  ghost function AfterMember(ms: seq<Member>, t: seq<byte>): Parser.Parsed<seq<Member>> {
    if Peek(t) == COMMA then Prefixed(ms, Parser.ParseMembers(t[1..]))
    else if Peek(t) == RBRACE then Parser.Ok(ms, t[1..])
    else Parser.Fail
  }

  lemma MemberRead(ms: seq<Member>, s: seq<byte>)
    ensures Prefixed(ms, Parser.ParseMembers(s)) ==
              match Parser.ParseMember(s)
              case Ok(m, t) => AfterMember(ms + [m], t)
              case Fail => Parser.Fail
              case Undef => Parser.Undef
    ensures !Parser.ParseMembers(s).Undef? ==> !Parser.ParseMember(s).Undef?
  {
    var r := Parser.ParseMember(s);
    if r.Ok? {
      var t := r.rest;
      if Peek(t) == COMMA && Parser.ParseMembers(t[1..]).Ok? {
        var more := Parser.ParseMembers(t[1..]).value;
        assert ms + ([r.value] + more) == (ms + [r.value]) + more;
      }
    }
  }

  /** The stages of `ParseMember`, for a caller that runs them one by one. */
  lemma MemberStages(s: seq<byte>)
    ensures var a := Parser.ParseString(Parser.Skip(s));
            if a.Undef? then Parser.ParseMember(s).Undef?
            else if a.Fail? then Parser.ParseMember(s).Fail?
            else
              var t := Parser.Skip(a.rest);
              if Peek(t) != COLON then Parser.ParseMember(s).Fail?
              else
                var b := Parser.ParseValue(Parser.Skip(t[1..]));
                match b
                case Undef => Parser.ParseMember(s).Undef?
                case Fail => Parser.ParseMember(s).Fail?
                case Ok(v, u) => Parser.ParseMember(s) == Parser.Ok(Member(a.value, v), Parser.Skip(u))
  {}

  lemma AtColon(text: seq<byte>, i: nat)
    requires i <= |text|
    ensures Peek(text[i..]) == CText.At(text, i)
    ensures CText.At(text, i) == COLON ==> i < |text| && text[i..][1..] == text[i + 1..]
  {
    Tail(text, i);
  }

  /** `"name" : value` into a waiting item, and the white space behind it. */
  method FillMember(child: Node, text: seq<byte>, pos: nat) returns (end: int, ghost s: NodeShape)
    requires pos <= |text| && child.child == null && !child.isReference
    requires !Parser.ParseMember(text[pos..]).Undef?
    modifies child`kind, child`child, child`valuestring, child`valuedouble, child`name
    ensures fresh(s.nodes - {child})
    ensures match Parser.ParseMember(text[pos..])
            case Ok(m, rest) =>
              && pos < end <= |text| && text[end..] == rest && s.node == child && child in s.nodes
              && child.name == Some(m.name) && TreeOf(s, m.value)
            case _ => end == -1
    decreases |text| - pos, 3
  {
    hide *;
    MemberStages(text[pos..]);
    s := Shape(child, [], {child});
    var value := Skip(text, pos);
    end := ParseString(child, text, value);
    if end >= 0 {
      child.name := child.valuestring;
      child.valuestring := None;
      value := Skip(text, end);
      end := -1;
      AtColon(text, value);
      if CText.At(text, value) == COLON {
        value := Skip(text, value + 1);
        end, s := ParseValue(child, text, value);
        Delivered(child, text, value, end, s, Parser.ParseValue(text[value..]));
        if end >= 0 { end := Skip(text, end); }
      }
    }
  }

  lemma GrownMember(item: Node, ks: seq<NodeShape>, s: NodeShape, ms: seq<Member>, m: Member)
    requires Waiting(item, ks, s.node, MemberValues(ms)) && NamedSoFar(ks, ms) && TreeOf(s, m.value)
    requires AllNodes(ks) !! s.nodes && item !in s.nodes && s.node.name == Some(m.name)
    ensures BuiltMembers(item, ks + [s], ms + [m]) && AllNodes(ks + [s]) == AllNodes(ks) + s.nodes
    ensures s.node == NodeAt(Tops(ks + [s]), |ks + [s]| - 1)
  {
    hide Waiting, TreeOf, AllNodes, Built, Tops, NodeAt, MemberValues;
    Grown(item, ks, s, MemberValues(ms), m.value);
    OneMoreValue(ms, m);
    assert forall j :: 0 <= j < |ks| ==> (ks + [s])[j] == ks[j] && (ms + [m])[j] == ms[j];
  }

  lemma OneMoreValue(ms: seq<Member>, m: Member)
    ensures MemberValues(ms + [m]) == MemberValues(ms) + [m.value]
  {}

  /** One member: a new item behind the others, filled from the text. */
  method ParseOneMember(item: Node, last: Node?, text: seq<byte>, pos: nat, ghost ks: seq<NodeShape>,
                        ghost ms: seq<Member>, ghost all: set<Node>)
    returns (child: Node, end: int, ghost ks': seq<NodeShape>, ghost ms': seq<Member>, ghost made: set<Node>)
    requires pos <= |text| && all == AllNodes(ks) && BuiltMembers(item, ks, ms) && last == NodeAt(Tops(ks), |ks| - 1)
    requires !Parser.ParseMembers(text[pos..]).Undef?
    modifies item`child, all`next
    ensures AllNodes(ks') == all + made && fresh(made)
    ensures end < 0 ==> Prefixed(ms, Parser.ParseMembers(text[pos..])) == Parser.Fail
    ensures end >= 0 ==>
      && pos < end <= |text| && BuiltMembers(item, ks', ms') && child == NodeAt(Tops(ks'), |ks'| - 1)
      && Prefixed(ms, Parser.ParseMembers(text[pos..])) == AfterMember(ms', text[end..])
    decreases |text| - pos, 4
  {
    hide *;
    MemberRead(ms, text[pos..]);
    BuiltMembersParts(item, ks, ms);
    ghost var m := Parser.ParseMember(text[pos..]);
    ks', ms', made := ks, ms, {};
    ghost var s;
    child := NewItem(item, last, ks, MemberValues(ms), all);
    end, s := FillMember(child, text, pos);
    if end >= 0 {
      GrownMember(item, ks, s, ms, m.value);
      ks', ms', made := ks + [s], ms + [m.value], s.nodes;
    }
  }

  lemma BuiltMembersParts(item: Node, ks: seq<NodeShape>, ms: seq<Member>)
    requires BuiltMembers(item, ks, ms)
    ensures Built(item, ks, MemberValues(ms)) && NamedSoFar(ks, ms)
  {}

  lemma NoMembersBuilt(item: Node)
    requires item.child == null
    ensures var none: seq<NodeShape> := [];
            BuiltMembers(item, none, []) && AllNodes(none) == {} && NodeAt(Tops(none), |none| - 1) == null
  {
    NothingBuilt(item);
    assert MemberValues([]) == [];
  }

  /** The member loop of `parse_object`, up to the closing brace. */
  method ParseMembers(item: Node, text: seq<byte>, pos: nat)
    returns (end: int, ghost ks: seq<NodeShape>, ghost ms: seq<Member>)
    requires pos <= |text| && item.child == null && !Parser.ParseMembers(text[pos..]).Undef?
    modifies item`child
    ensures fresh(AllNodes(ks))
    ensures match Parser.ParseMembers(text[pos..])
            case Ok(m, rest) => pos < end <= |text| && text[end..] == rest && ms == m && BuiltMembers(item, ks, ms)
            case _ => end == -1
    decreases |text| - pos, 5
  {
    hide *;
    NoMembersBuilt(item);
    FromNothing(Parser.ParseMembers(text[pos..]));
    ks, ms := [], [];
    ghost var r, made := Parser.ParseMembers(text[pos..]), AllNodes(ks);
    var child;
    child, end, ks, ms, made := ParseOneMember(item, null, text, pos, ks, ms, made);
    if end < 0 { return -1, ks, ms; }
    while CText.At(text, end) == COMMA
      invariant pos < end <= |text| && fresh(AllNodes(ks))
      invariant BuiltMembers(item, ks, ms) && child == NodeAt(Tops(ks), |ks| - 1) && r == AfterMember(ms, text[end..])
      decreases |text| - end
    {
      AfterMemberComma(ms, text, end);
      child, end, ks, ms, made := ParseOneMember(item, child, text, end + 1, ks, ms, AllNodes(ks));
      if end < 0 { return -1, ks, ms; }
    }
    AfterLastMember(ms, text, end);
    end := if CText.At(text, end) == RBRACE then end + 1 else -1;
  }

  lemma AfterMemberComma(ms: seq<Member>, text: seq<byte>, pos: nat)
    requires pos <= |text| && CText.At(text, pos) == COMMA
    ensures pos < |text| && AfterMember(ms, text[pos..]) == Prefixed(ms, Parser.ParseMembers(text[pos + 1..]))
    ensures AfterMember(ms, text[pos..]).Undef? <==> Parser.ParseMembers(text[pos + 1..]).Undef?
  {
    Tail(text, pos);
  }

  lemma AfterLastMember(ms: seq<Member>, text: seq<byte>, pos: nat)
    requires pos <= |text| && CText.At(text, pos) != COMMA
    ensures if CText.At(text, pos) == RBRACE then
              pos < |text| && AfterMember(ms, text[pos..]) == Parser.Ok(ms, text[pos + 1..])
            else AfterMember(ms, text[pos..]) == Parser.Fail
  {
    Tail(text, pos);
  }

  /** `parse_object` */
  method ParseObject(item: Node, text: seq<byte>, pos: nat) returns (end: int, ghost s: NodeShape)
    requires pos <= |text| && CText.At(text, pos) == LBRACE && item.child == null && !item.isReference
    requires !Parser.ParseValue(text[pos..]).Undef?
    modifies item`kind, item`child
    ensures Delivers(item, text, pos, end, s, Parser.ParseValue(text[pos..])) && fresh(s.nodes - {item})
    decreases |text| - pos, 1
  {
    hide BuiltMembers, Built, Parser.ParseMembers, Parser.ParseValue, Parser.Skip, AllNodes, TreeOf;
    Tail(text, pos);
    item.kind := ObjectKind;
    var value := Skip(text, pos + 1);
    Tail(text, value);
    ObjectDispatch(text[pos..], text[value..]);
    ghost var ks: seq<NodeShape>, ms: seq<Member> := [], [];
    NoMembersBuilt(item);
    if CText.At(text, value) == RBRACE {
      end := value + 1;
    } else {
      end, ks, ms := ParseMembers(item, text, value);
    }
    s := Shape(item, ks, {item} + AllNodes(ks));
    if end >= 0 { ObjectBuilt(item, ks, ms); }
  }

  lemma ObjectDispatch(s: seq<byte>, t: seq<byte>)
    requires Peek(s) == LBRACE && t == Parser.Skip(s[1..])
    ensures Parser.ParseValue(s) ==
      if Peek(t) == RBRACE then Parser.Ok(Object([]), t[1..])
      else match Parser.ParseMembers(t)
           case Ok(ms, rest) => Parser.Ok(Object(ms), rest)
           case Fail => Parser.Fail
           case Undef => Parser.Undef
  {}

  /** `cJSON_ParseWithOpts`: the root of the tree and where the text ended, or null. */
  method ParseWithOpts(text: seq<byte>, requireNullTerminated: bool) returns (c: Node?, end: int, ghost s: NodeShape)
    requires !Parser.ParseWithOpts(text, requireNullTerminated).Undef?
    ensures match Parser.ParseWithOpts(text, requireNullTerminated)
            case Ok(v, rest) =>
              && c != null && 0 <= end <= |text| && text[end..] == rest
              && s.node == c && fresh(s.nodes) && Alone(s) && TreeOf(s, v)
            case _ => c == null
  {
    hide *;
    var root := new Node();
    assert text[0..] == text;
    var start := Skip(text, 0);
    ghost var v := Parser.ParseValue(text[start..]);
    OptsSteps(text, requireNullTerminated, v);
    end, s := ParseValue(root, text, start);
    Delivered(root, text, start, end, s, v);
    c := null;
    if end >= 0 {
      if requireNullTerminated {
        end := Skip(text, end);
        Tail(text, end);
        if CText.At(text, end) != NUL { return; }
      }
      c := root;
      RootAlone(s, v.value);
    }
  }

  lemma OptsSteps(text: seq<byte>, requireNullTerminated: bool, r: Parser.Parsed<Json>)
    requires r == Parser.ParseValue(Parser.Skip(text))
    ensures var p := Parser.ParseWithOpts(text, requireNullTerminated);
            match r
            case Ok(v, rest) =>
              if !requireNullTerminated then p == r
              else if Peek(Parser.Skip(rest)) != NUL then p == Parser.Fail
              else p == Parser.Ok(v, Parser.Skip(rest))
            case Fail => p == Parser.Fail
            case Undef => p == Parser.Undef
  {}

  lemma RootAlone(s: NodeShape, v: Json)
    requires TreeOf(s, v) && s.node.next == null && s.node.prev == null
    ensures Alone(s)
  {}
}
