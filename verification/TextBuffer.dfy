/**
 Text as an editor holds it, a list of lines, with the algebra of cutting it at
 a position and joining two pieces.
 */
module TextBuffer {

  type Lines = seq<string>

  /** A place in front of column `col` of line `line`, both counted from zero. */
  datatype Pos = Pos(line: nat, col: nat)

  predicate Before(p: Pos, q: Pos) {
    p.line < q.line || (p.line == q.line && p.col <= q.col)
  }

  predicate Inside(b: Lines, p: Pos) {
    p.line < |b| && p.col <= |b[p.line]|
  }

  /** The text in front of `p`. */
  function UpTo(b: Lines, p: Pos): (r: Lines)
    requires Inside(b, p)
    ensures |r| == p.line + 1
  {
    b[..p.line] + [b[p.line][..p.col]]
  }

  /** The text behind `p`. */
  function From(b: Lines, p: Pos): (r: Lines)
    requires Inside(b, p)
    ensures |r| == |b| - p.line
  {
    [b[p.line][p.col..]] + b[p.line + 1..]
  }

  /** Two texts one behind the other: the last line of `a` runs on into the first of `b`. */
  function Glue(a: Lines, b: Lines): (r: Lines)
    requires a != [] && b != []
    ensures |r| == |a| + |b| - 1
  {
    a[..|a| - 1] + [a[|a| - 1] + b[0]] + b[1..]
  }

  function EndOf(b: Lines): Pos
    requires b != []
  {
    Pos(|b| - 1, |b[|b| - 1]|)
  }

  /** How far `q` is behind `p`. */
  function Minus(q: Pos, p: Pos): Pos
    requires Before(p, q)
  {
    if q.line == p.line then Pos(0, q.col - p.col) else Pos(q.line - p.line, q.col)
  }

  function Plus(p: Pos, d: Pos): Pos {
    if d.line == 0 then Pos(p.line, p.col + d.col) else Pos(p.line + d.line, d.col)
  }

  function Between(b: Lines, p: Pos, q: Pos): (r: Lines)
    requires Before(p, q) && Inside(b, p) && Inside(b, q)
    ensures r != []
  {
    UpTo(From(b, p), Minus(q, p))
  }

  /** Line `i` of two joined texts. */
  lemma GlueLine(a: Lines, b: Lines, i: nat)
    requires a != [] && b != [] && i < |a| + |b| - 1
    ensures Glue(a, b)[i] ==
      if i < |a| - 1 then a[i] else if i == |a| - 1 then a[i] + b[0] else b[i - |a| + 1]
  {}

  lemma GlueAssociative(a: Lines, b: Lines, c: Lines)
    requires a != [] && b != [] && c != []
    ensures Glue(Glue(a, b), c) == Glue(a, Glue(b, c))
  {
    hide Glue;
    var l, r := Glue(Glue(a, b), c), Glue(a, Glue(b, c));
    forall i | 0 <= i < |l| ensures l[i] == r[i] {
      SameLine(a, b, c, i);
    }
  }

  lemma SameLine(a: Lines, b: Lines, c: Lines, i: nat)
    requires a != [] && b != [] && c != [] && i < |Glue(Glue(a, b), c)|
    ensures i < |Glue(a, Glue(b, c))| && Glue(Glue(a, b), c)[i] == Glue(a, Glue(b, c))[i]
  {
    hide Glue;
    GlueLine(Glue(a, b), c, i);
    GlueLine(a, Glue(b, c), i);
    if i < |a| + |b| - 1 { GlueLine(a, b, i); }
    if i >= |a| - 1 { GlueLine(b, c, i - |a| + 1); }
    GlueLine(b, c, 0);
    GlueLine(a, b, |a| + |b| - 2);
    if |b| == 1 && i == |a| - 1 { Concatenated(a[i], b[0], c[0]); }
  }

  lemma Concatenated(a: string, b: string, c: string)
    ensures (a + b) + c == a + (b + c)
  {}

  /** A place in the second of two joined texts, seen from the whole. */
  lemma InsideGlue(a: Lines, b: Lines, d: Pos)
    requires a != [] && Inside(b, d)
    ensures Inside(Glue(a, b), Plus(EndOf(a), d))
    ensures UpTo(Glue(a, b), Plus(EndOf(a), d)) == Glue(a, UpTo(b, d))
    ensures From(Glue(a, b), Plus(EndOf(a), d)) == From(b, d)
  {
    var p := Plus(EndOf(a), d);
    var g := Glue(a, b);
    GlueLine(a, b, p.line);
    assert g[p.line + 1..] == b[d.line + 1..];
    assert g[..p.line] == Glue(a, UpTo(b, d))[..p.line];
    if d.line == 0 {
      var last := a[|a| - 1];
      assert (last + b[0])[..|last| + d.col] == last + b[0][..d.col];
      assert (last + b[0])[|last| + d.col..] == b[0][d.col..];
    }
  }

  lemma InsideFrom(b: Lines, p: Pos, q: Pos)
    requires Before(p, q) && Inside(b, p) && Inside(b, q)
    ensures Inside(From(b, p), Minus(q, p)) && From(From(b, p), Minus(q, p)) == From(b, q)
  {
    var f := From(b, p);
    assert f[q.line - p.line + 1..] == b[q.line + 1..];
  }
}
