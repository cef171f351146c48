/**
 Applying the chunks of a FixIt to an editor buffer one after the other, with
 running line and character deltas, against replacing all of them at once in
 the coordinates of the original text.
 */
module FixIt {
  import opened TextBuffer

  /** As the server sends it: counted from one, the end column behind the range. */
  datatype Location = Location(lineNum: int, columnNum: int)

  /** `replacement` is `replacement_text.splitlines(False)`. */
  datatype Chunk = Chunk(start: Location, end: Location, replacement: Lines)

  predicate IsLocation(l: Location) {
    l.lineNum >= 1 && l.columnNum >= 1
  }

  predicate IsChunk(c: Chunk) {
    IsLocation(c.start) && IsLocation(c.end) && Before(At(c.start), At(c.end))
  }

  function At(l: Location): Pos
    requires IsLocation(l)
  {
    Pos(l.lineNum - 1, l.columnNum - 1)
  }

  function Replacement(c: Chunk): (r: Lines)
    ensures r != []
  {
    if c.replacement == [] then [""] else c.replacement
  }

  /** Chunks in ascending order behind `at`, none overlapping. */
  predicate Ascending(chunks: seq<Chunk>, at: Pos) {
    chunks == [] ||
    (IsChunk(chunks[0]) && Before(at, At(chunks[0].start)) && Ascending(chunks[1..], At(chunks[0].end)))
  }

  /** All ranges lie in the text. */
  predicate InText(b: Lines, chunks: seq<Chunk>) {
    forall i :: 0 <= i < |chunks| ==>
      IsChunk(chunks[i]) && Inside(b, At(chunks[i].start)) && Inside(b, At(chunks[i].end))
  }

  // At once ------------------------------------------------------------------------

  /** The text from `at` on with every range replaced, all ranges meant in the original text. */
  function Simultaneous(b: Lines, chunks: seq<Chunk>, at: Pos): (r: Lines)
    requires InText(b, chunks) && Ascending(chunks, at) && Inside(b, at)
    ensures r != []
  {
    if chunks == [] then From(b, at)
    else
      var c := chunks[0];
      Glue(Between(b, at, At(c.start)), Glue(Replacement(c), Simultaneous(b, chunks[1..], At(c.end))))
  }

  // One after the other --------------------------------------------------------------

  /** Where Python's slices cut a line of length `n` that is sliced at `i`. */
  function Cut(i: int, n: nat): (k: nat)
    ensures k <= n
  {
    if i >= n then n else if i >= 0 then i else if n + i >= 0 then n + i else 0
  }

  /** The places of the buffer that `ReplaceChunk` takes the range to lie between. */
  function StartIn(b: Lines, c: Chunk, lineDelta: int, charDelta: int): (p: Pos)
    requires LinesIn(b, c, lineDelta)
    ensures Inside(b, p)
  {
    var line := c.start.lineNum - 1 + lineDelta;
    Pos(line, Cut(c.start.columnNum - 1 + charDelta, |b[line]|))
  }

  function EndIn(b: Lines, c: Chunk, lineDelta: int, charDelta: int): (p: Pos)
    requires LinesIn(b, c, lineDelta)
    ensures Inside(b, p)
  {
    var line := c.end.lineNum - 1 + lineDelta;
    Pos(line, Cut(c.end.columnNum - 1 + (if c.start.lineNum == c.end.lineNum then charDelta else 0), |b[line]|))
  }

  predicate LinesIn(b: Lines, c: Chunk, lineDelta: int) {
    0 <= c.start.lineNum - 1 + lineDelta <= c.end.lineNum - 1 + lineDelta < |b|
  }

  function Edited(b: Lines, c: Chunk, lineDelta: int, charDelta: int): (r: Lines)
    requires LinesIn(b, c, lineDelta)
    ensures |r| == |b| + LineChange(c)
  {
    Glue(UpTo(b, StartIn(b, c, lineDelta, charDelta)), Glue(Replacement(c), From(b, EndIn(b, c, lineDelta, charDelta))))
  }

  function LineChange(c: Chunk): int {
    |Replacement(c)| - (c.end.lineNum - c.start.lineNum + 1)
  }

  function CharChange(c: Chunk, charDelta: int): int {
    var n := |Replacement(c)|;
    var startColumn := c.start.columnNum - 1 + charDelta;
    var endColumn := c.end.columnNum - 1 + (if c.start.lineNum == c.end.lineNum then charDelta else 0);
    |Replacement(c)[n - 1]| - (endColumn - startColumn) - (if n > 1 then startColumn else 0)
  }

  class VimBuffer {
    var lines: Lines

    constructor (b: Lines)
      ensures lines == b
    {
      lines := b;
    }

    /** `ReplaceChunk` */
    method ReplaceChunk(c: Chunk, lineDelta: int, charDelta: int) returns (newLineDelta: int, newCharDelta: int)
      requires LinesIn(lines, c, lineDelta)
      modifies this
      ensures lines == Edited(old(lines), c, lineDelta, charDelta)
      ensures newLineDelta == LineChange(c) && newCharDelta == CharChange(c, charDelta)
    {
      hide Glue, UpTo, From;
      var startLine := c.start.lineNum - 1 + lineDelta;
      var endLine := c.end.lineNum - 1 + lineDelta;
      var sourceLinesCount := endLine - startLine + 1;
      var startColumn := c.start.columnNum - 1 + charDelta;
      var endColumn := c.end.columnNum - 1;
      if sourceLinesCount == 1 { endColumn := endColumn + charDelta; }

      var replacementLines := c.replacement;
      if replacementLines == [] { replacementLines := [""]; }
      var count := |replacementLines|;

      var endExistingText := lines[endLine][Cut(endColumn, |lines[endLine]|)..];
      var startExistingText := lines[startLine][..Cut(startColumn, |lines[startLine]|)];

      newCharDelta := |replacementLines[count - 1]| - (endColumn - startColumn);
      if count > 1 { newCharDelta := newCharDelta - startColumn; }

      replacementLines := replacementLines[0 := startExistingText + replacementLines[0]];
      replacementLines := replacementLines[count - 1 := replacementLines[count - 1] + endExistingText];
      LinesGlued(lines, StartIn(lines, c, lineDelta, charDelta), EndIn(lines, c, lineDelta, charDelta), Replacement(c));
      lines := lines[..startLine] + replacementLines + lines[endLine + 1..];
      newLineDelta := count - sourceLinesCount;
    }
  }

  /** The lines `ReplaceChunk` builds are the three texts joined. */
  lemma LinesGlued(b: Lines, s: Pos, e: Pos, r: Lines)
    requires Inside(b, s) && Inside(b, e) && r != []
    ensures var r1 := r[0 := b[s.line][..s.col] + r[0]];
            Glue(UpTo(b, s), Glue(r, From(b, e))) ==
            b[..s.line] + r1[|r| - 1 := r1[|r| - 1] + b[e.line][e.col..]] + b[e.line + 1..]
  {
    var r1 := r[0 := b[s.line][..s.col] + r[0]];
    var inner := Glue(r, From(b, e));
    if |r| == 1 {
      assert b[s.line][..s.col] + (r[0] + b[e.line][e.col..]) == b[s.line][..s.col] + r[0] + b[e.line][e.col..];
    } else {
      assert inner[1..] == r[1..|r| - 1] + [r[|r| - 1] + b[e.line][e.col..]] + b[e.line + 1..];
    }
  }

  /** The variables of the loop. */
  datatype Track = Track(lastLine: int, lineDelta: int, charDelta: int)

  const START: Track := Track(-1, 0, 0)

  /** The character delta the loop passes on for the chunk. */
  function Used(t: Track, c: Chunk): int {
    if c.start.lineNum != t.lastLine then 0 else t.charDelta
  }

  function Next(t: Track, c: Chunk): Track {
    Track(if c.start.lineNum != t.lastLine then c.end.lineNum else t.lastLine,
          t.lineDelta + LineChange(c), Used(t, c) + CharChange(c, Used(t, c)))
  }

  /** The chunks still to come fall on lines of the buffer. */
  ghost predicate Runs(b: Lines, chunks: seq<Chunk>, at: Pos, lineDelta: int) {
    && Ascending(chunks, at) && at.line + lineDelta >= 0
    && forall i :: 0 <= i < |chunks| ==> chunks[i].end.lineNum - 1 + lineDelta < |b|
  }

  lemma RunsOn(b: Lines, chunks: seq<Chunk>, at: Pos, lineDelta: int, charDelta: int)
    requires Runs(b, chunks, at, lineDelta) && chunks != []
    ensures LinesIn(b, chunks[0], lineDelta)
    ensures var c := chunks[0];
            Runs(Edited(b, c, lineDelta, charDelta), chunks[1..], At(c.end), lineDelta + LineChange(c))
  {}

  /** The buffer after all chunks. */
  ghost function Patched(b: Lines, chunks: seq<Chunk>, at: Pos, t: Track): Lines
    requires Runs(b, chunks, at, t.lineDelta)
    decreases |chunks|
  {
    if chunks == [] then b
    else
      var c := chunks[0];
      RunsOn(b, chunks, at, t.lineDelta, Used(t, c));
      Patched(Edited(b, c, t.lineDelta, Used(t, c)), chunks[1..], At(c.end), Next(t, c))
  }

  lemma PatchedStep(b: Lines, chunks: seq<Chunk>, k: nat, at: Pos, t: Track)
    requires k < |chunks| && Runs(b, chunks[k..], at, t.lineDelta)
    ensures var c := chunks[k];
            var b' := Edited(b, c, t.lineDelta, Used(t, c));
            && LinesIn(b, c, t.lineDelta) && IsLocation(c.end)
            && Runs(b', chunks[k + 1..], At(c.end), t.lineDelta + LineChange(c))
            && Patched(b', chunks[k + 1..], At(c.end), Next(t, c)) == Patched(b, chunks[k..], at, t)
  {
    assert chunks[k..][0] == chunks[k] && chunks[k..][1..] == chunks[k + 1..];
    RunsOn(b, chunks[k..], at, t.lineDelta, Used(t, chunks[k]));
  }

  lemma PatchedEnd(b: Lines, at: Pos, t: Track)
    requires Runs(b, [], at, t.lineDelta)
    ensures Patched(b, [], at, t) == b
  {}

  /** The chunk loop of `_HandleFixitResponse`. */
  method HandleFixit(buffer: VimBuffer, chunks: seq<Chunk>) returns (numFixed: nat)
    requires Runs(buffer.lines, chunks, Pos(0, 0), 0)
    modifies buffer
    ensures buffer.lines == Patched(old(buffer.lines), chunks, Pos(0, 0), START) && numFixed == |chunks|
  {
    hide Runs, Patched, Edited, LineChange, CharChange, LinesIn;
    var lastLine, lineDelta, charDelta := -1, 0, 0;
    numFixed := 0;
    ghost var at := Pos(0, 0);
    assert chunks[0..] == chunks;
    while numFixed < |chunks|
      invariant numFixed <= |chunks| && Runs(buffer.lines, chunks[numFixed..], at, lineDelta)
      invariant Patched(buffer.lines, chunks[numFixed..], at, Track(lastLine, lineDelta, charDelta)) ==
                Patched(old(buffer.lines), chunks, Pos(0, 0), START)
    {
      var chunk := chunks[numFixed];
      PatchedStep(buffer.lines, chunks, numFixed, at, Track(lastLine, lineDelta, charDelta));
      at := At(chunk.end);
      if chunk.start.lineNum != lastLine {
        lastLine := chunk.end.lineNum;
        charDelta := 0;
      }
      var newLineDelta, newCharDelta := buffer.ReplaceChunk(chunk, lineDelta, charDelta);
      lineDelta := lineDelta + newLineDelta;
      charDelta := charDelta + newCharDelta;
      numFixed := numFixed + 1;
    }
    assert chunks[numFixed..] == [];
    PatchedEnd(buffer.lines, at, Track(lastLine, lineDelta, charDelta));
  }

  // Where the two agree ----------------------------------------------------------------

  /** How far text behind `at` on the same line has moved, where the last chunk ended at `at`. */
  function Moved(at: Pos, shift: int, c: Chunk): int
    requires IsChunk(c)
  {
    if At(c.start).line == at.line then shift else 0
  }

  function NextShift(at: Pos, shift: int, c: Chunk): int
    requires IsChunk(c)
  {
    var n := |Replacement(c)|;
    (if n == 1 then At(c.start).col + Moved(at, shift, c) else 0) + |Replacement(c)[n - 1]| - At(c.end).col
  }

  /** The loop passes on, for every chunk, the distance its line has moved. */
  ghost predicate InPlace(chunks: seq<Chunk>, at: Pos, shift: int, t: Track)
    requires Ascending(chunks, at)
  {
    chunks == [] ||
    var c := chunks[0];
    Used(t, c) == Moved(at, shift, c) && InPlace(chunks[1..], At(c.end), NextShift(at, shift, c), Next(t, c))
  }

  /**
   What `last_line` is: still unset, the line the last chunk ended on, or, when
   a chunk of several lines began on that line, a line above the end of it.
   */
  datatype Mode = Unset | Current | Stale

  function NextMode(mode: Mode, at: Pos, c: Chunk): Mode
    requires IsChunk(c)
  {
    if mode == Current && At(c.start).line == at.line && c.start.lineNum < c.end.lineNum then Stale else Current
  }

  /**
   No chunk begins on the line where the one before it ended, if that one
   itself began on the line of its predecessor, ran over several lines, and
   left its last line longer or shorter than it was.
   */
  predicate Settled(chunks: seq<Chunk>, at: Pos, shift: int, mode: Mode)
    requires Ascending(chunks, at)
  {
    chunks == [] ||
    var c := chunks[0];
    && (mode == Stale && At(c.start).line == at.line ==> shift == 0)
    && Settled(chunks[1..], At(c.end), NextShift(at, shift, c), NextMode(mode, at, c))
  }

  /** `last_line` and `char_delta` are what the mode says. */
  ghost predicate Follows(t: Track, at: Pos, shift: int, mode: Mode) {
    match mode
    case Unset => t.lastLine == -1 && shift == 0
    case Current => t.lastLine == at.line + 1 && t.charDelta == shift
    case Stale => t.lastLine < at.line + 1
  }

  lemma StepFollows(c: Chunk, at: Pos, shift: int, mode: Mode, t: Track)
    requires IsChunk(c) && Before(at, At(c.start)) && Follows(t, at, shift, mode)
    ensures Used(t, c) == Moved(at, shift, c) <==> (mode == Stale && At(c.start).line == at.line ==> shift == 0)
    ensures Used(t, c) == Moved(at, shift, c) ==>
      Follows(Next(t, c), At(c.end), NextShift(at, shift, c), NextMode(mode, at, c))
  {}

  /** The exact condition, on the chunks alone, for every chunk to be applied in its place. */
  lemma {:induction false} InPlaceIffSettled(chunks: seq<Chunk>, at: Pos, shift: int, mode: Mode, t: Track)
    requires Ascending(chunks, at) && Follows(t, at, shift, mode)
    ensures InPlace(chunks, at, shift, t) <==> Settled(chunks, at, shift, mode)
    decreases |chunks|
  {
    if chunks != [] {
      var c := chunks[0];
      StepFollows(c, at, shift, mode, t);
      hide Used, Moved, Next, NextShift, NextMode;
      if Used(t, c) == Moved(at, shift, c) {
        InPlaceIffSettled(chunks[1..], At(c.end), NextShift(at, shift, c), NextMode(mode, at, c), Next(t, c));
      }
    }
  }

  /** The text before a chunk is applied, split where the last one ended. */
  ghost predicate Split(b: Lines, d: Lines, at: Pos, shift: int, lineDelta: int) {
    && d != [] && Inside(b, at)
    && lineDelta == |d| - 1 - at.line && shift == |d[|d| - 1]| - at.col
  }

  lemma BetweenEnd(b: Lines, p: Pos, q: Pos)
    requires Before(p, q) && Inside(b, p) && Inside(b, q)
    ensures EndOf(Between(b, p, q)) == Minus(q, p)
  {
    InsideFrom(b, p, q);
  }

  lemma GlueEnd(a: Lines, b: Lines)
    requires a != [] && b != []
    ensures EndOf(Glue(a, b)) == Plus(EndOf(a), EndOf(b))
  {
    GlueLine(a, b, |a| + |b| - 2);
  }

  /** Where the text in front of the next chunk ends. */
  lemma SplitOn(b: Lines, d: Lines, c: Chunk, at: Pos, shift: int, lineDelta: int)
    requires Split(b, d, at, shift, lineDelta) && IsChunk(c) && Before(at, At(c.start))
    requires Inside(b, At(c.start)) && Inside(b, At(c.end))
    ensures var d' := Glue(Glue(d, Between(b, at, At(c.start))), Replacement(c));
            Split(b, d', At(c.end), NextShift(at, shift, c), lineDelta + LineChange(c))
  {
    hide Glue, Between, Replacement;
    var middle := Between(b, at, At(c.start));
    BetweenEnd(b, at, At(c.start));
    GlueEnd(d, middle);
    GlueEnd(Glue(d, middle), Replacement(c));
  }

  /** In the right place, one chunk replaces just its own range. */
  lemma EditedInPlace(b: Lines, d: Lines, c: Chunk, at: Pos, shift: int, t: Track)
    requires Split(b, d, at, shift, t.lineDelta) && IsChunk(c) && Before(at, At(c.start))
    requires Inside(b, At(c.start)) && Inside(b, At(c.end)) && Used(t, c) == Moved(at, shift, c)
    ensures var text := Glue(d, From(b, at));
            var d' := Glue(Glue(d, Between(b, at, At(c.start))), Replacement(c));
            && LinesIn(text, c, t.lineDelta)
            && Edited(text, c, t.lineDelta, Used(t, c)) == Glue(d', From(b, At(c.end)))
            && Split(b, d', At(c.end), NextShift(at, shift, c), t.lineDelta + LineChange(c))
  {
    hide From, UpTo, Glue, Used, Moved, Replacement, NextShift, LineChange, LinesIn, StartIn, EndIn;
    var text, f := Glue(d, From(b, at)), From(b, at);
    var s, e := At(c.start), At(c.end);
    SplitOn(b, d, c, at, shift, t.lineDelta);
    InsideFrom(b, at, s);
    InsideFrom(b, at, e);
    InsideGlue(d, f, Minus(s, at));
    InsideGlue(d, f, Minus(e, at));
    Landing(text, d, c, at, shift, t);
    GlueAssociative(Glue(d, Between(b, at, s)), Replacement(c), From(b, e));
  }

  lemma Landing(text: Lines, d: Lines, c: Chunk, at: Pos, shift: int, t: Track)
    requires d != [] && t.lineDelta == |d| - 1 - at.line && shift == |d[|d| - 1]| - at.col
    requires IsChunk(c) && Before(at, At(c.start)) && Used(t, c) == Moved(at, shift, c)
    requires Inside(text, Plus(EndOf(d), Minus(At(c.start), at))) && Inside(text, Plus(EndOf(d), Minus(At(c.end), at)))
    ensures LinesIn(text, c, t.lineDelta)
    ensures StartIn(text, c, t.lineDelta, Used(t, c)) == Plus(EndOf(d), Minus(At(c.start), at))
    ensures EndIn(text, c, t.lineDelta, Used(t, c)) == Plus(EndOf(d), Minus(At(c.end), at))
  {}

  lemma SplitInside(b: Lines, d: Lines, at: Pos, shift: int, lineDelta: int)
    requires Split(b, d, at, shift, lineDelta)
    ensures Inside(b, at) && d != []
  {}

  lemma NoChunk(b: Lines, at: Pos)
    requires Inside(b, at)
    ensures Simultaneous(b, [], at) == From(b, at)
  {}

  /** One chunk further, the text at once is the same. */
  lemma Onward(b: Lines, d: Lines, chunks: seq<Chunk>, at: Pos)
    requires InText(b, chunks) && Ascending(chunks, at) && Inside(b, at) && d != [] && chunks != []
    ensures InText(b, chunks[1..]) && Ascending(chunks[1..], At(chunks[0].end))
    ensures var x := chunks[0];
            Glue(Glue(Glue(d, Between(b, at, At(x.start))), Replacement(x)), Simultaneous(b, chunks[1..], At(x.end)))
            == Glue(d, Simultaneous(b, chunks, at))
  {
    hide Glue, Replacement, Between;
    var x := chunks[0];
    var more := Simultaneous(b, chunks[1..], At(x.end));
    GlueAssociative(Glue(d, Between(b, at, At(x.start))), Replacement(x), more);
    GlueAssociative(d, Between(b, at, At(x.start)), Glue(Replacement(x), more));
  }

  /** Applied in place, the chunks one after the other do what they do at once. */
  lemma {:induction false} PatchedInPlace(b: Lines, d: Lines, chunks: seq<Chunk>, at: Pos, shift: int, t: Track)
    requires Split(b, d, at, shift, t.lineDelta) && InText(b, chunks)
    requires Ascending(chunks, at) && InPlace(chunks, at, shift, t)
    requires Runs(Glue(d, From(b, at)), chunks, at, t.lineDelta)
    ensures Patched(Glue(d, From(b, at)), chunks, at, t) == Glue(d, Simultaneous(b, chunks, at))
    decreases |chunks|
  {
    hide Glue, Between, Replacement, Edited, Simultaneous, Split, Used, NextShift, Next, LinesIn;
    SplitInside(b, d, at, shift, t.lineDelta);
    if chunks == [] {
      NoChunk(b, at);
    } else {
      var c, text := chunks[0], Glue(d, From(b, at));
      var d' := Glue(Glue(d, Between(b, at, At(c.start))), Replacement(c));
      EditedInPlace(b, d, c, at, shift, t);
      RunsOn(text, chunks, at, t.lineDelta, Used(t, c));
      Onward(b, d, chunks, at);
      NextLine(t, c);
      PatchedInPlace(b, d', chunks[1..], At(c.end), NextShift(at, shift, c), Next(t, c));
    }
  }

  lemma NextLine(t: Track, c: Chunk)
    ensures Next(t, c).lineDelta == t.lineDelta + LineChange(c)
  {}

  /** The loop replaces every range of a settled list of chunks as if all were replaced at once. */
  lemma SequentialIsSimultaneous(b: Lines, chunks: seq<Chunk>)
    requires b != [] && InText(b, chunks) && Ascending(chunks, Pos(0, 0)) && Settled(chunks, Pos(0, 0), 0, Unset)
    ensures Runs(b, chunks, Pos(0, 0), 0)
    ensures Patched(b, chunks, Pos(0, 0), START) == Simultaneous(b, chunks, Pos(0, 0))
  {
    var origin := Pos(0, 0);
    InPlaceIffSettled(chunks, origin, 0, Unset, START);
    NothingBefore(b);
    NothingBefore(Simultaneous(b, chunks, origin));
    assert From(b, origin) == b;
    PatchedInPlace(b, [""], chunks, origin, 0, START);
  }

  lemma NothingBefore(b: Lines)
    requires b != []
    ensures Glue([""], b) == b
  {
    assert "" + b[0] == b[0];
  }

  /** Enough: no chunk over several lines begins on the line where the one before it ended. */
  predicate NoRunOn(chunks: seq<Chunk>) {
    forall k :: 0 < k < |chunks| && chunks[k].start.lineNum < chunks[k].end.lineNum ==>
      chunks[k].start.lineNum != chunks[k - 1].end.lineNum
  }

  lemma NoRunOnIsSettled(chunks: seq<Chunk>)
    requires Ascending(chunks, Pos(0, 0)) && NoRunOn(chunks)
    ensures Settled(chunks, Pos(0, 0), 0, Unset)
  {
    NoRunOnStaysSettled(chunks, Pos(0, 0), 0, Unset);
  }

  lemma {:induction false} NoRunOnStaysSettled(chunks: seq<Chunk>, at: Pos, shift: int, mode: Mode)
    requires Ascending(chunks, at) && NoRunOn(chunks) && mode != Stale
    requires mode == Current && chunks != [] && chunks[0].start.lineNum < chunks[0].end.lineNum ==>
      At(chunks[0].start).line != at.line
    ensures Settled(chunks, at, shift, mode)
    decreases |chunks|
  {
    if chunks != [] {
      var c := chunks[0];
      assert forall k :: 0 <= k < |chunks[1..]| ==> chunks[1..][k] == chunks[k + 1];
      NoRunOnStaysSettled(chunks[1..], At(c.end), NextShift(at, shift, c), NextMode(mode, at, c));
    }
  }

  /** An unsettled list: insert x, join the lines, insert y behind the c. */
  predicate Unsettled(b: Lines, x: Chunk, join: Chunk, y: Chunk) {
    && b == ["ab", "cd"]
    && x == Chunk(Location(1, 1), Location(1, 1), ["x"])
    && join == Chunk(Location(1, 2), Location(2, 1), [])
    && y == Chunk(Location(2, 2), Location(2, 2), ["y"])
  }

  lemma UnsettledList(b: Lines, x: Chunk, join: Chunk, y: Chunk)
    requires Unsettled(b, x, join, y)
    ensures InText(b, [x, join, y]) && Ascending([x, join, y], Pos(0, 0)) && Runs(b, [x, join, y], Pos(0, 0), 0)
    ensures !Settled([x, join, y], Pos(0, 0), 0, Unset)
  {
    assert [x, join, y][1..] == [join, y] && [join, y][1..] == [y] && [y][1..] == [];
    assert Ascending([y], Pos(1, 0));
    assert Ascending([join, y], Pos(0, 0));
    assert !Settled([y], Pos(1, 0), 2, Stale);
    assert NextShift(Pos(0, 0), 1, join) == 2;
    assert !Settled([join, y], Pos(0, 0), 1, Current);
  }

  lemma BetweenOnLine(b: Lines, p: Pos, q: Pos)
    requires Inside(b, p) && Inside(b, q) && p.line == q.line && p.col <= q.col
    ensures Between(b, p, q) == [b[p.line][p.col..q.col]]
  {
    assert b[p.line][p.col..][..q.col - p.col] == b[p.line][p.col..q.col];
  }

  /** A chunk that puts one line in the place of its range, `m` of the text in front of it. */
  lemma OneLineStep(b: Lines, chunks: seq<Chunk>, at: Pos, m: string, r: string, tail: Lines)
    requires InText(b, chunks) && Ascending(chunks, at) && Inside(b, at) && chunks != [] && tail != []
    requires Between(b, at, At(chunks[0].start)) == [m] && Replacement(chunks[0]) == [r]
    requires Simultaneous(b, chunks[1..], At(chunks[0].end)) == tail
    ensures Simultaneous(b, chunks, at) == [m + (r + tail[0])] + tail[1..]
  {
    hide Between, Replacement, InText;
  }

  lemma UnsettledAtOnce(b: Lines, x: Chunk, join: Chunk, y: Chunk)
    requires Unsettled(b, x, join, y) && InText(b, [x, join, y]) && Ascending([x, join, y], Pos(0, 0))
    ensures Simultaneous(b, [x, join, y], Pos(0, 0)) == ["xacyd"]
  {
    hide Simultaneous, Between, Glue;
    var all := [x, join, y];
    assert all[1..] == [join, y] && [join, y][1..] == [y] && [y][1..] == [];
    BetweenOnLine(b, Pos(1, 0), Pos(1, 1));
    BetweenOnLine(b, Pos(0, 0), Pos(0, 1));
    BetweenOnLine(b, Pos(0, 0), Pos(0, 0));
    assert "cd"[0..1] == "c" && "ab"[0..1] == "a" && "ab"[0..0] == "";
    NoChunk(b, Pos(1, 1));
    assert From(b, Pos(1, 1)) == ["d"];
    OneLineStep(b, [y], Pos(1, 0), "c", "y", ["d"]);
    assert "c" + ("y" + "d") == "cyd";
    OneLineStep(b, [join, y], Pos(0, 0), "a", "", ["cyd"]);
    assert "a" + ("" + "cyd") == "acyd";
    OneLineStep(b, all, Pos(0, 0), "", "x", ["acyd"]);
    assert "" + ("x" + "acyd") == "xacyd";
  }

  lemma UnsettledEdits(x: Chunk, join: Chunk, y: Chunk)
    requires Unsettled(["ab", "cd"], x, join, y)
    ensures Edited(["ab", "cd"], x, 0, 0) == ["xab", "cd"]
    ensures Edited(["xab", "cd"], join, 0, 1) == ["xacd"]
    ensures Edited(["xacd"], y, -1, 0) == ["xyacd"]
  {
    hide Edited;
    assert "ab"[..0] + ("x" + "ab"[0..]) == "xab";
    assert "xab"[..2] + ("" + "cd"[0..]) == "xacd";
    assert "xacd"[..1] + ("y" + "xacd"[1..]) == "xyacd";
    EditedLines(["ab", "cd"], x, 0, 0, ["xab", "cd"]);
    EditedLines(["xab", "cd"], join, 0, 1, ["xacd"]);
    EditedLines(["xacd"], y, -1, 0, ["xyacd"]);
  }

  lemma UnsettledInSequence(b: Lines, b1: Lines, b2: Lines, b3: Lines, x: Chunk, join: Chunk, y: Chunk, t: Track)
    requires Runs(b, [x, join, y], Pos(0, 0), 0) && t == Next(START, x)
    requires LinesIn(b, x, 0) && Edited(b, x, 0, Used(START, x)) == b1
    requires LinesIn(b1, join, t.lineDelta) && Edited(b1, join, t.lineDelta, Used(t, join)) == b2
    requires var u := Next(t, join); LinesIn(b2, y, u.lineDelta) && Edited(b2, y, u.lineDelta, Used(u, y)) == b3
    ensures Patched(b, [x, join, y], Pos(0, 0), START) == b3
  {
    hide Patched, Edited, Ascending, Runs, LinesIn, Used, LineChange, CharChange;
    var chunks := [x, join, y];
    assert chunks[0..] == chunks && chunks[3..] == [];
    PatchedStep(b, chunks, 0, Pos(0, 0), START);
    PatchedStep(b1, chunks, 1, At(x.end), t);
    PatchedStep(b2, chunks, 2, At(join.end), Next(t, join));
    PatchedEnd(b3, At(y.end), Next(Next(t, join), y));
  }

  lemma UnsettledTrack(x: Chunk, join: Chunk, y: Chunk)
    requires Unsettled(["ab", "cd"], x, join, y)
    ensures Used(START, x) == 0 && Next(START, x) == Track(1, 0, 1) && Used(Track(1, 0, 1), join) == 1
    ensures var t := Next(Track(1, 0, 1), join); t.lineDelta == -1 && Used(t, y) == 0
  {}

  lemma EditedLines(b: Lines, c: Chunk, lineDelta: int, charDelta: int, r: Lines)
    requires LinesIn(b, c, lineDelta) && |r| == |b| + LineChange(c)
    requires var s, e := StartIn(b, c, lineDelta, charDelta), EndIn(b, c, lineDelta, charDelta);
             && |Replacement(c)| == 1
             && r == b[..s.line] + [b[s.line][..s.col] + (Replacement(c)[0] + b[e.line][e.col..])] + b[e.line + 1..]
    ensures Edited(b, c, lineDelta, charDelta) == r
  {}

  /** The loop spoils the text of the unsettled list. */
  lemma UnsettledGoesWrong(b: Lines, x: Chunk, join: Chunk, y: Chunk)
    requires Unsettled(b, x, join, y)
    ensures InText(b, [x, join, y]) && Ascending([x, join, y], Pos(0, 0)) && Runs(b, [x, join, y], Pos(0, 0), 0)
    ensures Patched(b, [x, join, y], Pos(0, 0), START) != Simultaneous(b, [x, join, y], Pos(0, 0))
  {
    hide Patched, Simultaneous, Edited, Glue, Next, Used, Settled, InText, Runs, Ascending;
    UnsettledList(b, x, join, y);
    UnsettledAtOnce(b, x, join, y);
    UnsettledEdits(x, join, y);
    UnsettledTrack(x, join, y);
    UnsettledInSequence(b, ["xab", "cd"], ["xacd"], ["xyacd"], x, join, y, Next(START, x));
    assert "xyacd"[1] != "xacyd"[1];
  }

  /** Three x: two in front of the first line, which is joined with the next, and one behind them. */
  predicate Repeated(x: Chunk, join: Chunk, y: Chunk) {
    && x == Chunk(Location(1, 1), Location(1, 1), ["xx"])
    && join == Chunk(Location(1, 1), Location(2, 1), [])
    && y == Chunk(Location(2, 1), Location(2, 1), ["x"])
  }

  lemma RepeatedList(b: Lines, x: Chunk, join: Chunk, y: Chunk)
    requires |b| >= 2 && Repeated(x, join, y)
    ensures InText(b, [x, join, y]) && Ascending([x, join, y], Pos(0, 0)) && Runs(b, [x, join, y], Pos(0, 0), 0)
    ensures !Settled([x, join, y], Pos(0, 0), 0, Unset)
  {
    assert [x, join, y][1..] == [join, y] && [join, y][1..] == [y] && [y][1..] == [];
    assert Ascending([y], Pos(1, 0));
    assert Ascending([join, y], Pos(0, 0));
    assert !Settled([y], Pos(1, 0), 2, Stale);
    assert NextShift(Pos(0, 0), 2, join) == 2;
    assert !Settled([join, y], Pos(0, 0), 2, Current);
  }

  lemma FromColumn(b: Lines, i: nat)
    requires i < |b|
    ensures From(b, Pos(i, 0)) == [b[i]] + b[i + 1..]
  {}

  lemma Rest(b: Lines, chunks: seq<Chunk>, at: Pos)
    requires InText(b, chunks) && Ascending(chunks, at) && chunks != []
    ensures InText(b, chunks[1..]) && IsChunk(chunks[0]) && Ascending(chunks[1..], At(chunks[0].end))
    ensures Before(at, At(chunks[0].start))
  {}

  lemma RepeatedAtOnce(b: Lines, x: Chunk, join: Chunk, y: Chunk)
    requires |b| >= 2 && Repeated(x, join, y)
    requires InText(b, [x, join, y]) && Ascending([x, join, y], Pos(0, 0))
    ensures Simultaneous(b, [x, join, y], Pos(0, 0)) == ["xxx" + b[1]] + b[2..]
  {
    hide Simultaneous, Between, Glue, From, InText, Ascending;
    var all := [x, join, y];
    assert all[1..] == [join, y] && [join, y][1..] == [y] && [y][1..] == [];
    Rest(b, all, Pos(0, 0));
    Rest(b, [join, y], Pos(0, 0));
    BetweenOnLine(b, Pos(1, 0), Pos(1, 0));
    BetweenOnLine(b, Pos(0, 0), Pos(0, 0));
    NoChunk(b, Pos(1, 0));
    FromColumn(b, 1);
    OneLineStep(b, [y], Pos(1, 0), "", "x", [b[1]] + b[2..]);
    assert "" + ("x" + b[1]) == "x" + b[1];
    OneLineStep(b, [join, y], Pos(0, 0), "", "", ["x" + b[1]] + b[2..]);
    assert "" + ("" + ("x" + b[1])) == "x" + b[1];
    OneLineStep(b, all, Pos(0, 0), "", "xx", ["x" + b[1]] + b[2..]);
    assert "" + ("xx" + ("x" + b[1])) == "xxx" + b[1];
  }

  lemma RepeatedEdits(b: Lines, x: Chunk, join: Chunk, y: Chunk)
    requires |b| >= 2 && Repeated(x, join, y)
    ensures Edited(b, x, 0, 0) == ["xx" + b[0]] + b[1..]
    ensures Edited(["xx" + b[0]] + b[1..], join, 0, 2) == ["xx" + b[1]] + b[2..]
    ensures Edited(["xx" + b[1]] + b[2..], y, -1, 0) == ["xxx" + b[1]] + b[2..]
  {
    hide Edited;
    assert b[0][..0] + ("xx" + b[0][0..]) == "xx" + b[0];
    EditedLines(b, x, 0, 0, ["xx" + b[0]] + b[1..]);
    var b1 := ["xx" + b[0]] + b[1..];
    assert b1[0][..2] + ("" + b1[1][0..]) == "xx" + b[1];
    EditedLines(b1, join, 0, 2, ["xx" + b[1]] + b[2..]);
    var b2 := ["xx" + b[1]] + b[2..];
    assert b2[0][..0] + ("x" + b2[0][0..]) == "xxx" + b[1];
    EditedLines(b2, y, -1, 0, ["xxx" + b[1]] + b[2..]);
  }

  lemma RepeatedTrack(x: Chunk, join: Chunk, y: Chunk)
    requires Repeated(x, join, y)
    ensures Used(START, x) == 0 && Next(START, x) == Track(1, 0, 2) && Used(Track(1, 0, 2), join) == 2
    ensures var t := Next(Track(1, 0, 2), join); t.lineDelta == -1 && Used(t, y) == 0
  {}

  /** A misplaced chunk does no harm, whatever the text, when it lands among letters like its own. */
  lemma UnsettledMayAgree(b: Lines, x: Chunk, join: Chunk, y: Chunk)
    requires |b| >= 2 && Repeated(x, join, y)
    ensures InText(b, [x, join, y]) && Ascending([x, join, y], Pos(0, 0)) && Runs(b, [x, join, y], Pos(0, 0), 0)
    ensures !Settled([x, join, y], Pos(0, 0), 0, Unset)
    ensures Patched(b, [x, join, y], Pos(0, 0), START) == Simultaneous(b, [x, join, y], Pos(0, 0))
  {
    hide Patched, Simultaneous, Edited, Glue, Next, Used, Settled, InText, Runs, Ascending;
    RepeatedList(b, x, join, y);
    RepeatedAtOnce(b, x, join, y);
    RepeatedEdits(b, x, join, y);
    RepeatedTrack(x, join, y);
    UnsettledInSequence(b, ["xx" + b[0]] + b[1..], ["xx" + b[1]] + b[2..], ["xxx" + b[1]] + b[2..],
                        x, join, y, Next(START, x));
  }

  // A misplaced insertion -------------------------------------------------------------------

  /** The text with `r` put in at `p`. */
  function PutIn(text: Lines, p: Pos, r: Lines): Lines
    requires Inside(text, p) && r != []
  {
    Glue(UpTo(text, p), Glue(r, From(text, p)))
  }

  lemma PutInLine(text: Lines, p: Pos, r: Lines)
    requires Inside(text, p) && r != []
    ensures |PutIn(text, p, r)| > p.line
    ensures PutIn(text, p, r)[p.line] ==
      text[p.line][..p.col] + (r[0] + if |r| == 1 then text[p.line][p.col..] else "")
  {
    hide Glue;
    GlueLine(UpTo(text, p), Glue(r, From(text, p)), p.line);
    GlueLine(r, From(text, p), 0);
    assert r[0] + "" == r[0];
  }

  /** Text that shares no letter with its line, or runs over several lines, shows where it was put in. */
  predicate Shows(text: Lines, line: nat, r: Lines)
    requires line < |text| && r != []
  {
    |r| > 1 || (r[0] != "" && r[0][0] !in text[line])
  }

  lemma PlaceShows(text: Lines, p: Pos, q: Pos, r: Lines)
    requires Inside(text, p) && Inside(text, q) && p.line == q.line && r != [] && Shows(text, p.line, r)
    ensures PutIn(text, p, r) == PutIn(text, q, r) <==> p == q
  {
    hide PutIn;
    PutInLine(text, p, r);
    PutInLine(text, q, r);
    var line := text[p.line];
    if p.col < q.col { ColumnShows(line, p.col, q.col, r); }
    if q.col < p.col { ColumnShows(line, q.col, p.col, r); }
  }

  lemma ColumnShows(line: string, i: nat, j: nat, r: Lines)
    requires i < j <= |line| && r != [] && (|r| > 1 || (r[0] != "" && r[0][0] !in line))
    ensures line[..i] + (r[0] + if |r| == 1 then line[i..] else "") !=
            line[..j] + (r[0] + if |r| == 1 then line[j..] else "")
  {
    var a, b := line[..i] + (r[0] + if |r| == 1 then line[i..] else ""),
                line[..j] + (r[0] + if |r| == 1 then line[j..] else "");
    if |r| == 1 {
      assert a[i] == r[0][0] && b[i] == line[i];
    } else {
      assert |a| < |b|;
    }
  }

  /** The variables of the loop behind all the chunks. */
  function TrackAfter(chunks: seq<Chunk>, t: Track): Track {
    if chunks == [] then t else TrackAfter(chunks[1..], Next(t, chunks[0]))
  }

  function EndAfter(chunks: seq<Chunk>, at: Pos): Pos
    requires Ascending(chunks, at)
  {
    if chunks == [] then at else EndAfter(chunks[1..], At(chunks[0].end))
  }

  function ShiftAfter(chunks: seq<Chunk>, at: Pos, shift: int): int
    requires Ascending(chunks, at)
  {
    if chunks == [] then shift else ShiftAfter(chunks[1..], At(chunks[0].end), NextShift(at, shift, chunks[0]))
  }

  predicate IsInsertion(c: Chunk) {
    IsChunk(c) && c.start == c.end
  }

  /** An insertion behind them, taken by itself. */
  lemma InsertionAtOnce(b: Lines, d: Lines, c: Chunk, at: Pos, shift: int, lineDelta: int)
    requires Split(b, d, at, shift, lineDelta) && InText(b, [c]) && Ascending([c], at) && IsInsertion(c)
    ensures var text, p := Glue(d, From(b, at)), Plus(EndOf(d), Minus(At(c.start), at));
            && Inside(text, p) && Glue(d, Simultaneous(b, [c], at)) == PutIn(text, p, Replacement(c))
            && p.line == At(c.start).line + lineDelta && p.col == At(c.start).col + Moved(at, shift, c)
  {
    hide From, UpTo, Glue, Replacement;
    var f, q := From(b, at), At(c.start);
    assert [c][0] == c && [c][1..] == [];
    NoChunk(b, q);
    InsideFrom(b, at, q);
    InsideGlue(d, f, Minus(q, at));
    GlueAssociative(d, Between(b, at, q), Glue(Replacement(c), From(b, q)));
  }

  lemma InsertionInSequence(text: Lines, c: Chunk, at: Pos, t: Track)
    requires Runs(text, [c], at, t.lineDelta) && IsInsertion(c)
    ensures LinesIn(text, c, t.lineDelta)
    ensures Patched(text, [c], at, t) == PutIn(text, StartIn(text, c, t.lineDelta, Used(t, c)), Replacement(c))
  {
    hide Glue, UpTo, From, Replacement, Used;
    assert [c][0] == c && [c][1..] == [];
    RunsOn(text, [c], at, t.lineDelta, Used(t, c));
    PatchedEnd(Edited(text, c, t.lineDelta, Used(t, c)), At(c.end), Next(t, c));
  }

  /** What the loop does with `c` in the text `text`, and where `c` belongs in it. */
  ghost predicate BothInsert(text: Lines, c: Chunk, at: Pos, shift: int, t: Track, looped: Lines, atOnce: Lines)
    requires IsInsertion(c)
  {
    var line, col := At(c.start).line + t.lineDelta, At(c.start).col + Moved(at, shift, c);
    && LinesIn(text, c, t.lineDelta) && line >= 0 && col >= 0 && Inside(text, Pos(line, col))
    && looped == PutIn(text, StartIn(text, c, t.lineDelta, Used(t, c)), Replacement(c))
    && atOnce == PutIn(text, Pos(line, col), Replacement(c))
  }

  /** Behind chunks that were applied in their places, both ways put `c` into the same text. */
  lemma {:induction false} LastOne(b: Lines, d: Lines, chunks: seq<Chunk>, c: Chunk, at: Pos, shift: int, t: Track)
    requires Split(b, d, at, shift, t.lineDelta) && InText(b, chunks + [c]) && Ascending(chunks + [c], at)
    requires Ascending(chunks, at) && InPlace(chunks, at, shift, t) && IsInsertion(c)
    requires Runs(Glue(d, From(b, at)), chunks + [c], at, t.lineDelta) && InText(b, chunks)
    ensures BothInsert(Glue(d, Simultaneous(b, chunks, at)), c, EndAfter(chunks, at), ShiftAfter(chunks, at, shift),
                       TrackAfter(chunks, t), Patched(Glue(d, From(b, at)), chunks + [c], at, t),
                       Glue(d, Simultaneous(b, chunks + [c], at)))
    decreases |chunks|
  {
    hide Glue, PutIn, Replacement, Used, Edited, StartIn, Moved, Between, BothInsert, Simultaneous, LinesIn, Split;
    SplitInside(b, d, at, shift, t.lineDelta);
    if chunks == [] {
      assert chunks + [c] == [c];
      OnlyOne(b, d, c, at, shift, t);
    } else {
      var x, all := chunks[0], chunks + [c];
      assert all[0] == x && all[1..] == chunks[1..] + [c];
      var text := Glue(d, From(b, at));
      var d' := Glue(Glue(d, Between(b, at, At(x.start))), Replacement(x));
      EditedInPlace(b, d, x, at, shift, t);
      RunsOn(text, all, at, t.lineDelta, Used(t, x));
      Onward(b, d, chunks, at);
      Onward(b, d, all, at);
      LastOne(b, d', chunks[1..], c, At(x.end), NextShift(at, shift, x), Next(t, x));
    }
  }

  lemma OnlyOne(b: Lines, d: Lines, c: Chunk, at: Pos, shift: int, t: Track)
    requires Split(b, d, at, shift, t.lineDelta) && InText(b, [c]) && Ascending([c], at) && IsInsertion(c)
    requires Runs(Glue(d, From(b, at)), [c], at, t.lineDelta)
    ensures BothInsert(Glue(d, Simultaneous(b, [], at)), c, at, shift, t, Patched(Glue(d, From(b, at)), [c], at, t),
                       Glue(d, Simultaneous(b, [c], at)))
  {
    hide Glue, PutIn, Replacement, Used, Edited, Between, Patched, From;
    NoChunk(b, at);
    InsertionAtOnce(b, d, c, at, shift, t.lineDelta);
    InsertionInSequence(Glue(d, From(b, at)), c, at, t);
  }

  /** A settled list and an insertion behind it. */
  ghost predicate LastInserts(b: Lines, chunks: seq<Chunk>, c: Chunk) {
    && b != [] && InText(b, chunks + [c]) && InText(b, chunks)
    && Ascending(chunks + [c], Pos(0, 0)) && Ascending(chunks, Pos(0, 0))
    && Settled(chunks, Pos(0, 0), 0, Unset) && IsInsertion(c)
  }

  /** The column the loop passes on for `c` and the one its text has moved to, both before Python's slice. */
  function ColumnUsed(chunks: seq<Chunk>, c: Chunk): int {
    c.start.columnNum - 1 + Used(TrackAfter(chunks, START), c)
  }

  function ColumnMoved(chunks: seq<Chunk>, c: Chunk): int
    requires Ascending(chunks, Pos(0, 0)) && IsChunk(c)
  {
    c.start.columnNum - 1 + Moved(EndAfter(chunks, Pos(0, 0)), ShiftAfter(chunks, Pos(0, 0), 0), c)
  }

  /** The line of the text, with all but `c` replaced, that `c` falls on. */
  function LineOf(chunks: seq<Chunk>, c: Chunk): int {
    c.start.lineNum - 1 + TrackAfter(chunks, START).lineDelta
  }

  /**
   A settled list and an insertion behind it, of text that shows in its line:
   the loop gives the text with everything replaced at once, if and only if the
   column it uses, as the slice cuts it, is the column the insertion has moved to.
   */
  lemma LastInsertionIff(b: Lines, chunks: seq<Chunk>, c: Chunk, text: Lines)
    requires LastInserts(b, chunks, c) && text == Simultaneous(b, chunks, Pos(0, 0))
    ensures Runs(b, chunks + [c], Pos(0, 0), 0) && 0 <= LineOf(chunks, c) < |text|
    ensures Shows(text, LineOf(chunks, c), Replacement(c)) ==>
      (Patched(b, chunks + [c], Pos(0, 0), START) == Simultaneous(b, chunks + [c], Pos(0, 0))
       <==> Cut(ColumnUsed(chunks, c), |text[LineOf(chunks, c)]|) == ColumnMoved(chunks, c))
  {
    hide Glue, PutIn, Replacement, Settled, InPlace, Used, Moved, Patched, Simultaneous, BothInsert, TrackAfter;
    var origin := Pos(0, 0);
    InPlaceIffSettled(chunks, origin, 0, Unset, START);
    NothingBefore(b);
    NothingBefore(text);
    NothingBefore(Simultaneous(b, chunks + [c], origin));
    assert From(b, origin) == b;
    LastOne(b, [""], chunks, c, origin, 0, START);
    BothShow(text, c, EndAfter(chunks, origin), ShiftAfter(chunks, origin, 0), TrackAfter(chunks, START),
             Patched(b, chunks + [c], origin, START), Simultaneous(b, chunks + [c], origin));
  }

  lemma BothShow(text: Lines, c: Chunk, at: Pos, shift: int, t: Track, looped: Lines, atOnce: Lines)
    requires IsInsertion(c) && BothInsert(text, c, at, shift, t, looped, atOnce)
    ensures 0 <= At(c.start).line + t.lineDelta < |text|
    ensures Shows(text, At(c.start).line + t.lineDelta, Replacement(c)) ==>
      (looped == atOnce <==> Cut(At(c.start).col + Used(t, c), |text[At(c.start).line + t.lineDelta]|) ==
                             At(c.start).col + Moved(at, shift, c))
  {
    hide PutIn, Replacement, Used, Moved, Shows;
    var p := StartIn(text, c, t.lineDelta, Used(t, c));
    var q := Pos(At(c.start).line + t.lineDelta, At(c.start).col + Moved(at, shift, c));
    if Shows(text, p.line, Replacement(c)) { PlaceShows(text, p, q, Replacement(c)); }
  }

  /** In a list that the last chunk alone unsettles, the loop uses the column of the original text. */
  lemma {:induction false} UnsettledByLast(chunks: seq<Chunk>, c: Chunk, at: Pos, shift: int, mode: Mode, t: Track)
    requires Ascending(chunks, at) && Ascending(chunks + [c], at) && Follows(t, at, shift, mode)
    requires Settled(chunks, at, shift, mode) && !Settled(chunks + [c], at, shift, mode)
    ensures IsChunk(c) && Used(TrackAfter(chunks, t), c) == 0
    ensures Moved(EndAfter(chunks, at), ShiftAfter(chunks, at, shift), c) != 0
    decreases |chunks|
  {
    var all := chunks + [c];
    if chunks == [] {
      assert all[0] == c && all[1..] == [];
    } else {
      var x := chunks[0];
      assert all[0] == x && all[1..] == chunks[1..] + [c];
      StepFollows(x, at, shift, mode, t);
      UnsettledByLast(chunks[1..], c, At(x.end), NextShift(at, shift, x), NextMode(mode, at, x), Next(t, x));
    }
  }

  /** So an insertion that alone unsettles the list and shows in its line spoils the text, unless the slice cuts it. */
  lemma UnsettledInsertionShows(b: Lines, chunks: seq<Chunk>, c: Chunk, text: Lines)
    requires LastInserts(b, chunks, c) && text == Simultaneous(b, chunks, Pos(0, 0))
    requires !Settled(chunks + [c], Pos(0, 0), 0, Unset)
    ensures Runs(b, chunks + [c], Pos(0, 0), 0) && 0 <= LineOf(chunks, c) < |text|
    ensures Shows(text, LineOf(chunks, c), Replacement(c)) && At(c.start).col <= |text[LineOf(chunks, c)]| ==>
      Patched(b, chunks + [c], Pos(0, 0), START) != Simultaneous(b, chunks + [c], Pos(0, 0))
  {
    hide Patched, Simultaneous, Settled, Used, Moved, TrackAfter, Shows, Runs;
    LastInsertionIff(b, chunks, c, text);
    UnsettledByLast(chunks, c, Pos(0, 0), 0, Unset, START);
  }
}
