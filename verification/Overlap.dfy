/**
 The overlap of a completion candidate with the text behind the cursor, found
 by a search that jumps from one occurrence to the next.
 */
module Overlap {

  /** The last `k` characters of `left` are the first `k` of `right`. */
  predicate Overlaps(left: string, right: string, k: nat) {
    k <= |left| && k <= |right| && left[|left| - k..] == right[..k]
  }

  ghost predicate IsGreatest(left: string, right: string, k: nat) {
    Overlaps(left, right, k) && forall m: nat :: Overlaps(left, right, m) ==> m <= k
  }

  predicate OccursAt(pattern: string, s: string, i: int) {
    0 <= i && i + |pattern| <= |s| && s[i..i + |pattern|] == pattern
  }

  /** `str.find` */
  method Find(s: string, pattern: string) returns (found: int)
    ensures found < 0 ==> forall i :: !OccursAt(pattern, s, i)
    ensures found >= 0 ==> OccursAt(pattern, s, found) && forall i :: OccursAt(pattern, s, i) ==> found <= i
  {
    found := 0;
    while found + |pattern| <= |s|
      invariant 0 <= found && forall i :: OccursAt(pattern, s, i) ==> found <= i
    {
      if s[found..found + |pattern|] == pattern { return; }
      found := found + 1;
    }
    found := -1;
  }

  /** `s[-n:]` for a positive `n` */
  function Last(s: string, n: nat): string {
    if n >= |s| then s else s[|s| - n..]
  }

  /** `s[:n]` */
  function First(s: string, n: nat): string {
    if n >= |s| then s else s[..n]
  }

  lemma Truncated(left: string, right: string, k: nat)
    ensures Overlaps(Last(left, |right|), First(right, |left|), k) <==> Overlaps(left, right, k)
  {
    var l, r := Last(left, |right|), First(right, |left|);
    if k <= |left| && k <= |right| {
      assert l[|l| - k..] == left[|left| - k..];
      assert r[..k] == right[..k];
    }
  }

  /** A longer overlap shows the pattern of a shorter one inside `right`. */
  lemma LongerShowsPattern(left: string, right: string, length: nat, k: nat)
    requires length <= k && Overlaps(left, right, k)
    ensures OccursAt(Last(left, length), right, k - length)
  {
    assert right[k - length..k] == right[..k][k - length..];
    assert left[|left| - length..] == left[|left| - k..][k - length..];
  }

  /** `OverlapLength` */
  method OverlapLength(left: string, right: string) returns (best: nat)
    ensures IsGreatest(left, right, best)
  {
    if left == "" || right == "" { return 0; }
    var leftString, rightString := left, right;
    if |left| > |right| {
      leftString := Last(left, |right|);
    } else if |left| < |right| {
      rightString := First(right, |left|);
    }
    forall k: nat ensures Overlaps(leftString, rightString, k) <==> Overlaps(left, right, k) {
      Truncated(left, right, k);
    }
    if leftString == rightString {
      assert Overlaps(leftString, rightString, |leftString|);
      return |leftString|;
    }
    best := SearchOverlap(leftString, rightString);
  }

  /** The jumping loop, on two different strings of one length. */
  method SearchOverlap(left: string, right: string) returns (best: nat)
    requires |left| == |right| && left != right
    ensures IsGreatest(left, right, best)
  {
    best := 0;
    var length := 1;
    while true
      invariant best < length <= |left| + 1 && Overlaps(left, right, best)
      invariant forall m: nat :: m < length && Overlaps(left, right, m) ==> m <= best
      decreases |left| + 1 - length
    {
      var pattern := Last(left, length);
      var found := Find(right, pattern);
      forall m: nat | length <= m && Overlaps(left, right, m)
        ensures 0 <= found <= m - length
      {
        LongerShowsPattern(left, right, length, m);
      }
      if found < 0 { return; }
      ghost var jumped := length;
      length := length + found;
      if Last(left, length) == First(right, length) {
        best := length;
        length := length + 1;
      }
    }
  }

  // Candidates -----------------------------------------------------------------------

  /** A candidate is a dictionary with a `word`, a bare string, or something the loop passes over. */
  datatype Candidate = Dict(fields: map<string, string>) | Str(text: string) | Other

  predicate HasWord(c: Candidate) {
    c.Dict? ==> "word" in c.fields
  }

  /** The text a candidate inserts. */
  function WordOf(c: Candidate): string
    requires HasWord(c) && !c.Other?
  {
    if c.Dict? then c.fields["word"] else c.text
  }

  /** `NewCandidateInsertionText` */
  method NewCandidateInsertionText(toInsert: string, textAfterCursor: string) returns (word: string)
    ensures ShortestFill(toInsert, textAfterCursor, word)
  {
    var overlapLen := OverlapLength(toInsert, textAfterCursor);
    word := toInsert;
    if overlapLen > 0 { word := toInsert[..|toInsert| - overlapLen]; }
    GreatestIsShortest(toInsert, textAfterCursor, overlapLen, word);
  }

  /** Of all beginnings of the candidate that the text completes to the whole candidate, the shortest. */
  ghost predicate ShortestFill(candidate: string, text: string, word: string) {
    && word <= candidate && candidate <= word + text
    && forall n :: 0 <= n < |word| ==> !(candidate <= candidate[..n] + text)
  }

  lemma GreatestIsShortest(candidate: string, text: string, k: nat, word: string)
    requires IsGreatest(candidate, text, k) && word == candidate[..|candidate| - k]
    ensures ShortestFill(candidate, text, word)
  {
    assert candidate == word + candidate[|candidate| - k..];
    assert candidate <= word + text by {
      assert (word + text)[..|candidate|] == word + text[..k];
    }
    forall n | 0 <= n < |word| ensures !(candidate <= candidate[..n] + text) {
      if candidate <= candidate[..n] + text {
        var m := |candidate| - n;
        assert candidate[n..] == (candidate[..n] + text)[n..|candidate|] == text[..m];
        assert Overlaps(candidate, text, m);
      }
    }
  }

  /** What becomes of one candidate. */
  ghost predicate Adjusted(c: Candidate, text: string, d: map<string, string>)
    requires HasWord(c) && !c.Other?
  {
    && "word" in d && ShortestFill(WordOf(c), text, d["word"])
    && "abbr" in d && d["abbr"] == (if c.Dict? && "abbr" in c.fields then c.fields["abbr"] else WordOf(c))
    && (forall k :: k in d && k != "word" && k != "abbr" <==> c.Dict? && k in c.fields && k != "word" && k != "abbr")
    && (forall k :: c.Dict? && k in c.fields && k != "word" ==> d[k] == c.fields[k])
  }

  function Kept(cs: seq<Candidate>): seq<Candidate> {
    if cs == [] then []
    else Kept(cs[..|cs| - 1]) + (if cs[|cs| - 1].Other? then [] else [cs[|cs| - 1]])
  }

  ghost predicate AllAdjusted(cs: seq<Candidate>, text: string, ds: seq<map<string, string>>)
    requires forall c :: c in cs ==> HasWord(c) && !c.Other?
  {
    |ds| == |cs| && forall i :: 0 <= i < |cs| ==> Adjusted(cs[i], text, ds[i])
  }

  lemma {:induction false} KeptHaveWords(cs: seq<Candidate>)
    requires forall c :: c in cs ==> HasWord(c)
    ensures forall c :: c in Kept(cs) ==> HasWord(c) && !c.Other?
  {
    if cs != [] { KeptHaveWords(cs[..|cs| - 1]); }
  }

  /**
   `AdjustCandidateInsertionText`. Without text behind the cursor the list comes
   back as it was.
   */
  method AdjustCandidateInsertionText(candidates: seq<Candidate>, textAfterCursor: string)
    returns (same: bool, newCandidates: seq<map<string, string>>)
    requires forall c :: c in candidates ==> HasWord(c)
    ensures same <==> textAfterCursor == ""
    ensures forall c :: c in Kept(candidates) ==> HasWord(c) && !c.Other?
    ensures !same ==> AllAdjusted(Kept(candidates), textAfterCursor, newCandidates)
  {
    KeptHaveWords(candidates);
    newCandidates := [];
    if textAfterCursor == "" { return true, []; }
    same := false;
    for i := 0 to |candidates|
      invariant forall c :: c in Kept(candidates[..i]) ==> HasWord(c) && !c.Other?
      invariant AllAdjusted(Kept(candidates[..i]), textAfterCursor, newCandidates)
    {
      var candidate := candidates[i];
      assert candidate in candidates;
      assert candidates[..i + 1][..i] == candidates[..i];
      if candidate.Dict? {
        var newCandidate := candidate.fields;
        if "abbr" !in newCandidate { newCandidate := newCandidate["abbr" := newCandidate["word"]]; }
        var word := NewCandidateInsertionText(newCandidate["word"], textAfterCursor);
        newCandidates := newCandidates + [newCandidate["word" := word]];
      } else if candidate.Str? {
        var word := NewCandidateInsertionText(candidate.text, textAfterCursor);
        newCandidates := newCandidates + [map["abbr" := candidate.text, "word" := word]];
      }
    }
    assert candidates[..|candidates|] == candidates;
  }
}
