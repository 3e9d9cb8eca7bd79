/**
 * Locating the JSON text in a model response (`performAnalysis`, scripts.js): the content of
 * the first ```` ```json ```` fenced block when it is non-empty, otherwise everything from the
 * first '{' through the last '}'. The fence regular expression
 * `/```json\s*([\s\S]*?)\s*```/` is written out as an explicit scan and proved against a
 * declarative description of what the regular expression matches and which match it prefers.
 */
module ResponseExtraction {
  import opened Options
  import opened Strings

  const FENCE_OPEN: string := "```json"
  const FENCE_CLOSE: string := "```"

  /**
   * One way the fence expression can match `s`: the opening fence at `open`, the captured
   * text `s[contentStart..contentEnd]`, and the closing fence at `close`; only whitespace lies
   * between the opening fence and the capture and between the capture and the closing fence.
   */
  datatype FenceMatch = FenceMatch(open: nat, contentStart: nat, contentEnd: nat, close: nat)

  predicate IsFenceMatch(s: string, m: FenceMatch)
  {
    && m.open + |FENCE_OPEN| <= m.contentStart <= m.contentEnd <= m.close
    && OccursAt(s, FENCE_OPEN, m.open)
    && OccursAt(s, FENCE_CLOSE, m.close)
    && AllSpace(s[m.open + |FENCE_OPEN|..m.contentStart])
    && AllSpace(s[m.contentEnd..m.close])
  }

  /**
   * The order in which the backtracking matcher tries matches: leftmost opening fence first,
   * then the longest leading `\s*`, then the shortest lazy capture.
   */
  predicate TriedFirst(m: FenceMatch, m': FenceMatch)
  {
    || m.open < m'.open
    || (m.open == m'.open && m.contentStart > m'.contentStart)
    || (m.open == m'.open && m.contentStart == m'.contentStart && m.contentEnd <= m'.contentEnd)
  }

  /** End of the whitespace run starting at `i`. */
  function SpaceRunEnd(s: string, i: nat): (r: nat)
    requires i <= |s|
    ensures i <= r <= |s| && AllSpace(s[i..r]) && (r == |s| || !IsSpace(s[r]))
    decreases |s| - i
  {
    if i < |s| && IsSpace(s[i]) then
      var r := SpaceRunEnd(s, i + 1);
      assert s[i..r] == [s[i]] + s[i + 1..r];
      r
    else i
  }

  /** The scan: the first opening fence, the first closing fence after it, whitespace trimmed between. */
  function FindFence(s: string): Option<FenceMatch>
  {
    match IndexOf(s, FENCE_OPEN, 0)
    case None => None
    case Some(q) =>
      match IndexOf(s, FENCE_CLOSE, q + |FENCE_OPEN|)
      case None => None
      case Some(g) => FenceBetween(s, q, g)
  }

  /** The match between an opening fence at `q` and a closing fence at `g`, whitespace trimmed at both ends of the capture. */
  function FenceBetween(s: string, q: nat, g: nat): Option<FenceMatch>
    requires q + |FENCE_OPEN| <= g <= |s|
  {
    var b := SpaceRunEnd(s, q + |FENCE_OPEN|);
    if b <= g then Some(FenceMatch(q, b, b + |TrimEnd(s[b..g])|, g)) else None
  }

  /** `markdownMatch[1]`, the text the fence expression captures, if it matches at all. */
  function FenceCapture(s: string): Option<string>
  {
    match FindFence(s)
    case None => None
    case Some(m) => if m.contentEnd <= |s| && m.contentStart <= m.contentEnd then Some(s[m.contentStart..m.contentEnd]) else None
  }

  lemma CloseStartsWithBacktick(s: string, g: nat)
    requires OccursAt(s, FENCE_CLOSE, g)
    ensures g < |s| && s[g] == '`'
  {
    assert s[g..g + 3][0] == s[g];
  }

  /** A whitespace run cannot run past a closing fence. */
  lemma RunStopsAtClose(s: string, i: nat, g: nat)
    requires i <= g && OccursAt(s, FENCE_CLOSE, g)
    ensures SpaceRunEnd(s, i) <= g
  {
    CloseStartsWithBacktick(s, g);
    var r := SpaceRunEnd(s, i);
  }

  /**
   * The scan finds exactly the match the regular expression reports: it is a match, every
   * match is tried no earlier than it, and when the scan finds nothing there is no match.
   */
  lemma FindFenceIsRegexMatch(s: string)
    ensures FindFence(s).Some? ==> IsFenceMatch(s, FindFence(s).value)
    ensures forall m | IsFenceMatch(s, m) :: FindFence(s).Some? && TriedFirst(FindFence(s).value, m)
  {
    var open := IndexOf(s, FENCE_OPEN, 0);
    if open.Some? && IndexOf(s, FENCE_CLOSE, open.value + 7).Some? {
      FoundIsMatch(s, open.value, IndexOf(s, FENCE_CLOSE, open.value + 7).value);
    }
    forall m | IsFenceMatch(s, m) ensures FindFence(s).Some? && TriedFirst(FindFence(s).value, m) {
      var q := FirstOpen(s, m);
      var g := FirstClose(s, q, m);
      PreferredOver(s, q, g, m);
    }
  }

  /** The fence pair the scan locates, with the whitespace trimmed inside it, is a match. */
  lemma FoundIsMatch(s: string, q: nat, g: nat)
    requires IndexOf(s, FENCE_OPEN, 0) == Some(q) && IndexOf(s, FENCE_CLOSE, q + 7) == Some(g)
    ensures FindFence(s).Some? && IsFenceMatch(s, FindFence(s).value)
  {
    RunStopsAtClose(s, q + 7, g);
    var b := SpaceRunEnd(s, q + 7);
    var x := s[b..g];
    var e := b + |TrimEnd(x)|;
    assert x[|TrimEnd(x)|..] == s[e..g];
    assert IsFenceMatch(s, FenceMatch(q, b, e, g));
    FindFenceAt(s, q, g, b, e);
  }

  /** What the scan returns once both fences are located. */
  lemma FindFenceAt(s: string, q: nat, g: nat, b: nat, e: nat)
    requires IndexOf(s, FENCE_OPEN, 0) == Some(q) && IndexOf(s, FENCE_CLOSE, q + 7) == Some(g)
    requires b == SpaceRunEnd(s, q + 7) && b <= g
    requires e == b + |TrimEnd(s[b..g])|
    ensures FindFence(s) == Some(FenceMatch(q, b, e, g))
  {
    FindFenceVia(s, q, g);
    FenceBetweenIs(s, q, g, b, e);
  }

  lemma FindFenceVia(s: string, q: nat, g: nat)
    requires IndexOf(s, FENCE_OPEN, 0) == Some(q) && IndexOf(s, FENCE_CLOSE, q + 7) == Some(g)
    ensures q + 7 <= g <= |s| && FindFence(s) == FenceBetween(s, q, g)
  {
  }

  lemma FenceBetweenIs(s: string, q: nat, g: nat, b: nat, e: nat)
    requires q + 7 <= g <= |s| && b == SpaceRunEnd(s, q + 7) && b <= g
    requires e == b + |TrimEnd(s[b..g])|
    ensures FenceBetween(s, q, g) == Some(FenceMatch(q, b, e, g))
  {
  }

  /** When anything matches, there is an opening fence, and the first one comes no later than the match's. */
  lemma FirstOpen(s: string, m: FenceMatch) returns (q: nat)
    requires IsFenceMatch(s, m)
    ensures IndexOf(s, FENCE_OPEN, 0) == Some(q) && q <= m.open
  {
    assert OccursAt(s, FENCE_OPEN, m.open);
    q := IndexOf(s, FENCE_OPEN, 0).value;
    FirstOccurrence(s, FENCE_OPEN, 0, q, m.open);
  }

  /** When anything matches, a closing fence follows the first opening fence. */
  lemma FirstClose(s: string, q: nat, m: FenceMatch) returns (g: nat)
    requires IsFenceMatch(s, m) && IndexOf(s, FENCE_OPEN, 0) == Some(q) && q <= m.open
    ensures IndexOf(s, FENCE_CLOSE, q + 7) == Some(g)
  {
    assert OccursAt(s, FENCE_CLOSE, m.close) && q + 7 <= m.close;
    g := IndexOf(s, FENCE_CLOSE, q + 7).value;
  }

  /** No occurrence at or after `from` precedes the one `indexOf` reports. */
  lemma FirstOccurrence(s: string, pat: string, from: nat, r: nat, k: nat)
    requires IndexOf(s, pat, from) == Some(r) && from <= k && OccursAt(s, pat, k)
    ensures r <= k
  {
  }

  /** Any match starts at or after the first opening fence, and, from the same fence, is tried no earlier. */
  lemma PreferredOver(s: string, q: nat, g: nat, m: FenceMatch)
    requires IndexOf(s, FENCE_OPEN, 0) == Some(q) && IndexOf(s, FENCE_CLOSE, q + 7) == Some(g)
    requires IsFenceMatch(s, m)
    ensures FindFence(s).Some? && TriedFirst(FindFence(s).value, m)
  {
    RunStopsAtClose(s, q + 7, g);
    var b := SpaceRunEnd(s, q + 7);
    var e := b + |TrimEnd(s[b..g])|;
    FindFenceAt(s, q, g, b, e);
    FirstOccurrence(s, FENCE_OPEN, 0, q, m.open);
    if m.open == q {
      RunIsLongest(s, q + 7, m.contentStart);
      if m.contentStart == b {
        CloseAtOrAfter(s, q, g, m);
        ShortestCapture(s, b, g, m);
      }
    }
  }

  /** A whitespace run from `i` extends at least as far as any all-whitespace slice from `i`. */
  lemma {:induction false} RunIsLongest(s: string, i: nat, c: nat)
    requires i <= c <= |s| && AllSpace(s[i..c])
    ensures c <= SpaceRunEnd(s, i)
    decreases c - i
  {
    if i < c {
      assert s[i..c][0] == s[i];
      assert s[i + 1..c] == s[i..c][1..];
      RunIsLongest(s, i + 1, c);
    }
  }

  /** From the same fence and the same start, the lazy capture ends where the trimmed text before the first closing fence ends. */
  lemma ShortestCapture(s: string, b: nat, g: nat, m: FenceMatch)
    requires b <= g <= m.close && OccursAt(s, FENCE_CLOSE, g)
    requires IsFenceMatch(s, m) && m.contentStart == b
    ensures b + |TrimEnd(s[b..g])| <= m.contentEnd
  {
    if m.contentEnd <= g {
      SameClose(s, g, m);
      var x := s[b..g];
      assert x[m.contentEnd - b..] == s[m.contentEnd..g];
      TrimEndShortest(x, m.contentEnd - b);
    }
  }

  /** A match whose capture ends before a closing fence that does not come after its own closes there. */
  lemma SameClose(s: string, g: nat, m: FenceMatch)
    requires OccursAt(s, FENCE_CLOSE, g)
    requires IsFenceMatch(s, m) && m.contentEnd <= g <= m.close
    ensures m.close == g
  {
    CloseStartsWithBacktick(s, g);
    SpaceWithin(s, m.contentEnd, m.close, g);
  }

  lemma SpaceWithin(s: string, i: nat, j: nat, k: nat)
    requires i <= j <= |s| && AllSpace(s[i..j])
    ensures i <= k < j ==> IsSpace(s[k])
  {
    if i <= k < j {
      assert s[i..j][k - i] == s[k];
    }
  }

  /** A match from the first opening fence closes no earlier than the first closing fence after it. */
  lemma CloseAtOrAfter(s: string, q: nat, g: nat, m: FenceMatch)
    requires IndexOf(s, FENCE_CLOSE, q + 7) == Some(g)
    requires IsFenceMatch(s, m) && m.open == q
    ensures g <= m.close
  {
    FirstOccurrence(s, FENCE_CLOSE, q + 7, g, m.close);
  }

  /** `s.substring(a, b)`: both ends are clamped to the string and swapped when `a > b`. */
  function Substring(s: string, a: nat, b: nat): string
  {
    var a' := if a < |s| then a else |s|;
    var b' := if b < |s| then b else |s|;
    if a' <= b' then s[a'..b'] else s[b'..a']
  }

  /** The fallback: from `indexOf('{')` through `lastIndexOf('}')`; `None` when either is absent. */
  function BraceSpan(s: string): Option<string>
  {
    match (IndexOf(s, "{", 0), LastIndexOf(s, '}'))
    case (Some(i), Some(j)) => Some(Substring(s, i, j + 1))
    case _ => None
  }

  /**
   * The string handed to `JSON.parse`, or `None` where `performAnalysis` throws
   * "The AI provided an invalid response".
   */
  function ExtractJson(text: string): Option<string>
  {
    match FenceCapture(text)
    case Some(c) => if c != "" then Some(c) else BraceSpan(text)
    case None => BraceSpan(text)
  }

  /** No fence with non-empty content: the brace search decides. */
  predicate NoUsableFence(text: string)
  {
    FenceCapture(text).None? || FenceCapture(text) == Some("")
  }

  /** Without a usable fence, extraction fails exactly when the text lacks a '{' or a '}'. */
  lemma ExtractionFailsIffBraceMissing(text: string)
    requires NoUsableFence(text)
    ensures ExtractJson(text).None? <==> ('{' !in text || '}' !in text)
  {
    IndexOfChar(text, '{');
  }

  /**
   * Without a usable fence, and with the first '{' at `i` before the last '}' at `j`, the
   * extracted text is `text[i..j + 1]`, braces included.
   */
  lemma BraceExtraction(text: string, i: nat, j: nat)
    requires NoUsableFence(text)
    requires i < j < |text|
    requires text[i] == '{' && '{' !in text[..i]
    requires text[j] == '}' && '}' !in text[j + 1..]
    ensures ExtractJson(text) == Some(text[i..j + 1])
  {
    FirstIsUnique(text, '{', i);
    LastIsUnique(text, '}', j);
  }

  /**
   * When the last '}' comes before the first '{', `substring` swaps its arguments and the
   * text strictly between them is handed to `JSON.parse`.
   */
  lemma ReversedBraces(text: string, i: nat, j: nat)
    requires NoUsableFence(text)
    requires j < i < |text|
    requires text[i] == '{' && '{' !in text[..i]
    requires text[j] == '}' && '}' !in text[j + 1..]
    ensures ExtractJson(text) == Some(text[j + 1..i])
  {
    FirstIsUnique(text, '{', i);
    LastIsUnique(text, '}', j);
  }

  lemma FirstIsUnique(text: string, c: char, i: nat)
    requires i < |text| && text[i] == c && c !in text[..i]
    ensures IndexOf(text, [c], 0) == Some(i)
  {
    IndexOfChar(text, c);
  }

  lemma LastIsUnique(text: string, c: char, j: nat)
    requires j < |text| && text[j] == c && c !in text[j + 1..]
    ensures LastIndexOf(text, c) == Some(j)
  {
  }

  /**
   * Round trip through a fenced block: prose without backticks, the opening fence, whitespace,
   * a JSON text that is trimmed and has no backtick, whitespace, the closing fence, then
   * anything. The JSON text comes back exactly.
   */
  lemma FencedRoundTrip(prose: string, w1: string, json: string, w2: string, rest: string, s: string)
    requires '`' !in prose && '`' !in json
    requires AllSpace(w1) && AllSpace(w2)
    requires json != "" && IsTrimmed(json)
    requires s == prose + FENCE_OPEN + w1 + json + w2 + FENCE_CLOSE + rest
    ensures ExtractJson(s) == Some(json)
  {
    var q, b, e, g := FencedLayout(prose, w1, json, w2, rest, s);
    BodyHasNoBacktick(w1, json, w2);
    FencedAt(s, q, b, e, g);
  }

  /** The capture of a laid-out fenced response is its content. */
  lemma FencedAt(s: string, q: nat, b: nat, e: nat, g: nat)
    requires OccursAt(s, FENCE_OPEN, q) && '`' !in s[..q]
    requires q + 7 <= b < e <= g && OccursAt(s, FENCE_CLOSE, g)
    requires '`' !in s[q + 7..g]
    requires AllSpace(s[q + 7..b]) && AllSpace(s[e..g]) && IsTrimmed(s[b..e])
    ensures ExtractJson(s) == Some(s[b..e])
  {
    OpenFenceFirst(s, q);
    CloseFenceFirst(s, q + 7, g);
    assert s[b..e][0] == s[b];
    assert s[b..e][e - b - 1] == s[e - 1];
    FenceFound(s, q, b, e, g);
    CaptureIsJson(s, FenceMatch(q, b, e, g));
  }

  /** Where each part of a fenced response sits. */
  lemma FencedLayout(prose: string, w1: string, json: string, w2: string, rest: string, s: string)
    returns (q: nat, b: nat, e: nat, g: nat)
    requires s == prose + FENCE_OPEN + w1 + json + w2 + FENCE_CLOSE + rest
    ensures q == |prose| && b == q + 7 + |w1| && e == b + |json| && g == e + |w2|
    ensures s[..q] == prose && OccursAt(s, FENCE_OPEN, q)
    ensures s[q + 7..b] == w1 && s[b..e] == json && s[e..g] == w2
    ensures s[q + 7..g] == w1 + json + w2
    ensures OccursAt(s, FENCE_CLOSE, g)
  {
    q := |prose|;
    b := q + 7 + |w1|;
    e := b + |json|;
    g := e + |w2|;
  }

  /** A located fence pair, whitespace run and trimmed content give the capture `s[b..e]`. */
  lemma FenceFound(s: string, q: nat, b: nat, e: nat, g: nat)
    requires IndexOf(s, FENCE_OPEN, 0) == Some(q) && IndexOf(s, FENCE_CLOSE, q + 7) == Some(g)
    requires q + 7 <= b < e <= g <= |s|
    requires AllSpace(s[q + 7..b]) && !IsSpace(s[b])
    requires AllSpace(s[e..g]) && !IsSpace(s[e - 1])
    ensures FindFence(s) == Some(FenceMatch(q, b, e, g))
  {
    SpaceRunIs(s, q + 7, b);
    PaddedContent(s, b, e, g);
    FindFenceAt(s, q, g, b, e);
  }

  /** A non-empty capture is what is handed to `JSON.parse`. */
  lemma CaptureIsJson(s: string, m: FenceMatch)
    requires FindFence(s) == Some(m) && m.contentStart < m.contentEnd <= |s|
    ensures ExtractJson(s) == Some(s[m.contentStart..m.contentEnd])
  {
  }

  lemma PaddedContent(s: string, b: nat, e: nat, g: nat)
    requires b < e <= g <= |s|
    requires AllSpace(s[e..g]) && !IsSpace(s[e - 1])
    ensures b + |TrimEnd(s[b..g])| == e
  {
    var x := s[b..g];
    assert x[..e - b] == s[b..e];
    assert x[e - b..] == s[e..g];
    TrimEndShortest(x, e - b);
    assert x[e - b - 1] == s[e - 1];
  }

  /** With no backtick before it, an opening fence is the first one. */
  lemma OpenFenceFirst(s: string, q: nat)
    requires OccursAt(s, FENCE_OPEN, q) && '`' !in s[..q]
    ensures IndexOf(s, FENCE_OPEN, 0) == Some(q)
  {
    forall k | 0 <= k < q ensures !OccursAt(s, FENCE_OPEN, k) {
      assert s[k] == s[..q][k];
      NotAtMismatch(s, FENCE_OPEN, k);
    }
    IndexOfIs(s, FENCE_OPEN, 0, q);
  }

  /** Padding and a JSON text without backticks contain no backtick. */
  lemma BodyHasNoBacktick(w1: string, json: string, w2: string)
    requires '`' !in json && AllSpace(w1) && AllSpace(w2)
    ensures '`' !in w1 + json + w2
  {
    assert !IsSpace('`');
  }

  /** With no backtick in `s[from..g]`, the first closing fence at or after `from` is at `g`. */
  lemma CloseFenceFirst(s: string, from: nat, g: nat)
    requires from <= g && OccursAt(s, FENCE_CLOSE, g) && '`' !in s[from..g]
    ensures IndexOf(s, FENCE_CLOSE, from) == Some(g)
  {
    forall k | from <= k < g ensures !OccursAt(s, FENCE_CLOSE, k) {
      assert s[k] == s[from..g][k - from];
      NotAtMismatch(s, FENCE_CLOSE, k);
    }
    IndexOfIs(s, FENCE_CLOSE, from, g);
  }

  lemma SpaceRunIs(s: string, i: nat, b: nat)
    requires i <= b < |s| && AllSpace(s[i..b]) && !IsSpace(s[b])
    ensures SpaceRunEnd(s, i) == b
    decreases b - i
  {
    if i < b {
      assert s[i..b][0] == s[i];
      assert s[i + 1..b] == s[i..b][1..];
      SpaceRunIs(s, i + 1, b);
    }
  }

  /**
   * Round trip without a fence: prose without braces, a JSON object text (from '{' to '}'),
   * then prose without braces, and no opening fence anywhere. The object text comes back exactly.
   */
  lemma UnfencedRoundTrip(prose: string, obj: string, trailer: string)
    requires '{' !in prose && '}' !in prose && '{' !in trailer && '}' !in trailer
    requires |obj| >= 2 && obj[0] == '{' && obj[|obj| - 1] == '}'
    requires !Contains(prose + obj + trailer, FENCE_OPEN)
    ensures ExtractJson(prose + obj + trailer) == Some(obj)
  {
    var s := prose + obj + trailer;
    var i := |prose|;
    var j := |prose| + |obj| - 1;
    assert s[..i] == prose;
    assert s[j + 1..] == trailer;
    assert s[i..j + 1] == obj;
    BraceExtraction(s, i, j);
  }
}
