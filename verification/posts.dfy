/**
 * `getPostsFromInput` (scripts.js): the text area's content becomes a list of posts.
 * When the text holds a blank line it is split on `/\n\s*\n+/`, otherwise on `/\n|\r\n/`;
 * every piece is trimmed and the empty ones are dropped.
 *
 * `String.prototype.split` with a regular expression is written out as the scan the
 * ECMAScript `@@split` algorithm performs: a pending piece grows one character at a time
 * until the separator matches at the current position, then the piece is emitted and the
 * scan resumes after the match.
 */
module PostSplitting {
  import opened Options
  import opened Strings
  import opened Sequences

  /** The two separator regular expressions of `getPostsFromInput`. */
  datatype Separator =
    | BlankLines  // /\n\s*\n+/
    | LineBreak   // /\n|\r\n/

  /**
   * Position of the last '\n' inside the whitespace run at the start of `t`, if any.
   * This is where the greedy `\s*` of `/\n\s*\n+/` gives back just enough for `\n+` to match.
   */
  function LastNewlineInRun(t: string): (r: Option<nat>)
    ensures r.Some? ==> r.value < |t| && t[r.value] == '\n' && AllSpace(t[..r.value + 1])
  {
    if t == [] || !IsSpace(t[0]) then None
    else match LastNewlineInRun(t[1..])
      case Some(j) => Some(j + 1)
      case None => if t[0] == '\n' then Some(0) else None
  }

  /** Length of the separator match that starts at the beginning of `t`, if the separator matches there. */
  function MatchLength(sep: Separator, t: string): (r: Option<nat>)
    ensures r.Some? ==> 0 < r.value <= |t| && AllSpace(t[..r.value])
    ensures r.Some? ==> t[0] == '\n' || t[0] == '\r'
  {
    if t == [] then None
    else match sep
      case LineBreak =>
        if t[0] == '\n' then Some(1)
        else if |t| >= 2 && t[0] == '\r' && t[1] == '\n' then Some(2)
        else None
      case BlankLines =>
        if t[0] != '\n' then None
        else match LastNewlineInRun(t[1..])
          case Some(j) =>
            assert t[..j + 2] == [t[0]] + t[1..][..j + 1];
            Some(j + 2)
          case None => None
  }

  /** The split scan: `piece` is what has been read since the last separator, `t` what is left. */
  function SplitRest(sep: Separator, piece: string, t: string): seq<string>
    decreases |t|
  {
    if t == [] then [piece]
    else match MatchLength(sep, t)
      case None => SplitRest(sep, piece + [t[0]], t[1..])
      case Some(n) => [piece] + SplitRest(sep, "", t[n..])
  }

  /** `s.split(sep)`. */
  function Split(sep: Separator, s: string): seq<string>
  {
    SplitRest(sep, "", s)
  }

  /** The separator `getPostsFromInput` chooses for a text. */
  function SeparatorFor(rawText: string): Separator
  {
    if Contains(rawText, "\n\n") || Contains(rawText, "\r\n\r\n") then BlankLines else LineBreak
  }

  /** `xs.map(p => p.trim())`. */
  function TrimAll(xs: seq<string>): (r: seq<string>)
    ensures |r| == |xs| && forall i | 0 <= i < |xs| :: r[i] == Trim(xs[i])
  {
    seq(|xs|, i requires 0 <= i < |xs| => Trim(xs[i]))
  }

  /** `getPostsFromInput(rawText)`. */
  function PostsFromInput(rawText: string): seq<string>
  {
    DropEmpty(TrimAll(Split(SeparatorFor(rawText), rawText)))
  }

  /** No blank line (a '\n', whitespace, another '\n') starts anywhere in `s`. */
  predicate HasNoBlankLine(s: string)
  {
    forall k | 0 <= k < |s| :: MatchLength(BlankLines, s[k..]).None?
  }

  /** What every post satisfies: non-empty, trimmed, and free of blank lines. */
  predicate IsCleanPost(p: string)
  {
    p != "" && IsTrimmed(p) && HasNoBlankLine(p)
  }

  // ---------------------------------------------------------------------------
  // Facts about the separators

  /** Appending text can only lengthen the leading whitespace run, so a '\n' found there stays found. */
  lemma {:induction false} LastNewlineExtends(u: string, b: string)
    requires LastNewlineInRun(u).Some?
    ensures LastNewlineInRun(u + b).Some?
  {
    assert (u + b)[1..] == u[1..] + b;
    if LastNewlineInRun(u[1..]).Some? {
      LastNewlineExtends(u[1..], b);
    }
  }

  /** When `u` holds a non-whitespace character, the run at its start ends inside `u`, whatever follows. */
  lemma {:induction false} LastNewlineStops(u: string, b: string, m: nat)
    requires m < |u| && !IsSpace(u[m])
    ensures LastNewlineInRun(u + b) == LastNewlineInRun(u)
    decreases m
  {
    assert (u + b)[0] == u[0];
    if m > 0 && IsSpace(u[0]) {
      assert (u + b)[1..] == u[1..] + b;
      LastNewlineStops(u[1..], b, m - 1);
    }
  }

  lemma BlankLineExtends(u: string, b: string)
    requires MatchLength(BlankLines, u).Some?
    ensures MatchLength(BlankLines, u + b).Some?
  {
    assert (u + b)[1..] == u[1..] + b;
    LastNewlineExtends(u[1..], b);
  }

  /** Contrapositive of BlankLineExtends: no separator at the start of `u + b` means none at the start of `u`. */
  lemma NoBlankLineShrinks(u: string, b: string)
    requires MatchLength(BlankLines, u + b).None?
    ensures MatchLength(BlankLines, u).None?
  {
    if MatchLength(BlankLines, u).Some? {
      BlankLineExtends(u, b);
    }
  }

  /** A string with no blank line keeps none after `trim`. */
  lemma TrimKeepsNoBlankLine(s: string)
    requires HasNoBlankLine(s)
    ensures HasNoBlankLine(Trim(s))
  {
    var i, j := TrimSlice(s);
    SliceKeepsNoBlankLine(s, i, j);
  }

  /** A slice of a string with no blank line has none. */
  lemma SliceKeepsNoBlankLine(s: string, i: nat, j: nat)
    requires HasNoBlankLine(s) && i <= j <= |s|
    ensures HasNoBlankLine(s[i..j])
  {
    var t := s[i..j];
    forall k | 0 <= k < |t| ensures MatchLength(BlankLines, t[k..]).None? {
      assert t[k..] + s[j..] == s[i + k..];
      assert MatchLength(BlankLines, s[i + k..]).None?;
      NoBlankLineShrinks(t[k..], s[j..]);
    }
  }

  /** A string without '\n' contains no blank line. */
  lemma NoNewlineNoBlankLine(s: string)
    requires '\n' !in s
    ensures HasNoBlankLine(s)
  {
    forall k | 0 <= k < |s| ensures MatchLength(BlankLines, s[k..]).None? {
      assert s[k..][0] == s[k];
    }
  }

  /**
   * `/\n|\r\n/` at the start of `t`: a one-character match exactly when `t` starts with '\n',
   * a two-character match exactly when it starts with "\r\n", and no match otherwise.
   */
  lemma LineBreakMatch(t: string)
    ensures MatchLength(LineBreak, t) == Some(1) <==> |t| >= 1 && t[0] == '\n'
    ensures MatchLength(LineBreak, t) == Some(2) <==> |t| >= 2 && t[0] == '\r' && t[1] == '\n'
    ensures MatchLength(LineBreak, t).Some? ==> MatchLength(LineBreak, t) == Some(1) || MatchLength(LineBreak, t) == Some(2)
  {
  }

  /**
   * `u` begins with a whitespace run that holds a '\n': some '\n' in `u` has only whitespace
   * before it.
   */
  predicate NewlineInRun(u: string)
  {
    exists k | 0 <= k < |u| :: u[k] == '\n' && AllSpace(u[..k])
  }

  /**
   * `LastNewlineInRun` finds a '\n' exactly when the leading whitespace run of `u` holds one,
   * and the one it finds is the last '\n' of that run.
   */
  lemma {:induction false} LastNewlineInRunIsLast(u: string)
    ensures LastNewlineInRun(u).Some? <==> NewlineInRun(u)
    ensures LastNewlineInRun(u).Some? ==>
              forall k | LastNewlineInRun(u).value < k < |u| && AllSpace(u[..k]) :: u[k] != '\n'
  {
    if u != [] && IsSpace(u[0]) {
      var v := u[1..];
      LastNewlineInRunIsLast(v);
      forall k | 1 <= k <= |u| ensures AllSpace(u[..k]) <==> AllSpace(v[..k - 1]) {
        assert u[..k] == [u[0]] + v[..k - 1];
      }
      if NewlineInRun(v) {
        var k :| 0 <= k < |v| && v[k] == '\n' && AllSpace(v[..k]);
        assert u[k + 1] == '\n' && AllSpace(u[..k + 1]);
      }
      if LastNewlineInRun(u).Some? {
        if u[0] == '\n' {
          assert AllSpace(u[..0]);
        }
      }
    } else if u != [] {
      forall k | 0 < k < |u| ensures !AllSpace(u[..k]) {
        assert u[..k][0] == u[0];
      }
    }
  }

  /**
   * `/\n\s*\n+/` at the start of `t`: it matches exactly when `t` starts with '\n' followed by
   * a whitespace run that holds another '\n'. The greedy `\s*` makes the match end just after
   * the last '\n' of that run: no '\n' follows inside the run.
   */
  lemma BlankLinesMatch(t: string)
    ensures MatchLength(BlankLines, t).Some? <==>
              |t| >= 2 && t[0] == '\n' && exists k | 1 <= k < |t| :: t[k] == '\n' && AllSpace(t[1..k])
    ensures MatchLength(BlankLines, t).Some? ==>
              var n := MatchLength(BlankLines, t).value;
              && 2 <= n && t[n - 1] == '\n' && AllSpace(t[..n])
              && forall k | n <= k < |t| && AllSpace(t[1..k]) :: t[k] != '\n'
  {
    if |t| >= 1 && t[0] == '\n' {
      var u := t[1..];
      LastNewlineInRunIsLast(u);
      forall k | 1 <= k <= |t| ensures t[1..k] == u[..k - 1] {
      }
      if NewlineInRun(u) {
        var j :| 0 <= j < |u| && u[j] == '\n' && AllSpace(u[..j]);
        assert t[j + 1] == '\n' && AllSpace(t[1..j + 1]);
      }
      if exists k | 1 <= k < |t| :: t[k] == '\n' && AllSpace(t[1..k]) {
        var k :| 1 <= k < |t| && t[k] == '\n' && AllSpace(t[1..k]);
        assert u[k - 1] == '\n' && AllSpace(u[..k - 1]);
      }
    }
  }

  // ---------------------------------------------------------------------------
  // Facts about the pieces of a split

  /** With the line-break separator every '\n' is a split point, so no piece contains one. */
  lemma {:induction false} LineBreakPiecesHaveNoNewline(piece: string, t: string)
    requires '\n' !in piece
    ensures forall x | x in SplitRest(LineBreak, piece, t) :: '\n' !in x
    decreases |t|
  {
    if t != [] {
      match MatchLength(LineBreak, t)
      case None =>
        LineBreakPiecesHaveNoNewline(piece + [t[0]], t[1..]);
      case Some(n) =>
        LineBreakPiecesHaveNoNewline("", t[n..]);
    }
  }

  /** No blank line starts in the pending piece, given what follows it. */
  predicate NoBlankLineBefore(piece: string, t: string)
  {
    forall k | 0 <= k < |piece| :: MatchLength(BlankLines, piece[k..] + t).None?
  }

  /** With the blank-line separator no piece contains a blank line: each one would have been a split point. */
  lemma {:induction false} BlankLinePiecesAreFree(piece: string, t: string)
    requires NoBlankLineBefore(piece, t)
    ensures forall x | x in SplitRest(BlankLines, piece, t) :: HasNoBlankLine(x)
    decreases |t|
  {
    if t == [] {
      forall k | 0 <= k < |piece| ensures MatchLength(BlankLines, piece[k..]).None? {
        assert piece[k..] + t == piece[k..];
      }
    } else {
      match MatchLength(BlankLines, t)
      case None =>
        var p' := piece + [t[0]];
        forall k | 0 <= k < |p'| ensures MatchLength(BlankLines, p'[k..] + t[1..]).None? {
          assert p'[k..] + t[1..] == if k < |piece| then piece[k..] + t else t;
        }
        BlankLinePiecesAreFree(p', t[1..]);
      case Some(n) =>
        forall k | 0 <= k < |piece| ensures MatchLength(BlankLines, piece[k..]).None? {
          NoBlankLineShrinks(piece[k..], t);
        }
        BlankLinePiecesAreFree("", t[n..]);
    }
  }

  /** Every post is non-empty, trimmed (so `trim` leaves it unchanged) and free of blank lines. */
  lemma PostsAreClean(rawText: string)
    ensures forall p | p in PostsFromInput(rawText) :: IsCleanPost(p) && Trim(p) == p
  {
    var sep := SeparatorFor(rawText);
    var pieces := Split(sep, rawText);
    var trimmed := TrimAll(pieces);
    forall i | 0 <= i < |pieces| ensures HasNoBlankLine(trimmed[i]) && IsTrimmed(trimmed[i]) {
      var i', j' := TrimSlice(pieces[i]);
      if sep == LineBreak {
        LineBreakPiecesHaveNoNewline("", rawText);
        TrimSubset(pieces[i], '\n');
        NoNewlineNoBlankLine(trimmed[i]);
      } else {
        BlankLinePiecesAreFree("", rawText);
        TrimKeepsNoBlankLine(pieces[i]);
      }
    }
    forall p | p in PostsFromInput(rawText) ensures IsCleanPost(p) && Trim(p) == p {
      TrimFixedPoints(p);
    }
  }

  /** Without a blank line in the text (`\n\n` or `\r\n\r\n`), no post contains a line break. */
  lemma NoBlankLineMeansSingleLinePosts(rawText: string)
    requires !Contains(rawText, "\n\n") && !Contains(rawText, "\r\n\r\n")
    ensures forall p | p in PostsFromInput(rawText) :: '\n' !in p
  {
    var pieces := Split(LineBreak, rawText);
    LineBreakPiecesHaveNoNewline("", rawText);
    forall i | 0 <= i < |pieces| ensures '\n' !in TrimAll(pieces)[i] {
      TrimSubset(pieces[i], '\n');
    }
  }

  // ---------------------------------------------------------------------------
  // No content is lost: only whitespace is removed

  /** The non-whitespace characters of `s`, in order. */
  function NonSpace(s: string): string
  {
    if s == [] then []
    else if IsSpace(s[0]) then NonSpace(s[1..])
    else [s[0]] + NonSpace(s[1..])
  }

  lemma {:induction false} NonSpaceAppend(a: string, b: string)
    ensures NonSpace(a + b) == NonSpace(a) + NonSpace(b)
  {
    if a != [] {
      assert (a + b)[1..] == a[1..] + b;
      NonSpaceAppend(a[1..], b);
    } else {
      assert a + b == b;
    }
  }

  lemma {:induction false} NonSpaceEmpty(s: string)
    ensures NonSpace(s) == [] <==> AllSpace(s)
  {
    if s != [] {
      NonSpaceEmpty(s[1..]);
      assert forall i | 1 <= i < |s| :: s[i] == s[1..][i - 1];
    }
  }

  lemma NonSpaceTrim(s: string)
    ensures NonSpace(Trim(s)) == NonSpace(s)
  {
    var i, j := TrimSlice(s);
    NonSpaceSlices(s, i, j);
  }

  lemma NonSpaceSlices(s: string, i: nat, j: nat)
    requires i <= j <= |s| && AllSpace(s[..i]) && AllSpace(s[j..])
    ensures NonSpace(s[i..j]) == NonSpace(s)
  {
    var t := s[i..];
    LeadingSpaceHasNoContent(s, i);
    assert t[..j - i] == s[i..j] && t[j - i..] == s[j..];
    TrailingSpaceHasNoContent(t, j - i);
  }

  lemma {:induction false} LeadingSpaceHasNoContent(s: string, i: nat)
    requires i <= |s| && AllSpace(s[..i])
    ensures NonSpace(s[i..]) == NonSpace(s)
    decreases i
  {
    if i == 0 {
      assert s[0..] == s;
    } else {
      var u := s[1..];
      assert IsSpace(s[..i][0]) && s[..i][0] == s[0];
      assert u[..i - 1] == s[..i][1..];
      LeadingSpaceHasNoContent(u, i - 1);
      assert u[i - 1..] == s[i..];
    }
  }

  lemma TrailingSpaceHasNoContent(s: string, j: nat)
    requires j <= |s| && AllSpace(s[j..])
    ensures NonSpace(s[..j]) == NonSpace(s)
  {
    assert s == s[..j] + s[j..];
    NonSpaceAppend(s[..j], s[j..]);
    NonSpaceEmpty(s[j..]);
  }

  /** Splitting only removes separators, which are whitespace. */
  lemma {:induction false} SplitRestKeepsContent(sep: Separator, piece: string, t: string)
    ensures NonSpace(Concat(SplitRest(sep, piece, t))) == NonSpace(piece + t)
    decreases |t|
  {
    if t == [] {
      assert Concat([piece]) == piece + Concat([piece][1..]);
      assert piece + t == piece;
    } else {
      match MatchLength(sep, t)
      case None =>
        assert piece + [t[0]] + t[1..] == piece + t;
        SplitRestKeepsContent(sep, piece + [t[0]], t[1..]);
      case Some(n) =>
        var rest := SplitRest(sep, "", t[n..]);
        SplitRestKeepsContent(sep, "", t[n..]);
        assert "" + t[n..] == t[n..];
        SeparatorDropsNoContent(piece, t, n, rest);
        assert SplitRest(sep, piece, t) == [piece] + rest;
    }
  }

  /** Emitting `piece` at a whitespace separator of length `n` loses no content. */
  lemma SeparatorDropsNoContent(piece: string, t: string, n: nat, rest: seq<string>)
    requires n <= |t| && AllSpace(t[..n]) && NonSpace(Concat(rest)) == NonSpace(t[n..])
    ensures NonSpace(Concat([piece] + rest)) == NonSpace(piece + t)
  {
    ConcatCons(piece, rest);
    NonSpaceAppend(piece, Concat(rest));
    NonSpaceAppend(piece, t);
    NonSpaceSlices(t, n, |t|);
    assert t[n..|t|] == t[n..];
  }

  lemma ConcatCons(x: string, xs: seq<string>)
    ensures Concat([x] + xs) == x + Concat(xs)
  {
    assert ([x] + xs)[1..] == xs;
  }

  lemma {:induction false} TrimAllKeepsContent(xs: seq<string>)
    ensures NonSpace(Concat(TrimAll(xs))) == NonSpace(Concat(xs))
  {
    if xs != [] {
      assert TrimAll(xs)[1..] == TrimAll(xs[1..]);
      TrimAllKeepsContent(xs[1..]);
      NonSpaceAppend(Trim(xs[0]), Concat(TrimAll(xs[1..])));
      NonSpaceAppend(xs[0], Concat(xs[1..]));
      NonSpaceTrim(xs[0]);
    }
  }

  lemma {:induction false} DropEmptyKeepsContent(xs: seq<string>)
    ensures Concat(DropEmpty(xs)) == Concat(xs)
  {
    if xs != [] {
      DropEmptyKeepsContent(xs[1..]);
      if xs[0] != "" {
        assert ([xs[0]] + DropEmpty(xs[1..]))[1..] == DropEmpty(xs[1..]);
      }
    }
  }

  /**
   * The posts hold exactly the non-whitespace characters of the input, in order:
   * splitting, trimming and dropping empty pieces discard whitespace and nothing else.
   */
  lemma PostsKeepContent(rawText: string)
    ensures NonSpace(Concat(PostsFromInput(rawText))) == NonSpace(rawText)
  {
    var pieces := Split(SeparatorFor(rawText), rawText);
    SplitRestKeepsContent(SeparatorFor(rawText), "", rawText);
    assert "" + rawText == rawText;
    TrimAllKeepsContent(pieces);
    DropEmptyKeepsContent(TrimAll(pieces));
  }

  /** The input yields no post exactly when it is blank; then `performAnalysis` refuses to start. */
  lemma NoPostsIffBlank(rawText: string)
    ensures PostsFromInput(rawText) == [] <==> AllSpace(rawText)
  {
    PostsKeepContent(rawText);
    NonSpaceEmpty(rawText);
    PostsAreClean(rawText);
    var posts := PostsFromInput(rawText);
    if posts != [] {
      assert IsCleanPost(posts[0]);
      FirstPostHasContent(posts);
    }
  }

  /** A list whose first post starts with a non-whitespace character has some content. */
  lemma FirstPostHasContent(posts: seq<string>)
    requires posts != [] && posts[0] != "" && !IsSpace(posts[0][0])
    ensures NonSpace(Concat(posts)) != []
  {
    var p := posts[0];
    assert Concat(posts) == p + Concat(posts[1..]);
    NonSpaceAppend(p, Concat(posts[1..]));
    assert p == [p[0]] + p[1..];
    NonSpaceAppend([p[0]], p[1..]);
    assert NonSpace([p[0]]) == [p[0]] + NonSpace([]);
  }

  // ---------------------------------------------------------------------------
  // Re-reading joined posts: the CSV import writes `posts.join('\n\n')` into the text area

  /** A prefix `x` in which no separator starts is read into the pending piece whole. */
  lemma {:induction false} SplitAbsorbs(sep: Separator, piece: string, x: string, b: string)
    requires forall k | 0 <= k < |x| :: MatchLength(sep, x[k..] + b).None?
    ensures SplitRest(sep, piece, x + b) == SplitRest(sep, piece + x, b)
    decreases |x|
  {
    if x == [] {
      assert x + b == b;
      assert piece + x == piece;
    } else {
      assert (x + b)[0] == x[0];
      assert (x + b)[1..] == x[1..] + b;
      assert x[0..] + b == x + b;
      forall k | 0 <= k < |x[1..]| ensures MatchLength(sep, x[1..][k..] + b).None? {
        assert x[1..][k..] == x[k + 1..];
      }
      SplitAbsorbs(sep, piece + [x[0]], x[1..], b);
      assert piece + [x[0]] + x[1..] == piece + x;
    }
  }

  /** In a clean post followed by anything, no blank-line separator starts. */
  lemma CleanPostAbsorbs(x: string, b: string)
    requires IsCleanPost(x)
    ensures forall k | 0 <= k < |x| :: MatchLength(BlankLines, x[k..] + b).None?
  {
    forall k | 0 <= k < |x| ensures MatchLength(BlankLines, x[k..] + b).None? {
      assert (x[k..] + b)[0] == x[k];
      if x[k] == '\n' {
        assert k < |x| - 1;
        assert (x[k..] + b)[1..] == x[k + 1..] + b;
        LastNewlineStops(x[k + 1..], b, |x| - 1 - (k + 1));
        assert MatchLength(BlankLines, x[k..]).None?;
      }
    }
  }

  lemma JoinStartsWith(posts: seq<string>, sep: string)
    requires |posts| > 0 && posts[0] != ""
    ensures |Join(posts, sep)| > 0 && Join(posts, sep)[0] == posts[0][0]
  {
  }

  /** Splitting the joined clean posts on blank lines gives the posts back. */
  lemma {:induction false} SplitJoined(posts: seq<string>)
    requires |posts| > 0
    requires forall i | 0 <= i < |posts| :: IsCleanPost(posts[i])
    ensures Split(BlankLines, Join(posts, "\n\n")) == posts
  {
    var x := posts[0];
    if |posts| == 1 {
      assert Join(posts, "\n\n") == x;
      CleanPostAbsorbs(x, "");
      assert x + "" == x;
      assert "" + x == x;
      SplitAbsorbs(BlankLines, "", x, "");
    } else {
      var rest := Join(posts[1..], "\n\n");
      var b := "\n\n" + rest;
      assert Join(posts, "\n\n") == x + b;
      CleanPostAbsorbs(x, b);
      SplitAbsorbs(BlankLines, "", x, b);
      JoinStartsWith(posts[1..], "\n\n");
      assert b[1..] == "\n" + rest;
      assert LastNewlineInRun(b[1..]) == Some(0) by {
        assert b[1..][1..] == rest;
      }
      assert b[2..] == rest;
      SplitJoined(posts[1..]);
      assert "" + x == x;
    }
  }

  /**
   * Posts survive being joined with blank lines and read back, unless there is exactly one
   * post and it spans several lines: that text has no blank line, so it is re-read line by line.
   */
  lemma JoinedPostsRoundTrip(posts: seq<string>)
    requires forall i | 0 <= i < |posts| :: IsCleanPost(posts[i])
    requires |posts| == 1 ==> '\n' !in posts[0]
    ensures PostsFromInput(Join(posts, "\n\n")) == posts
  {
    if |posts| == 0 {
      assert Split(SeparatorFor(""), "") == [""];
      assert TrimAll([""]) == [""];
    } else if |posts| == 1 {
      SinglePostRoundTrip(posts[0]);
    } else {
      SeveralPostsRoundTrip(posts);
    }
  }

  lemma SinglePostRoundTrip(x: string)
    requires IsCleanPost(x) && '\n' !in x
    ensures PostsFromInput(Join([x], "\n\n")) == [x]
  {
    assert Join([x], "\n\n") == x;
    NewlineFreeLacks(x, "\n\n", 0);
    NewlineFreeLacks(x, "\r\n\r\n", 1);
    forall k | 0 <= k < |x| ensures MatchLength(LineBreak, x[k..] + "").None? {
      assert x[k..] + "" == x[k..];
      if k + 1 < |x| { assert x[k..][1] == x[k + 1]; }
    }
    SplitAbsorbs(LineBreak, "", x, "");
    assert x + "" == x;
    assert "" + x == x;
    TrimmedIsFixed(x);
    assert TrimAll([x]) == [x];
  }

  /** A text without '\n' contains no pattern that has one. */
  lemma NewlineFreeLacks(x: string, pat: string, m: nat)
    requires '\n' !in x && m < |pat| && pat[m] == '\n'
    ensures !Contains(x, pat)
  {
    forall k | 0 <= k ensures !OccursAt(x, pat, k) {
      if k + |pat| <= |x| {
        assert x[k..k + |pat|][m] == x[k + m];
      }
    }
  }

  lemma SeveralPostsRoundTrip(posts: seq<string>)
    requires |posts| >= 2
    requires forall i | 0 <= i < |posts| :: IsCleanPost(posts[i])
    ensures PostsFromInput(Join(posts, "\n\n")) == posts
  {
    var text := Join(posts, "\n\n");
    JoinedHasBlankLine(posts);
    SplitJoined(posts);
    PostsOfCleanPieces(text, BlankLines, posts);
  }

  /** Two or more posts joined by "\n\n" contain "\n\n", so they are split on blank lines. */
  lemma JoinedHasBlankLine(posts: seq<string>)
    requires |posts| >= 2
    ensures SeparatorFor(Join(posts, "\n\n")) == BlankLines
  {
    var text := Join(posts, "\n\n");
    assert text == posts[0] + "\n\n" + Join(posts[1..], "\n\n");
    assert OccursAt(text, "\n\n", |posts[0]|);
  }

  /**
   * The exception: a single clean post that spans lines, once written back to the text area,
   * holds no blank line, so it is split line by line and does not come back as itself.
   */
  lemma SingleMultiLinePostIsReSplit(x: string)
    requires IsCleanPost(x) && '\n' in x
    ensures PostsFromInput(Join([x], "\n\n")) != [x]
  {
    JoinSingle(x, "\n\n");
    CleanHasNoDoubleBreak(x);
    NoBlankLineMeansSingleLinePosts(x);
    NotSingletonOf(PostsFromInput(x), x);
  }

  /** Clean posts joined by "\n\n" read back as themselves exactly when they are not one post spanning lines. */
  lemma JoinedPostsRoundTripIff(posts: seq<string>)
    requires forall i | 0 <= i < |posts| :: IsCleanPost(posts[i])
    ensures PostsFromInput(Join(posts, "\n\n")) == posts <==> !(|posts| == 1 && '\n' in posts[0])
  {
    if |posts| == 1 && '\n' in posts[0] {
      SingleMultiLinePostIsReSplit(posts[0]);
      assert posts == [posts[0]];
    } else {
      JoinedPostsRoundTrip(posts);
    }
  }

  /** A clean post contains neither "\n\n" nor "\r\n\r\n": both start a blank-line match. */
  lemma CleanHasNoDoubleBreak(x: string)
    requires IsCleanPost(x)
    ensures !Contains(x, "\n\n") && !Contains(x, "\r\n\r\n")
  {
    forall k | 0 <= k ensures !OccursAt(x, "\n\n", k) {
      if k + 2 <= |x| {
        var t := x[k..];
        BlankLinesMatch(t);
        assert x[k..k + 2][0] == t[0] && x[k..k + 2][1] == t[1];
        assert AllSpace(t[1..1]);
      }
    }
    forall k | 0 <= k ensures !OccursAt(x, "\r\n\r\n", k) {
      if k + 4 <= |x| {
        var t := x[k + 1..];
        BlankLinesMatch(t);
        assert x[k..k + 4][1] == t[0] && x[k..k + 4][2] == t[1] && x[k..k + 4][3] == t[2];
        assert t[1..2] == [t[1]];
      }
    }
  }

  lemma NotSingletonOf(ps: seq<string>, x: string)
    requires forall p | p in ps :: '\n' !in p
    requires '\n' in x
    ensures ps != [x]
  {
    if |ps| == 1 {
      assert ps[0] in ps;
    }
  }

  lemma JoinSingle(x: string, sep: string)
    ensures Join([x], sep) == x
  {
  }

  /** A text whose pieces under its own separator are already non-empty and trimmed yields exactly those pieces. */
  lemma PostsOfCleanPieces(text: string, sep: Separator, pieces: seq<string>)
    requires SeparatorFor(text) == sep && Split(sep, text) == pieces
    requires forall i | 0 <= i < |pieces| :: pieces[i] != "" && IsTrimmed(pieces[i])
    ensures PostsFromInput(text) == pieces
  {
    CleanPiecesKept(pieces);
  }

  /** Posts that are already non-empty and trimmed pass through the trimming and filtering unchanged. */
  lemma CleanPiecesKept(xs: seq<string>)
    requires forall i | 0 <= i < |xs| :: xs[i] != "" && IsTrimmed(xs[i])
    ensures DropEmpty(TrimAll(xs)) == xs
  {
    forall i | 0 <= i < |xs| ensures Trim(xs[i]) == xs[i] {
      TrimmedIsFixed(xs[i]);
    }
    assert TrimAll(xs) == xs;
  }

}
