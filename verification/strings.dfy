/** Option type used for values that JavaScript represents as "absent" (`-1`, `null`, `undefined`). */
module Options {
  datatype Option<T> = None | Some(value: T)
}

/** Flattening a sequence of sequences (`[].concat(...)`, repeated `push(...xs)`). */
module Sequences {
  function Concat<T>(xss: seq<seq<T>>): seq<T>
  {
    if xss == [] then [] else xss[0] + Concat(xss[1..])
  }

  lemma {:induction false} ConcatAppend<T>(a: seq<seq<T>>, b: seq<seq<T>>)
    ensures Concat(a + b) == Concat(a) + Concat(b)
  {
    if a != [] {
      assert (a + b)[1..] == a[1..] + b;
      ConcatAppend(a[1..], b);
    } else {
      assert a + b == b;
    }
  }
}

/**
 * The JavaScript string primitives the client relies on: the whitespace set shared by
 * `String.prototype.trim` and the regular-expression class `\s`, `trim` itself,
 * `indexOf` / `includes` / `lastIndexOf`, `Array.prototype.join` on strings and the
 * case mappings used for sentiment labels.
 */
module Strings {
  import opened Options

  /** ECMAScript WhiteSpace and LineTerminator code points: the set `trim` strips and `\s` matches. */
  predicate IsSpace(c: char)
  {
    || c == '\t' || c == '\U{B}' || c == '\U{C}' || c == ' ' || c == '\U{A0}' || c == '\U{FEFF}'
    || c == '\U{1680}' || ('\U{2000}' <= c <= '\U{200A}') || c == '\U{202F}' || c == '\U{205F}'
    || c == '\U{3000}'
    || c == '\n' || c == '\r' || c == '\U{2028}' || c == '\U{2029}'
  }

  predicate AllSpace(s: string)
  {
    forall i | 0 <= i < |s| :: IsSpace(s[i])
  }

  /** A string `trim` leaves unchanged: empty, or neither end is whitespace. */
  predicate IsTrimmed(s: string)
  {
    s == [] || (!IsSpace(s[0]) && !IsSpace(s[|s| - 1]))
  }

  function TrimStart(s: string): (r: string)
    ensures |r| <= |s| && r == s[|s| - |r|..]
    ensures AllSpace(s[..|s| - |r|])
    ensures r == [] || !IsSpace(r[0])
  {
    if s != [] && IsSpace(s[0]) then TrimStart(s[1..]) else s
  }

  function TrimEnd(s: string): (r: string)
    ensures |r| <= |s| && r == s[..|r|]
    ensures AllSpace(s[|r|..])
    ensures r == [] || !IsSpace(r[|r| - 1])
  {
    if s != [] && IsSpace(s[|s| - 1]) then TrimEnd(s[..|s| - 1]) else s
  }

  /** `String.prototype.trim`. */
  function Trim(s: string): (r: string)
  {
    TrimEnd(TrimStart(s))
  }

  /** TrimEnd keeps the shortest prefix after which only whitespace follows. */
  lemma {:induction false} TrimEndShortest(s: string, k: nat)
    requires k <= |s| && AllSpace(s[k..])
    ensures |TrimEnd(s)| <= k
    decreases |s|
  {
    if s != [] && IsSpace(s[|s| - 1]) && k < |s| {
      assert s[..|s| - 1][k..] == s[k..|s| - 1];
      TrimEndShortest(s[..|s| - 1], k);
    }
  }

  /**
   * `trim` removes a whitespace prefix and a whitespace suffix and nothing else,
   * and what remains neither starts nor ends with whitespace.
   */
  lemma TrimSlice(s: string) returns (i: nat, j: nat)
    ensures i <= j <= |s| && Trim(s) == s[i..j]
    ensures AllSpace(s[..i]) && AllSpace(s[j..])
    ensures IsTrimmed(Trim(s))
  {
    var t := TrimStart(s);
    i := |s| - |t|;
    j := TrimSliceEnd(s, t, i);
    TrimIsTrimmed(t);
  }

  lemma TrimSliceEnd(s: string, t: string, i: nat) returns (j: nat)
    requires i <= |s| && t == s[i..]
    ensures i <= j <= |s| && TrimEnd(t) == s[i..j] && AllSpace(s[j..])
  {
    var r := TrimEnd(t);
    j := i + |r|;
    assert r == s[i..j];
    assert s[j..] == t[|r|..];
  }

  /** Trimming the end of a string that does not start with whitespace leaves a trimmed string. */
  lemma TrimIsTrimmed(t: string)
    requires t == [] || !IsSpace(t[0])
    ensures IsTrimmed(TrimEnd(t))
  {
    var r := TrimEnd(t);
    if r != [] {
      assert r[0] == t[0];
    }
  }

  lemma TrimmedIsFixed(s: string)
    requires IsTrimmed(s)
    ensures Trim(s) == s
  {
    assert TrimStart(s) == s;
  }

  /** A string is left unchanged by `trim` exactly when it is trimmed; in particular `trim` is idempotent. */
  lemma TrimFixedPoints(s: string)
    ensures Trim(s) == s <==> IsTrimmed(s)
    ensures Trim(Trim(s)) == Trim(s)
  {
    var i, j := TrimSlice(s);
    if IsTrimmed(s) {
      TrimmedIsFixed(s);
    }
    TrimmedIsFixed(Trim(s));
  }

  /** Every character of `trim(s)` is a character of `s`. */
  lemma TrimSubset(s: string, c: char)
    requires c !in s
    ensures c !in Trim(s)
  {
    var i, j := TrimSlice(s);
    var t := Trim(s);
    forall k | 0 <= k < |t|
      ensures t[k] != c
    {
      assert t[k] == s[i + k];
    }
  }

  /** `pat` occurs in `s` starting at index `k`. */
  predicate OccursAt(s: string, pat: string, k: nat)
  {
    k + |pat| <= |s| && s[k..k + |pat|] == pat
  }

  /** `s.indexOf(pat, from)`: the first occurrence of `pat` at or after `from`, if any. */
  function IndexOf(s: string, pat: string, from: nat): (r: Option<nat>)
    ensures r.Some? ==> from <= r.value && OccursAt(s, pat, r.value)
    ensures r.Some? ==> forall k | from <= k < r.value :: !OccursAt(s, pat, k)
    ensures r.None? ==> forall k | from <= k :: !OccursAt(s, pat, k)
    decreases |s| - from
  {
    if from + |pat| > |s| then None
    else if s[from..from + |pat|] == pat then Some(from)
    else IndexOf(s, pat, from + 1)
  }

  /** An occurrence at `k` with none between `from` and `k` is what `indexOf` reports. */
  lemma {:induction false} IndexOfIs(s: string, pat: string, from: nat, k: nat)
    requires from <= k && OccursAt(s, pat, k)
    requires forall n | from <= n < k :: !OccursAt(s, pat, n)
    ensures IndexOf(s, pat, from) == Some(k)
    decreases k - from
  {
    if from < k {
      IndexOfIs(s, pat, from + 1, k);
    }
  }

  /** A position whose character differs from the first of `pat` is not an occurrence. */
  lemma NotAtMismatch(s: string, pat: string, k: nat)
    requires |pat| > 0 && (k >= |s| || s[k] != pat[0])
    ensures !OccursAt(s, pat, k)
  {
    if k + |pat| <= |s| {
      assert s[k..k + |pat|][0] == s[k];
    }
  }

  /** `s.endsWith(suffix)`. */
  predicate EndsWith(s: string, suffix: string)
  {
    |suffix| <= |s| && s[|s| - |suffix|..] == suffix
  }

  /** `s.includes(pat)`. */
  predicate Contains(s: string, pat: string)
  {
    IndexOf(s, pat, 0).Some?
  }

  lemma OccursAtSingle(s: string, c: char, k: nat)
    ensures OccursAt(s, [c], k) <==> k < |s| && s[k] == c
  {
    if k < |s| {
      assert s[k..k + 1] == [s[k]];
    }
  }

  /** `s.indexOf(c)` for a one-character pattern: the first position holding `c`. */
  lemma IndexOfChar(s: string, c: char)
    ensures IndexOf(s, [c], 0).None? <==> c !in s
    ensures IndexOf(s, [c], 0).Some? ==>
              var i := IndexOf(s, [c], 0).value; i < |s| && s[i] == c && c !in s[..i]
  {
    var r := IndexOf(s, [c], 0);
    if r.None? {
      forall k | 0 <= k < |s| ensures s[k] != c { OccursAtSingle(s, c, k); }
    } else {
      var i := r.value;
      OccursAtSingle(s, c, i);
      forall k | 0 <= k < i ensures s[k] != c { OccursAtSingle(s, c, k); }
      assert forall k | 0 <= k < i :: s[..i][k] == s[k];
    }
  }

  /** `s.lastIndexOf(c)`: the last position holding `c`, if any. */
  function LastIndexOf(s: string, c: char): (r: Option<nat>)
    ensures r.None? <==> c !in s
    ensures r.Some? ==> r.value < |s| && s[r.value] == c && c !in s[r.value + 1..]
  {
    if s == [] then None
    else if s[|s| - 1] == c then Some(|s| - 1)
    else
      var r := LastIndexOf(s[..|s| - 1], c);
      assert s == s[..|s| - 1] + [s[|s| - 1]];
      r
  }

  /** `xs.filter(p => p !== "")`. */
  function DropEmpty(xs: seq<string>): (r: seq<string>)
    ensures |r| <= |xs|
    ensures forall x | x in r :: x != "" && x in xs
    ensures (forall i | 0 <= i < |xs| :: xs[i] != "") ==> r == xs
  {
    if xs == [] then []
    else if xs[0] == "" then DropEmpty(xs[1..])
    else [xs[0]] + DropEmpty(xs[1..])
  }

  /** `xs.join(sep)`. */
  function Join(xs: seq<string>, sep: string): string
  {
    if |xs| == 0 then ""
    else if |xs| == 1 then xs[0]
    else xs[0] + sep + Join(xs[1..], sep)
  }

  /** A character in neither the separator nor any member is not in the joined string. */
  lemma {:induction false} JoinAvoids(xs: seq<string>, sep: string, c: char)
    requires c !in sep && forall i | 0 <= i < |xs| :: c !in xs[i]
    ensures c !in Join(xs, sep)
  {
    if |xs| > 1 {
      JoinAvoids(xs[1..], sep, c);
      assert c !in xs[0] + sep + Join(xs[1..], sep);
    } else if |xs| == 1 {
      assert c !in xs[0];
    }
  }

  /** `toUpperCase` on one character, restricted to the ASCII letters. */
  function UpperChar(c: char): char
  {
    if 'a' <= c <= 'z' then (c as int - 32) as char else c
  }

  /** `toLowerCase` on one character, restricted to the ASCII letters. */
  function LowerChar(c: char): char
  {
    if 'A' <= c <= 'Z' then (c as int + 32) as char else c
  }

  /** `toLowerCase` on a string, character by character. */
  function Lower(s: string): (r: string)
    ensures |r| == |s|
  {
    seq(|s|, i requires 0 <= i < |s| => LowerChar(s[i]))
  }
}
