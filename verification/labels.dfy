/**
 * Sentiment labels in `performAnalysis` and `renderBatchResults` (scripts.js): the label the
 * model gave a post is normalised to an initial capital followed by lower case, a missing
 * label reads "N/A", and the final report counts the labels Positive, Negative, Neutral and
 * Mixed.
 */
module SentimentLabels {
  import opened Options
  import opened Strings

  /**
   * The `sentiment` property of one analysed post, as `post.sentiment || 'N/A'` sees it:
   * a string, a falsy non-string (absent, `null`, `false`, `0`, `NaN`), or a truthy non-string,
   * on which `charAt` is not a function.
   */
  datatype Sentiment = NoSentiment | Text(s: string) | NonString

  /**
   * One element of a `post_analysis` array. `NullItem` is `null` or `undefined`, on which
   * reading `.sentiment` throws; any other value reads its `sentiment` property (absent on a
   * primitive, which is `NoSentiment`).
   */
  datatype PostItem = NullItem | Entry(sentiment: Sentiment)

  /** The counts `sentimentCounts` ends with. */
  datatype Tally = Tally(positive: nat, negative: nat, neutral: nat, mixed: nat)

  const MISSING_LABEL: string := "N/A"

  /** `s.charAt(0).toUpperCase() + s.slice(1).toLowerCase()`. */
  function Normalize(s: string): (r: string)
    ensures |r| == |s|
  {
    if s == [] then [] else [UpperChar(s[0])] + Lower(s[1..])
  }

  /**
   * The normalised label of one item, or `None` where reading it throws a `TypeError`
   * (a `null` item, or a label that is not a string).
   */
  function Label(item: PostItem): Option<string>
  {
    match item
    case NullItem => None
    case Entry(NoSentiment) => Some(Normalize(MISSING_LABEL))
    case Entry(Text(s)) => Some(Normalize(if s == "" then MISSING_LABEL else s))
    case Entry(NonString) => None
  }

  /** The own properties of `sentimentCounts`: the labels that are counted. */
  predicate IsTallied(name: string)
  {
    name == "Positive" || name == "Negative" || name == "Neutral" || name == "Mixed"
  }

  /** `renderBatchResults` gets through a whole batch: every item has a label. */
  predicate AllLabelled(items: seq<PostItem>)
  {
    forall i | 0 <= i < |items| :: Label(items[i]).Some?
  }

  /** How many of `items` carry `label`. */
  function CountLabel(items: seq<PostItem>, name: string): (n: nat)
    ensures n <= |items|
  {
    if items == [] then 0
    else CountLabel(items[..|items| - 1], name) + (if Label(items[|items| - 1]) == Some(name) then 1 else 0)
  }

  /** How many of `items` carry one of the four counted labels. */
  function CountTallied(items: seq<PostItem>): nat
  {
    if items == [] then 0
    else
      var l := Label(items[|items| - 1]);
      CountTallied(items[..|items| - 1]) + (if l.Some? && IsTallied(l.value) then 1 else 0)
  }

  /** Reference definition of the tally: the four counts, or `None` where some item makes it throw. */
  function TallyOf(items: seq<PostItem>): Option<Tally>
  {
    if AllLabelled(items) then
      Some(Tally(CountLabel(items, "Positive"), CountLabel(items, "Negative"),
                 CountLabel(items, "Neutral"), CountLabel(items, "Mixed")))
    else None
  }

  function Total(t: Tally): nat
  {
    t.positive + t.negative + t.neutral + t.mixed
  }

  lemma UpperCharIdempotent(c: char)
    ensures UpperChar(UpperChar(c)) == UpperChar(c)
  {
  }

  lemma LowerIdempotent(s: string)
    ensures Lower(Lower(s)) == Lower(s)
  {
    assert forall i | 0 <= i < |s| :: Lower(Lower(s))[i] == LowerChar(LowerChar(s[i]));
  }

  /** Normalising a normalised label changes nothing. */
  lemma NormalizeIdempotent(s: string)
    ensures Normalize(Normalize(s)) == Normalize(s)
  {
    if s != [] {
      var r := Normalize(s);
      assert r[0] == UpperChar(s[0]) && r[1..] == Lower(s[1..]);
      UpperCharIdempotent(s[0]);
      LowerIdempotent(s[1..]);
    }
  }

  /** Upper-casing and lower-casing identify the same pairs of characters. */
  lemma SameCase(a: char, b: char)
    ensures UpperChar(a) == UpperChar(b) <==> LowerChar(a) == LowerChar(b)
  {
  }

  lemma LowerEqual(s: string, t: string)
    requires |s| == |t|
    ensures Lower(s) == Lower(t) <==> forall i | 0 <= i < |s| :: LowerChar(s[i]) == LowerChar(t[i])
  {
    if forall i | 0 <= i < |s| :: LowerChar(s[i]) == LowerChar(t[i]) {
      assert forall i | 0 <= i < |s| :: Lower(s)[i] == Lower(t)[i];
    }
    if Lower(s) == Lower(t) {
      assert forall i | 0 <= i < |s| :: Lower(s)[i] == LowerChar(s[i]) && Lower(t)[i] == LowerChar(t[i]);
    }
  }

  /** Two labels normalise alike exactly when they are equal ignoring (ASCII) case. */
  lemma SameLabelIffSameLowercase(s: string, t: string)
    ensures Normalize(s) == Normalize(t) <==> Lower(s) == Lower(t)
  {
    if |s| == |t| && s != [] {
      var ns, nt := Normalize(s), Normalize(t);
      assert ns[0] == UpperChar(s[0]) && ns[1..] == Lower(s[1..]);
      assert nt[0] == UpperChar(t[0]) && nt[1..] == Lower(t[1..]);
      SameCase(s[0], t[0]);
      LowerEqual(s, t);
      LowerEqual(s[1..], t[1..]);
      assert forall i | 1 <= i < |s| :: s[1..][i - 1] == s[i] && t[1..][i - 1] == t[i];
      if Lower(s) == Lower(t) {
        assert ns == [ns[0]] + ns[1..] && nt == [nt[0]] + nt[1..];
      }
    }
  }

  lemma LowerOfCounted()
    ensures Lower("Positive") == "positive" && Lower("Negative") == "negative"
    ensures Lower("Neutral") == "neutral" && Lower("Mixed") == "mixed"
  {
  }

  /**
   * A label is counted exactly when, ignoring case, it is one of "positive", "negative",
   * "neutral" or "mixed".
   */
  lemma TalliedIffCaseInsensitiveMatch(s: string)
    ensures IsTallied(Normalize(s)) <==>
              Lower(s) == "positive" || Lower(s) == "negative" || Lower(s) == "neutral" || Lower(s) == "mixed"
  {
    LowerOfCounted();
    NormalizeIdempotent("Positive");
    NormalizeIdempotent("Negative");
    NormalizeIdempotent("Neutral");
    NormalizeIdempotent("Mixed");
    assert Normalize("Positive") == "Positive";
    assert Normalize("Negative") == "Negative";
    assert Normalize("Neutral") == "Neutral";
    assert Normalize("Mixed") == "Mixed";
    SameLabelIffSameLowercase(s, "Positive");
    SameLabelIffSameLowercase(s, "Negative");
    SameLabelIffSameLowercase(s, "Neutral");
    SameLabelIffSameLowercase(s, "Mixed");
  }

  /** A post without a usable label is shown as "N/a", which is never counted. */
  lemma MissingLabelNeverCounted(item: PostItem)
    requires item == Entry(NoSentiment) || item == Entry(Text(""))
    ensures Label(item) == Some("N/a")
    ensures !IsTallied(Label(item).value)
  {
    var low := Lower("/A");
    assert low[0] == '/' && low[1] == 'a';
    assert low == "/a";
    assert MISSING_LABEL[0] == 'N' && MISSING_LABEL[1..] == "/A";
    assert Normalize(MISSING_LABEL) == ['N'] + low == "N/a";
  }

  /** The four counts add up to the number of items with a counted label, which is at most the number of items. */
  lemma {:induction false} TallySum(items: seq<PostItem>)
    ensures CountLabel(items, "Positive") + CountLabel(items, "Negative")
            + CountLabel(items, "Neutral") + CountLabel(items, "Mixed")
            == CountTallied(items)
    ensures CountTallied(items) <= |items|
  {
    if items != [] {
      TallySum(items[..|items| - 1]);
    }
  }

  /** A completed tally accounts for at most all analysed posts, counted or not. */
  lemma TallyBounded(items: seq<PostItem>)
    requires TallyOf(items).Some?
    ensures Total(TallyOf(items).value) == CountTallied(items) <= |items|
  {
    TallySum(items);
  }

  /**
   * The `forEach` over `allResults` that fills `sentimentCounts`, an object whose own
   * properties are the four counted labels: each post's normalised label is incremented when
   * it is one of them. A post whose label cannot be read makes it throw (`None`).
   */
  method TallySentiments(items: seq<PostItem>) returns (r: Option<Tally>)
    ensures r == TallyOf(items)
  {
    var counts: map<string, nat> := map["Positive" := 0, "Negative" := 0, "Neutral" := 0, "Mixed" := 0];
    InitialCounts(items, counts);
    for i := 0 to |items|
      invariant AllLabelled(items[..i])
      invariant CountsAre(counts, items[..i])
    {
      var sentiment := Label(items[i]);
      if sentiment.None? {
        NotAllLabelled(items, i);
        return None;
      }
      CountsStep(items, i, counts);
      if sentiment.value in counts {
        counts := counts[sentiment.value := counts[sentiment.value] + 1];
      }
    }
    assert items[..|items|] == items;
    FinalCounts(items, counts);
    r := Some(Tally(counts["Positive"], counts["Negative"], counts["Neutral"], counts["Mixed"]));
  }

  lemma NotAllLabelled(items: seq<PostItem>, i: nat)
    requires i < |items| && Label(items[i]).None?
    ensures TallyOf(items).None?
  {
  }

  /** `counts` has exactly the four counted labels as keys, each mapped to its count in `items`. */
  ghost predicate CountsAre(counts: map<string, nat>, items: seq<PostItem>)
  {
    && (forall l :: l in counts <==> IsTallied(l))
    && (forall l | l in counts :: counts[l] == CountLabel(items, l))
  }

  lemma InitialCounts(items: seq<PostItem>, counts: map<string, nat>)
    requires counts == map["Positive" := 0, "Negative" := 0, "Neutral" := 0, "Mixed" := 0]
    ensures AllLabelled(items[..0]) && CountsAre(counts, items[..0])
  {
    assert items[..0] == [];
  }

  /** Exact counts over all labelled items are the tally. */
  lemma FinalCounts(items: seq<PostItem>, counts: map<string, nat>)
    requires AllLabelled(items) && CountsAre(counts, items)
    ensures "Positive" in counts && "Negative" in counts && "Neutral" in counts && "Mixed" in counts
    ensures TallyOf(items) == Some(Tally(counts["Positive"], counts["Negative"], counts["Neutral"], counts["Mixed"]))
  {
    assert IsTallied("Positive") && IsTallied("Negative") && IsTallied("Neutral") && IsTallied("Mixed");
  }

  /** Incrementing the entry of the next item's label, when there is one, keeps the counts exact. */
  lemma CountsStep(items: seq<PostItem>, i: nat, counts: map<string, nat>)
    requires i < |items| && Label(items[i]).Some? && CountsAre(counts, items[..i])
    ensures AllLabelled(items[..i]) ==> AllLabelled(items[..i + 1])
    ensures var name := Label(items[i]).value;
            CountsAre(if name in counts then counts[name := counts[name] + 1] else counts, items[..i + 1])
  {
    CountStep(items, i);
  }

  /** One more item adds one to the count of its own label and to no other. */
  lemma CountStep(items: seq<PostItem>, i: nat)
    requires i < |items| && Label(items[i]).Some?
    ensures AllLabelled(items[..i]) ==> AllLabelled(items[..i + 1])
    ensures forall l :: CountLabel(items[..i + 1], l)
                        == CountLabel(items[..i], l) + (if l == Label(items[i]).value then 1 else 0)
  {
    var prefix := items[..i + 1];
    assert prefix[..|prefix| - 1] == items[..i] && prefix[|prefix| - 1] == items[i];
    forall l
      ensures CountLabel(prefix, l) == CountLabel(items[..i], l) + (if l == Label(items[i]).value then 1 else 0)
    {
    }
    forall k | 0 <= k < |prefix|
      ensures AllLabelled(items[..i]) ==> Label(prefix[k]).Some?
    {
      if k < i {
        assert prefix[k] == items[..i][k];
      }
    }
  }

  /** What `renderInterpretation` reports: nothing when no post was analysed, otherwise the two shares it turns into percentages. */
  datatype Interpretation = NoInsights | Shares(positive: nat, negative: nat, analyzed: nat)

  function Interpret(t: Tally, analyzed: nat): (r: Interpretation)
    ensures r.NoInsights? <==> analyzed == 0
    ensures r.Shares? ==> r.analyzed > 0 && r.positive == t.positive && r.negative == t.negative
  {
    if analyzed == 0 then NoInsights else Shares(t.positive, t.negative, analyzed)
  }

  /**
   * Interpreting a finished tally over all analysed posts: no insights exactly when there are no
   * posts; otherwise the shares are the counts of "Positive" and "Negative" labels over the number
   * of posts, and together they are at most the whole, so neither percentage exceeds 100.
   */
  lemma SharesAtMostWhole(items: seq<PostItem>)
    requires TallyOf(items).Some?
    ensures Interpret(TallyOf(items).value, |items|).NoInsights? <==> items == []
    ensures Interpret(TallyOf(items).value, |items|)
            == if items == [] then NoInsights
               else Shares(CountLabel(items, "Positive"), CountLabel(items, "Negative"), |items|)
    ensures CountLabel(items, "Positive") + CountLabel(items, "Negative") <= |items|
  {
    var p, q := CountLabel(items, "Positive"), CountLabel(items, "Negative");
    assert p + q <= |items| by {
      TallyBounded(items);
    }
    assert Interpret(TallyOf(items).value, |items|) == if items == [] then NoInsights else Shares(p, q, |items|) by {
      TallyBounded(items);
      InterpretShares(TallyOf(items).value, |items|, p, q);
    }
  }

  /** `Interpret` on a tally whose two shares are `p` and `q` and whose total is at most `n`. */
  lemma InterpretShares(t: Tally, n: nat, p: nat, q: nat)
    requires t.positive == p && t.negative == q && Total(t) <= n
    ensures var r := Interpret(t, n);
            && (r.NoInsights? <==> n == 0)
            && (r.Shares? ==> r.analyzed == n && r.positive == p && r.negative == q && p + q <= n)
  {
  }
}
