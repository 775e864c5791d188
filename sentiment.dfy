/**
 * The sentiment analysis of a political document: cut it into sentences
 * after 。！？, pack them into chunks under a token budget, classify every
 * chunk, and average the chunks' signed sentiment values weighted by their
 * length in characters.
 *
 * The tokenizer and the classifier are library calls: the token count of a
 * string and the positive-class probability of a chunk are parameters here.
 */
module Sentiment {
  import opened Options
  import opened PyText
  import opened Chunking

  /** The look-behind alternatives of this splitter's sentence split. */
  const Terminators: set<char> := {'。', '！', '？'}

  /** The token budget `weighted_sentiment_analysis` splits with. */
  const MaxTokens: int := 512

  /** Join is empty exactly when every part is. */
  lemma {:induction false} JoinEmpty(xs: seq<string>)
    ensures Join(xs) == [] <==> forall k :: 0 <= k < |xs| ==> xs[k] == []
  {
    if xs != [] {
      JoinEmpty(xs[1..]);
      assert forall k :: 1 <= k < |xs| ==> xs[k] == xs[1..][k - 1];
    }
  }

  /** Only an empty text leaves no sentence to pack. */
  lemma NothingKeptIffEmpty(text: string)
    ensures Kept(Sentences(text, Terminators), NonEmpty) == [] <==> text == []
  {
    var xs := Sentences(text, Terminators);
    KeptEmpty(xs, NonEmpty);
    SentencesJoin(text, Terminators);
    JoinEmpty(xs);
  }

  /** split_text(text, max_length) of the sentiment analysis, with
      `len(tokenizer.encode(s))` as `tokLen`. Only empty sentences are
      skipped (a whitespace-only one is kept), there is no fallback, and the
      chunks are the stripped groups of the greedy packing under the token
      budget: a group of two or more sentences fits the budget, and a group
      over it is one sentence. */
  method SplitText(text: string, maxLength: int, tokLen: string -> nat)
    returns (chunks: seq<string>, ghost groups: seq<seq<string>>)
    ensures IsGreedyPacking(groups, Kept(Sentences(text, Terminators), NonEmpty), maxLength, tokLen)
    ensures chunks == Emit(groups) && |chunks| == |groups|
    ensures chunks == [] <==> text == []
    ensures forall i :: 0 <= i < |groups| ==>
      && (|groups[i]| >= 2 ==> tokLen(Join(groups[i])) <= maxLength)
      && (tokLen(Join(groups[i])) > maxLength ==> |groups[i]| == 1)
  {
    var sentences := Sentences(text, Terminators);
    chunks, groups := GreedyPack(sentences, maxLength, tokLen, NonEmpty);
    ghost var items := Kept(sentences, NonEmpty);
    NothingKeptIffEmpty(text);
    PackingEmpty(groups, items, maxLength, tokLen);
    EmitIndex(groups);
    forall i | 0 <= i < |groups|
      ensures |groups[i]| >= 2 ==> tokLen(Join(groups[i])) <= maxLength
      ensures tokLen(Join(groups[i])) > maxLength ==> |groups[i]| == 1
    {
      OverBudgetIsSingle(groups, items, maxLength, tokLen, i);
      assert groups[i][..|groups[i]|] == groups[i];
    }
  }

  datatype Label = Positive | Negative

  /** What `analyze_sentiment` returns: its `label` (here `polarity`) and the
      positive-class probability. */
  datatype SentimentResult = SentimentResult(polarity: Label, score: real)

  /** analyze_sentiment(text), given the positive-class probability `p` the
      classifier assigns to the text. */
  function AnalyzeSentiment(p: real): SentimentResult {
    SentimentResult(if p > 0.5 then Positive else Negative, p)
  }

  /** The signed value of line 76 as written: the label decides the sign of
      `2p - 1`, although the label already follows that sign. */
  function SignedValueAsWritten(r: SentimentResult): real {
    if r.polarity == Positive then 2.0 * r.score - 1.0 else -(2.0 * r.score - 1.0)
  }

  /** The signed value as intended: `2p - 1`, the mapping of [0, 1] onto
      [-1, 1] that `analyze_sentiment` computes and discards. */
  function SignedValue(r: SentimentResult): real {
    2.0 * r.score - 1.0
  }

  /** The intended value lies in [-1, 1] and is positive exactly for a
      positive label. */
  lemma SignedValueSpec(p: real)
    requires 0.0 <= p <= 1.0
    ensures -1.0 <= SignedValue(AnalyzeSentiment(p)) <= 1.0
    ensures SignedValue(AnalyzeSentiment(p)) > 0.0 <==> AnalyzeSentiment(p).polarity == Positive
  {
  }

  /** As written, every value is the distance of `2p - 1` from zero: never
      negative, so a clearly negative chunk counts as a positive one. */
  lemma SignedValueAsWrittenIsMagnitude(p: real)
    requires 0.0 <= p <= 1.0
    ensures var v := SignedValueAsWritten(AnalyzeSentiment(p));
      && 0.0 <= v <= 1.0
      && (v == 2.0 * p - 1.0 || v == 1.0 - 2.0 * p)
      && v >= 2.0 * p - 1.0 && v >= 1.0 - 2.0 * p
  {
  }

  /** `sum(len(segment) for segment in segments)`. */
  function TotalLength(segments: seq<string>): nat {
    if segments == [] then 0 else TotalLength(segments[..|segments| - 1]) + |segments[|segments| - 1]|
  }

  /** `sum(xs)`. */
  function Sum(xs: seq<real>): real {
    if xs == [] then 0.0 else Sum(xs[..|xs| - 1]) + xs[|xs| - 1]
  }

  /** `segment_length / total_length` for every segment. */
  function Weights(segments: seq<string>): seq<real>
    requires TotalLength(segments) > 0
  {
    var total := TotalLength(segments) as real;
    seq(|segments|, i requires 0 <= i < |segments| => (|segments[i]| as real) / total)
  }

  /** `sum(x * w for x, w in zip(xs, ws))`, accumulated left to right. */
  function Dot(xs: seq<real>, ws: seq<real>): real
    requires |xs| == |ws|
  {
    if xs == [] then 0.0 else Dot(xs[..|xs| - 1], ws[..|ws| - 1]) + xs[|xs| - 1] * ws[|ws| - 1]
  }

  /** The weights of the first `k` segments add up to their share of the total length. */
  lemma {:induction false} PrefixShares(segments: seq<string>, k: nat)
    requires TotalLength(segments) > 0 && k <= |segments|
    ensures Sum(Weights(segments)[..k]) == (TotalLength(segments[..k]) as real) / (TotalLength(segments) as real)
  {
    var ws := Weights(segments);
    var t := TotalLength(segments) as real;
    if k == 0 {
      assert ws[..0] == [] && segments[..0] == [];
    } else {
      var a, w := Sum(ws[..k - 1]), ws[k - 1];
      var x, y := TotalLength(segments[..k - 1]) as real, |segments[k - 1]| as real;
      assert Sum(ws[..k]) == a + w by {
        assert ws[..k][..k - 1] == ws[..k - 1];
      }
      assert TotalLength(segments[..k]) as real == x + y by {
        assert segments[..k][..k - 1] == segments[..k - 1];
      }
      assert w == y / t;
      assert a == x / t by {
        PrefixShares(segments, k - 1);
      }
      AddShares(x, y, t);
    }
  }

  lemma AddShares(x: real, y: real, t: real)
    requires t > 0.0
    ensures x / t + y / t == (x + y) / t
  {
  }

  lemma ShareBounds(x: real, t: real)
    requires 0.0 <= x <= t && t > 0.0
    ensures 0.0 <= x / t <= 1.0
  {
    assert (x / t) * t == x;
  }

  /** When the total length is positive, every weight lies in [0, 1] and the
      weights sum to 1. */
  lemma WeightsSpec(segments: seq<string>)
    requires TotalLength(segments) > 0
    ensures |Weights(segments)| == |segments|
    ensures forall i :: 0 <= i < |segments| ==> 0.0 <= Weights(segments)[i] <= 1.0
    ensures Sum(Weights(segments)) == 1.0
  {
    forall i | 0 <= i < |segments| ensures 0.0 <= Weights(segments)[i] <= 1.0 {
      WeightBounds(segments, i);
    }
    WeightsSum(segments);
  }

  lemma WeightBounds(segments: seq<string>, i: nat)
    requires TotalLength(segments) > 0 && i < |segments|
    ensures 0.0 <= Weights(segments)[i] <= 1.0
  {
    SegmentWithinTotal(segments, i);
    ShareBounds(|segments[i]| as real, TotalLength(segments) as real);
  }

  lemma WeightsSum(segments: seq<string>)
    requires TotalLength(segments) > 0
    ensures Sum(Weights(segments)) == 1.0
  {
    var ws := Weights(segments);
    var t := TotalLength(segments) as real;
    var n := |segments|;
    assert segments[..n] == segments && ws[..n] == ws;
    PrefixShares(segments, n);
    WholeShare(t);
  }

  lemma WholeShare(t: real)
    requires t > 0.0
    ensures t / t == 1.0
  {
  }

  lemma {:induction false} SegmentWithinTotal(segments: seq<string>, i: nat)
    requires i < |segments|
    ensures |segments[i]| <= TotalLength(segments)
  {
    if i < |segments| - 1 {
      SegmentWithinTotal(segments[..|segments| - 1], i);
    }
  }

  /** With non-negative weights, the weighted sum lies between the smallest
      and the largest value, scaled by the sum of the weights. */
  lemma {:induction false} DotBounds(xs: seq<real>, ws: seq<real>, lo: real, hi: real)
    requires |xs| == |ws|
    requires forall k :: 0 <= k < |ws| ==> ws[k] >= 0.0
    requires forall k :: 0 <= k < |xs| ==> lo <= xs[k] <= hi
    ensures lo * Sum(ws) <= Dot(xs, ws) <= hi * Sum(ws)
  {
    if xs != [] {
      var n := |xs| - 1;
      var s, d := Sum(ws[..n]), Dot(xs[..n], ws[..n]);
      assert lo * s <= d <= hi * s by {
        DotBounds(xs[..n], ws[..n], lo, hi);
      }
      assert Sum(ws) == s + ws[n] && Dot(xs, ws) == d + xs[n] * ws[n];
      BoundsStep(lo, hi, s, d, xs[n], ws[n]);
    }
  }

  lemma BoundsStep(lo: real, hi: real, s: real, d: real, x: real, w: real)
    requires lo * s <= d <= hi * s && lo <= x <= hi && w >= 0.0
    ensures lo * (s + w) <= d + x * w <= hi * (s + w)
  {
    assert (x - lo) * w >= 0.0 && (hi - x) * w >= 0.0;
  }

  lemma DotStep(xs: seq<real>, ws: seq<real>, i: nat)
    requires |xs| == |ws| && i < |xs|
    ensures Dot(xs[..i + 1], ws[..i + 1]) == Dot(xs[..i], ws[..i]) + xs[i] * ws[i]
  {
    assert xs[..i + 1][..i] == xs[..i] && ws[..i + 1][..i] == ws[..i];
  }

  /** Equal values give that value, scaled by the sum of the weights. */
  lemma {:induction false} DotConstant(xs: seq<real>, ws: seq<real>, v: real)
    requires |xs| == |ws|
    requires forall k :: 0 <= k < |xs| ==> xs[k] == v
    ensures Dot(xs, ws) == v * Sum(ws)
  {
    if xs != [] {
      var n := |xs| - 1;
      DotConstant(xs[..n], ws[..n], v);
    }
  }

  /** Every segment's intended signed value. */
  function Values(segments: seq<string>, prob: string -> real): seq<real> {
    seq(|segments|, i requires 0 <= i < |segments| => SignedValue(AnalyzeSentiment(prob(segments[i]))))
  }

  /** Every segment's signed value as line 76 computes it. */
  function ValuesAsWritten(segments: seq<string>, prob: string -> real): seq<real> {
    seq(|segments|, i requires 0 <= i < |segments| => SignedValueAsWritten(AnalyzeSentiment(prob(segments[i]))))
  }

  /** The score as written: 0 without segments, a division by zero when all
      segments are empty (`None`), otherwise the weighted sum of the
      magnitudes of line 76. */
  function WeightedScoreAsWritten(segments: seq<string>, prob: string -> real): Option<real> {
    if segments == [] then Some(0.0)
    else if TotalLength(segments) == 0 then None
    else Some(Dot(ValuesAsWritten(segments, prob), Weights(segments)))
  }

  /** The score as intended: 0 without segments or without characters,
      otherwise the length-weighted mean of the signed values `2p - 1`. */
  function WeightedScore(segments: seq<string>, prob: string -> real): real {
    if segments == [] || TotalLength(segments) == 0 then 0.0
    else Dot(Values(segments, prob), Weights(segments))
  }

  /** The intended score lies between the smallest and the largest segment
      value, hence in [-1, 1]; it equals `v` when every segment's value is `v`. */
  lemma WeightedScoreSpec(segments: seq<string>, prob: string -> real, lo: real, hi: real)
    requires TotalLength(segments) > 0
    requires forall k :: 0 <= k < |segments| ==> lo <= Values(segments, prob)[k] <= hi
    ensures lo <= WeightedScore(segments, prob) <= hi
    ensures lo == hi ==> WeightedScore(segments, prob) == lo
  {
    var xs, ws := Values(segments, prob), Weights(segments);
    assert |xs| == |ws| && Sum(ws) == 1.0 && forall k :: 0 <= k < |ws| ==> ws[k] >= 0.0 by {
      WeightsSpec(segments);
    }
    assert lo <= Dot(xs, ws) <= hi by {
      DotBounds(xs, ws, lo, hi);
    }
    assert WeightedScore(segments, prob) == Dot(xs, ws);
  }

  /** Whatever the segments, the intended score lies in [-1, 1]. */
  lemma WeightedScoreRange(segments: seq<string>, prob: string -> real)
    requires forall s :: 0.0 <= prob(s) <= 1.0
    ensures -1.0 <= WeightedScore(segments, prob) <= 1.0
  {
    if segments != [] && TotalLength(segments) > 0 {
      forall k | 0 <= k < |segments| ensures -1.0 <= Values(segments, prob)[k] <= 1.0 {
        SignedValueSpec(prob(segments[k]));
      }
      WeightedScoreSpec(segments, prob, -1.0, 1.0);
    }
  }

  /** As written, a score that is computed is never negative, whatever the classifier says. */
  lemma WeightedScoreAsWrittenNonNegative(segments: seq<string>, prob: string -> real)
    requires forall s :: 0.0 <= prob(s) <= 1.0
    requires WeightedScoreAsWritten(segments, prob).Some?
    ensures WeightedScoreAsWritten(segments, prob).value >= 0.0
  {
    if segments != [] {
      var xs := ValuesAsWritten(segments, prob);
      forall k | 0 <= k < |segments| ensures 0.0 <= xs[k] <= 1.0 {
        SignedValueAsWrittenIsMagnitude(prob(segments[k]));
      }
      WeightsSpec(segments);
      DotBounds(xs, Weights(segments), 0.0, 1.0);
    }
  }

  /** Two segments holding 60% and 40% of the characters, with positive
      probabilities 0.9 and 0.1: as written the score is 0.8, as intended
      0.6 * 0.8 + 0.4 * (-0.8) = 0.16. */
  lemma SignFlipWitness()
    ensures var segments, prob := ["甲甲甲", "乙乙"], (s: string) => if s == "甲甲甲" then 0.9 else 0.1;
      && WeightedScoreAsWritten(segments, prob) == Some(0.8)
      && WeightedScore(segments, prob) == 0.16
  {
    var segments, prob := ["甲甲甲", "乙乙"], (s: string) => if s == "甲甲甲" then 0.9 else 0.1;
    assert segments[..1] == ["甲甲甲"] && segments[..1][..0] == [];
    assert TotalLength(segments) == 5;
    var ws := Weights(segments);
    assert ws == [0.6, 0.4];
    assert ws[..1] == [0.6] && ws[..1][..0] == [];
    assert prob("甲甲甲") == 0.9 && prob("乙乙") == 0.1;
    var xs := ValuesAsWritten(segments, prob);
    assert xs[0] == 0.8 && xs[1] == 0.8;
    assert xs == [0.8, 0.8];
    assert xs[..1] == [0.8] && xs[..1][..0] == [];
    var ys := Values(segments, prob);
    assert ys[0] == 0.8 && ys[1] == -0.8;
    assert ys == [0.8, -0.8];
    assert ys[..1] == [0.8] && ys[..1][..0] == [];
    assert Dot(xs[..1], ws[..1]) == 0.48;
    assert Dot(xs, ws) == 0.8;
    assert Dot(ys[..1], ws[..1]) == 0.48;
    assert Dot(ys, ws) == 0.16;
  }

  /** A whitespace-only text, here one space, is a single sentence kept by
      the splitter and stripped to an empty chunk, so the total length is 0:
      as written the weight divides by zero; as intended the score is the
      neutral 0. */
  lemma BlankTextWitness(maxLength: int, tokLen: string -> nat, groups: seq<seq<string>>, prob: string -> real)
    requires IsGreedyPacking(groups, Kept(Sentences(" ", Terminators), NonEmpty), maxLength, tokLen)
    ensures Emit(groups) == [""]
    ensures WeightedScoreAsWritten(Emit(groups), prob) == None
    ensures WeightedScore(Emit(groups), prob) == 0.0
  {
    var text := " ";
    assert text[1..] == [];
    var rest := Sentences(text[1..], Terminators);
    assert rest == [[]];
    assert ' ' !in Terminators && text[0] == ' ';
    assert [text[0]] + rest[0] == " " && rest[1..] == [];
    assert Sentences(text, Terminators) == [" "];
    assert Kept([" "], NonEmpty) == [" "] by {
      assert [" "][..0] == [];
    }
    GreedyStart(" ", maxLength, tokLen);
    GreedyPackingUnique(groups, [[" "]], [" "], maxLength, tokLen);
    JoinSingle(" ");
    assert Strip(" ") == "" by {
      assert TrimStart(" ") == TrimStart(" "[1..]);
      assert " "[1..] == "";
    }
    EmitIndex(groups);
    assert [""][..0] == [];
  }

  /** Segments without characters have no total length and score neutral. */
  lemma {:induction false} NoCharactersIsNeutral(segments: seq<string>, prob: string -> real)
    requires forall k :: 0 <= k < |segments| ==> segments[k] == []
    ensures TotalLength(segments) == 0 && WeightedScore(segments, prob) == 0.0
  {
    if segments != [] {
      var init := segments[..|segments| - 1];
      assert forall k :: 0 <= k < |init| ==> init[k] == segments[k];
      NoCharactersIsNeutral(init, prob);
    }
  }

  /** A whitespace-only text, whose every chunk strips to `""`, scores neutral
      under the corrected rule instead of dividing by zero. */
  lemma BlankTextIsNeutral(text: string, groups: seq<seq<string>>, tokLen: string -> nat, prob: string -> real)
    requires IsBlank(text)
    requires IsGreedyPacking(groups, Kept(Sentences(text, Terminators), NonEmpty), MaxTokens, tokLen)
    ensures WeightedScore(Emit(groups), prob) == 0.0
  {
    var xs := Sentences(text, Terminators);
    var items := Kept(xs, NonEmpty);
    assert forall k :: 0 <= k < |xs| ==> IsBlank(xs[k]) by {
      SentencesJoin(text, Terminators);
      BlankJoin(xs);
    }
    var segments := Emit(groups);
    EmitIndex(groups);
    forall i | 0 <= i < |groups| ensures segments[i] == [] {
      forall k | 0 <= k < |groups[i]| ensures IsBlank(groups[i][k]) {
        GroupMember(groups, items, MaxTokens, tokLen, i, k);
        KeptMembers(xs, NonEmpty, groups[i][k]);
      }
      BlankJoin(groups[i]);
      StripSpec(Join(groups[i]));
    }
    NoCharactersIsNeutral(segments, prob);
  }

  /** weighted_sentiment_analysis(text) with the sign of line 76 corrected
      and a zero total length scored as neutral: the segments are those of
      the token-budget splitter (the ghost `groups` are their sentences), and
      the score is the length-weighted mean of their values `2p - 1`, in [-1, 1]. */
  method WeightedSentimentAnalysis(text: string, tokLen: string -> nat, prob: string -> real)
    returns (score: real, ghost segments: seq<string>, ghost groups: seq<seq<string>>)
    requires forall s :: 0.0 <= prob(s) <= 1.0
    ensures IsGreedyPacking(groups, Kept(Sentences(text, Terminators), NonEmpty), MaxTokens, tokLen)
    ensures segments == Emit(groups)
    ensures score == WeightedScore(segments, prob)
    ensures IsBlank(text) ==> score == 0.0
    ensures -1.0 <= score <= 1.0
  {
    var segs;
    segs, groups := SplitText(text, MaxTokens, tokLen);
    segments := segs;
    score := Aggregate(segs, prob);
    if IsBlank(text) {
      BlankTextIsNeutral(text, groups, tokLen, prob);
    }
    assert -1.0 <= score <= 1.0 by {
      WeightedScoreRange(segs, prob);
    }
  }

  /** The aggregation loop of weighted_sentiment_analysis: classify every
      segment, then add up value times length share; no segments, or no
      characters at all, give 0. */
  method Aggregate(segs: seq<string>, prob: string -> real) returns (score: real)
    ensures score == WeightedScore(segs, prob)
  {
    if segs == [] {
      return 0.0;
    }
    var results: seq<SentimentResult> := [];
    for i := 0 to |segs|
      invariant |results| == i
      invariant forall k :: 0 <= k < i ==> results[k] == AnalyzeSentiment(prob(segs[k]))
    {
      results := results + [AnalyzeSentiment(prob(segs[i]))];
    }
    var total := TotalLength(segs);
    if total == 0 {
      return 0.0;
    }
    ghost var values, weights := Values(segs, prob), Weights(segs);
    score := 0.0;
    for i := 0 to |results|
      invariant score == Dot(values[..i], weights[..i])
    {
      var weight := (|segs[i]| as real) / (total as real);
      var value := SignedValue(results[i]);
      assert value == values[i] && weight == weights[i];
      score := score + value * weight;
      assert score == Dot(values[..i], weights[..i]) + values[i] * weights[i];
      DotStep(values, weights, i);
    }
    assert values[..|results|] == values && weights[..|results|] == weights;
  }
}
