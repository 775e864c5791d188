/**
 * `calculate_relevance_score` and `analyze_chinese_topic_relevance`: how
 * relevant a text is to a target topic, on a 0-10 integer scale, from a
 * direct keyword match and a topic-model match, with a floor for texts that
 * name the private economy and development outright.
 *
 * The keyword extractors and the fitted topic model are library calls;
 * their outputs are parameters here.
 */
module Relevance {
  import opened Options
  import opened PyText
  import Segmenter
  import opened Keywords
  import opened Topics

  /** The target words used when none are given (also the 民营经济发展 entry of the topic map). */
  const DefaultTargets: seq<string> := ["民营", "经济", "发展", "企业", "创新", "支持", "政策", "扶持", "改革", "市场"]

  /** The phrases appended to every target list. */
  const KeyPhrases: seq<string> := ["民营经济", "民营企业", "经济发展", "高质量发展"]

  /** The matches that score two points instead of one. */
  const BonusPhrases: set<string> := {"民营经济", "经济发展", "高质量发展", "民营企业"}

  /** The arguments the scorer passes to the splitter, the keyword
      extraction and the topic lists. */
  const SegmentLength: nat := 512
  const KeywordCount: nat := 40
  const TopicWordCount: nat := 10

  /** The floor applied to texts that mention 民营经济 and 发展. */
  const FloorScore: real := 5.0

  /** The set of the words of a list (`set(ws)`). */
  function SetOf(ws: seq<string>): set<string> {
    set w | w in ws
  }

  /** The words of `ws` that occur in the text, in order
      (`content_based_matches`). */
  function Occurring(ws: seq<string>, text: string): seq<string> {
    if ws == [] then []
    else Occurring(ws[..|ws| - 1], text) + (if Contains(text, ws[|ws| - 1]) then [ws[|ws| - 1]] else [])
  }

  /** A word is a content match exactly when it is a target and a substring of the text. */
  lemma {:induction false} OccurringMembers(ws: seq<string>, text: string, w: string)
    ensures w in Occurring(ws, text) <==> w in ws && Contains(text, w)
  {
    if ws != [] {
      OccurringMembers(ws[..|ws| - 1], text, w);
      assert ws == ws[..|ws| - 1] + [ws[|ws| - 1]];
    }
  }

  /** The loop that collects the extended targets occurring in the text. */
  method ContentMatches(text: string, extended: seq<string>) returns (matches: seq<string>)
    ensures matches == Occurring(extended, text)
    ensures forall w :: w in matches <==> w in extended && Contains(text, w)
  {
    matches := [];
    for i := 0 to |extended|
      invariant matches == Occurring(extended[..i], text)
    {
      assert extended[..i + 1][..i] == extended[..i];
      if Contains(text, extended[i]) {
        matches := matches + [extended[i]];
      }
    }
    assert extended[..|extended|] == extended;
    forall w ensures w in matches <==> w in extended && Contains(text, w) {
      OccurringMembers(extended, text, w);
    }
  }

  /** `direct_matches`: the extended targets among the extracted keywords,
      or, when there are none, the content matches. */
  function DirectMatches(extended: seq<string>, keywords: seq<string>, content: seq<string>): set<string> {
    var common := SetOf(extended) * SetOf(keywords);
    if |common| == 0 && |content| > 0 then SetOf(content) else common
  }

  /** Every direct match is an extended target that was extracted or occurs
      in the text; the extracted ones are used whenever there are any; and
      there is no match exactly when no target was extracted and none occurs. */
  lemma DirectMatchesSpec(text: string, extended: seq<string>, keywords: seq<string>)
    ensures var m := DirectMatches(extended, keywords, Occurring(extended, text));
      && (forall w :: w in m ==> w in extended && (w in keywords || Contains(text, w)))
      && (SetOf(extended) * SetOf(keywords) != {} ==> m == SetOf(extended) * SetOf(keywords))
      && (SetOf(extended) * SetOf(keywords) == {} ==> m == set w | w in extended && Contains(text, w))
      && (m == {} <==> (forall w :: w in extended ==> w !in keywords && !Contains(text, w)))
  {
    var content := Occurring(extended, text);
    var common := SetOf(extended) * SetOf(keywords);
    forall w ensures w in content <==> w in extended && Contains(text, w) {
      OccurringMembers(extended, text, w);
    }
    if common == {} {
      assert forall w :: w in extended ==> w !in keywords by {
        forall w | w in extended ensures w !in keywords {
          assert w in keywords ==> w in common;
        }
      }
      if content != [] {
        assert content[0] in SetOf(content);
      } else {
        forall w | w in extended ensures !Contains(text, w) {
          assert w !in content;
        }
      }
    } else {
      var w :| w in common;
      assert w in extended && w in keywords;
    }
  }

  /** `direct_match_score`: two points per bonus phrase matched, one per other match. */
  function Points(matches: set<string>): nat {
    |matches| + |matches * BonusPhrases|
  }

  /** Adding one more match adds its points. */
  lemma PointsAdd(done: set<string>, m: string)
    requires m !in done
    ensures Points(done + {m}) == Points(done) + (if m in BonusPhrases then 2 else 1)
  {
    var b := done * BonusPhrases;
    if m in BonusPhrases {
      assert (done + {m}) * BonusPhrases == b + {m};
    } else {
      assert (done + {m}) * BonusPhrases == b;
    }
  }

  /** The loop over the (unordered) match set that adds up the points. */
  method MatchPoints(matches: set<string>) returns (points: nat)
    ensures points == Points(matches)
  {
    points := 0;
    var rest := matches;
    while rest != {}
      invariant rest <= matches
      invariant points == Points(matches - rest)
      decreases |rest|
    {
      var m :| m in rest;
      var done := matches - rest;
      assert Points(matches - (rest - {m})) == Points(done) + (if m in BonusPhrases then 2 else 1) by {
        assert matches - (rest - {m}) == done + {m};
        PointsAdd(done, m);
      }
      points := points + (if m in BonusPhrases then 2 else 1);
      rest := rest - {m};
    }
    assert matches - rest == matches;
  }

  /** `min(points / len(target_keywords) * 10, 10)`. */
  function DirectScore(points: nat, nTargets: nat): real
    requires nTargets > 0
  {
    var raw := (points as real) / (nTargets as real) * 10.0;
    if raw <= 10.0 then raw else 10.0
  }

  /** The direct score lies in [0, 10], reaches 10 exactly when there are at
      least as many points as targets, and is proportional to the points below that. */
  lemma DirectScoreSpec(points: nat, nTargets: nat)
    requires nTargets > 0
    ensures 0.0 <= DirectScore(points, nTargets) <= 10.0
    ensures DirectScore(points, nTargets) == 10.0 <==> points >= nTargets
    ensures points < nTargets ==> DirectScore(points, nTargets) * (nTargets as real) == 10.0 * (points as real)
  {
    var n := nTargets as real;
    var p := points as real;
    assert (p / n) * n == p;
    if points >= nTargets {
      assert p / n >= 1.0;
    } else {
      assert p / n < 1.0;
    }
  }

  /** One topic's match: `len(set(extended) & set(words)) / len(target_keywords) * 10`. */
  function TopicMatch(extended: seq<string>, nTargets: nat, words: seq<string>): real
    requires nTargets > 0
  {
    (|SetOf(extended) * SetOf(words)| as real) / (nTargets as real) * 10.0
  }

  /** `max(xs)`. */
  function MaxOf(xs: seq<real>): real
    requires xs != []
  {
    if |xs| == 1 then xs[0]
    else
      var m := MaxOf(xs[..|xs| - 1]);
      if xs[|xs| - 1] > m then xs[|xs| - 1] else m
  }

  /** The maximum is one of the values and bounds all of them. */
  lemma {:induction false} MaxOfSpec(xs: seq<real>)
    requires xs != []
    ensures MaxOf(xs) in xs
    ensures forall k :: 0 <= k < |xs| ==> xs[k] <= MaxOf(xs)
  {
    if |xs| > 1 {
      var init := xs[..|xs| - 1];
      MaxOfSpec(init);
      assert forall k :: 0 <= k < |init| ==> xs[k] == init[k];
    }
  }

  /** `lda_score`: 0 without topics, else the best topic's match (not capped at 10). */
  function TopicScore(extended: seq<string>, nTargets: nat, topics: seq<seq<string>>): real
    requires nTargets > 0
  {
    if topics == [] then 0.0
    else MaxOf(seq(|topics|, t requires 0 <= t < |topics| => TopicMatch(extended, nTargets, topics[t])))
  }

  /** The loop that lists every topic's match, followed by `max`. */
  method TopicScoreLoop(extended: seq<string>, nTargets: nat, topics: seq<seq<string>>) returns (score: real)
    requires nTargets > 0
    ensures score == TopicScore(extended, nTargets, topics)
  {
    score := 0.0;
    if topics != [] {
      var scores: seq<real> := [];
      for t := 0 to |topics|
        invariant scores == seq(t, u requires 0 <= u < t => TopicMatch(extended, nTargets, topics[u]))
      {
        scores := scores + [TopicMatch(extended, nTargets, topics[t])];
      }
      score := MaxOf(scores);
    }
  }

  lemma {:induction false} SubsetCard(a: set<string>, b: set<string>)
    requires a <= b
    ensures |a| <= |b|
    decreases |b|
  {
    if b != {} {
      var x :| x in b;
      SubsetCard(a - {x}, b - {x});
    }
  }

  lemma {:induction false} SetOfCard(ws: seq<string>)
    ensures |SetOf(ws)| <= |ws|
  {
    if ws != [] {
      var init := ws[..|ws| - 1];
      SetOfCard(init);
      assert ws == init + [ws[|ws| - 1]];
      assert SetOf(ws) == SetOf(init) + {ws[|ws| - 1]};
    }
  }

  /** A topic's match is never negative, and it is at most 10 when the topic
      lists no more words than there are targets. */
  lemma TopicMatchBounds(extended: seq<string>, nTargets: nat, words: seq<string>)
    requires nTargets > 0
    ensures TopicMatch(extended, nTargets, words) >= 0.0
    ensures |words| <= nTargets ==> TopicMatch(extended, nTargets, words) <= 10.0
  {
    var common := SetOf(extended) * SetOf(words);
    SubsetCard(common, SetOf(words));
    SetOfCard(words);
    var n := nTargets as real;
    var c := |common| as real;
    if |words| <= nTargets {
      assert c <= n;
      assert c / n <= 1.0;
    }
  }

  /** The topic score is 0 without topics and otherwise the match of some
      topic, at least that of every topic; it is never negative, and at most
      10 when no topic lists more words than there are targets. */
  lemma TopicScoreSpec(extended: seq<string>, nTargets: nat, topics: seq<seq<string>>)
    requires nTargets > 0
    ensures topics == [] ==> TopicScore(extended, nTargets, topics) == 0.0
    ensures topics != [] ==> exists t :: 0 <= t < |topics| && TopicScore(extended, nTargets, topics) == TopicMatch(extended, nTargets, topics[t])
    ensures forall t :: 0 <= t < |topics| ==> TopicMatch(extended, nTargets, topics[t]) <= TopicScore(extended, nTargets, topics)
    ensures TopicScore(extended, nTargets, topics) >= 0.0
    ensures (forall t :: 0 <= t < |topics| ==> |topics[t]| <= nTargets) ==> TopicScore(extended, nTargets, topics) <= 10.0
  {
    if topics != [] {
      var scores := seq(|topics|, t requires 0 <= t < |topics| => TopicMatch(extended, nTargets, topics[t]));
      MaxOfSpec(scores);
      assert forall u :: 0 <= u < |topics| ==> scores[u] == TopicMatch(extended, nTargets, topics[u]);
      var t :| 0 <= t < |scores| && scores[t] == MaxOf(scores);
      TopicMatchBounds(extended, nTargets, topics[t]);
    }
  }

  /** `0.7 * direct_score + 0.3 * lda_score`. */
  function Combined(direct: real, topic: real): real {
    0.7 * direct + 0.3 * topic
  }

  /** The texts for which the score is raised to at least 5. */
  predicate NamesPrivateEconomy(text: string) {
    Contains(text, "民营经济") && Contains(text, "发展")
  }

  /** The adjustment: such a text scoring below 5 gets exactly 5. */
  function ApplyFloor(text: string, score: real): real {
    if NamesPrivateEconomy(text) && score < FloorScore then FloorScore else score
  }

  /** The floor raises a score to 5 only for a text that names both words
      and scores below 5; any other score is left as it is. */
  lemma ApplyFloorSpec(text: string, score: real)
    ensures ApplyFloor(text, score) >= score
    ensures NamesPrivateEconomy(text) ==> ApplyFloor(text, score) >= FloorScore
    ensures ApplyFloor(text, score) != score ==> NamesPrivateEconomy(text) && score < FloorScore && ApplyFloor(text, score) == FloorScore
  {
  }

  /** Python's `round(x)`: the nearest integer, ties to the even one. */
  function RoundHalfEven(x: real): int {
    var f := x.Floor;
    var frac := x - f as real;
    if frac < 0.5 then f
    else if frac > 0.5 then f + 1
    else if f % 2 == 0 then f
    else f + 1
  }

  /** The rounded value is within 1/2 of `x`, and even when exactly 1/2 away. */
  lemma RoundHalfEvenSpec(x: real)
    ensures var r := RoundHalfEven(x) as real;
      && -0.5 <= r - x <= 0.5
      && ((r - x == 0.5 || x - r == 0.5) ==> RoundHalfEven(x) % 2 == 0)
  {
    var f := x.Floor;
    assert f as real <= x < f as real + 1.0;
  }

  /** No other integer is closer to `x`, or as close and even. */
  lemma RoundHalfEvenUnique(x: real, n: int)
    requires -0.5 < (n as real) - x < 0.5 || ((n as real - x == 0.5 || x - n as real == 0.5) && n % 2 == 0)
    ensures n == RoundHalfEven(x)
  {
    var f := x.Floor;
    assert f as real <= x < f as real + 1.0;
  }

  /** Rounding keeps a value in [0, 10] in [0, 10], and one of at least 5 at least 5. */
  lemma RoundBounds(x: real)
    ensures x >= 0.0 ==> RoundHalfEven(x) >= 0
    ensures x <= 10.0 ==> RoundHalfEven(x) <= 10
    ensures x >= 5.0 ==> RoundHalfEven(x) >= 5
  {
    RoundHalfEvenSpec(x);
  }

  /** The target list in use: the given one, or the default. */
  function TargetsOrDefault(target: Option<seq<string>>): seq<string> {
    match target
    case None => DefaultTargets
    case Some(ts) => ts
  }

  /** The score of a non-empty text from its extracted keywords and topic
      lists, as `calculate_relevance_score` computes it. */
  function RelevanceScore(text: string, targets: seq<string>, keywords: seq<string>, topics: seq<seq<string>>): int
    requires |targets| > 0
  {
    var extended := targets + KeyPhrases;
    var matches := DirectMatches(extended, keywords, Occurring(extended, text));
    var direct := DirectScore(Points(matches), |targets|);
    var topic := TopicScore(extended, |targets|, topics);
    RoundHalfEven(ApplyFloor(text, Combined(direct, topic)))
  }

  /** The score is never negative; it is at most 10 when no topic lists more
      words than there are targets; and a text naming 民营经济 and 发展 scores
      at least 5. */
  lemma RelevanceScoreBounds(text: string, targets: seq<string>, keywords: seq<string>, topics: seq<seq<string>>)
    requires |targets| > 0
    ensures RelevanceScore(text, targets, keywords, topics) >= 0
    ensures (forall t :: 0 <= t < |topics| ==> |topics[t]| <= |targets|) ==> RelevanceScore(text, targets, keywords, topics) <= 10
    ensures NamesPrivateEconomy(text) ==> RelevanceScore(text, targets, keywords, topics) >= 5
  {
    var extended := targets + KeyPhrases;
    var matches := DirectMatches(extended, keywords, Occurring(extended, text));
    var direct := DirectScore(Points(matches), |targets|);
    var topic := TopicScore(extended, |targets|, topics);
    DirectScoreSpec(Points(matches), |targets|);
    TopicScoreSpec(extended, |targets|, topics);
    var final := ApplyFloor(text, Combined(direct, topic));
    ApplyFloorSpec(text, Combined(direct, topic));
    RoundBounds(final);
  }

  /** calculate_relevance_score(text, target_keywords), given what the two
      keyword extractors return for the text and the topic model fitted on
      its segments (absent when fitting failed). An explicitly empty target
      list divides by zero for any non-empty text. */
  method CalculateRelevanceScore(text: string, target: Option<seq<string>>, tfidf: seq<Scored>, textrank: seq<Scored>,
                                 model: Option<TopicModel>) returns (score: int)
    requires text != [] ==> target != Some([])
    ensures text == [] ==> score == 0
    ensures text != [] ==> score == RelevanceScore(text, TargetsOrDefault(target),
      TopWords(Fuse(text, tfidf, textrank), KeywordCount), TopicKeywords(model, TopicWordCount))
  {
    var targets := if target.None? then DefaultTargets else target.value;
    var extended := targets + KeyPhrases;
    var contentMatches := ContentMatches(text, extended);
    var segments;
    ghost var groups;
    segments, groups := Segmenter.SplitText(text, SegmentLength);
    if segments == [] {
      return 0;
    }
    var keywords := ExtractKeywords(text, tfidf, textrank, KeywordCount);
    var topics := GetTopicKeywords(model, TopicWordCount);
    var matches := SetOf(extended) * SetOf(keywords);
    if |matches| == 0 && |contentMatches| > 0 {
      matches := SetOf(contentMatches);
    }
    var points := MatchPoints(matches);
    var direct := DirectScore(points, |targets|);
    var topic := TopicScoreLoop(extended, |targets|, topics);
    var final := Combined(direct, topic);
    if NamesPrivateEconomy(text) && final < FloorScore {
      final := FloorScore;
    }
    score := RoundHalfEven(final);
  }

  /** `topic_keywords_map`. */
  const TopicTargets: map<string, seq<string>> := map[
    "民营经济发展" := DefaultTargets,
    "科技创新" := ["科技", "创新", "研发", "技术", "人才", "突破", "数字", "智能", "现代化", "核心"],
    "乡村振兴" := ["乡村", "振兴", "农业", "农村", "农民", "现代化", "产业", "生态", "文化", "组织"]
  ]

  /** `topic_keywords_map.get(target_topic, topic_keywords_map["民营经济发展"])`. */
  function TargetsFor(topic: string): seq<string> {
    if topic in TopicTargets then TopicTargets[topic] else TopicTargets["民营经济发展"]
  }

  /** Every topic, known or not, gets a list of ten target words; an unknown
      topic gets the 民营经济发展 list. */
  lemma TargetsForSpec(topic: string)
    ensures |TargetsFor(topic)| == 10
    ensures topic !in TopicTargets ==> TargetsFor(topic) == DefaultTargets
  {
  }

  /** A text containing a string with a non-whitespace character is not blank. */
  lemma ContainsNotBlank(text: string, sub: string, k: nat)
    requires Contains(text, sub) && k < |sub| && !IsSpace(sub[k])
    ensures !IsBlank(text)
  {
    ContainsSpec(text, sub);
    var i :| OccursAt(text, sub, i);
    assert text[i + k] == sub[k];
  }

  /** analyze_chinese_topic_relevance(text, target_topic), returning the
      `relevance_score` entry: 0 for an empty or whitespace-only text,
      otherwise the relevance score against the topic's target words, which
      lies in [0, 10] and is at least 5 for a text naming 民营经济 and 发展. */
  method AnalyzeChineseTopicRelevance(text: string, topic: string, tfidf: seq<Scored>, textrank: seq<Scored>,
                                      model: Option<TopicModel>) returns (score: int)
    ensures IsBlank(text) ==> score == 0
    ensures !IsBlank(text) ==> score == RelevanceScore(text, TargetsFor(topic),
      TopWords(Fuse(text, tfidf, textrank), KeywordCount), TopicKeywords(model, TopicWordCount))
    ensures 0 <= score <= 10
    ensures NamesPrivateEconomy(text) ==> score >= 5
  {
    StripSpec(text);
    if text == [] || |Strip(text)| == 0 {
      if NamesPrivateEconomy(text) {
        ContainsNotBlank(text, "民营经济", 0);
      }
      return 0;
    }
    var targets := TargetsFor(topic);
    TargetsForSpec(topic);
    score := CalculateRelevanceScore(text, Some(targets), tfidf, textrank, model);
    var topics := TopicKeywords(model, TopicWordCount);
    TopicKeywordsSpec(model, TopicWordCount);
    RelevanceScoreBounds(text, targets, TopWords(Fuse(text, tfidf, textrank), KeywordCount), topics);
  }
}
