/**
 * `get_topic_keywords`: the `n` heaviest vocabulary words of every topic of a
 * fitted topic model. Fitting the model is a library call; the fitted model
 * (its vocabulary and its topic-word weight rows) is an input here.
 */
module Topics {
  import opened Options
  import opened PyText
  import opened StableSort

  /** What `get_topic_keywords` reads of a fitted model and its vectorizer:
      `get_feature_names_out()` and `components_`, one weight row per topic. */
  datatype TopicModel = TopicModel(featureNames: seq<string>, components: seq<seq<real>>)

  /** The column indices `0, 1, ..., n - 1`. */
  function Range(n: nat): seq<nat> {
    seq(n, i => i)
  }

  /** The weight of a column, as the sort key over column indices. */
  function IndexWeight(weights: seq<real>): nat -> real {
    (i: nat) => if i < |weights| then weights[i] else 0.0
  }

  /** `weights.argsort()[:-n - 1:-1]`: the indices of the `n` largest weights
      (all of them when there are fewer), largest first. */
  function TopIndices(weights: seq<real>, n: nat): seq<nat> {
    SortDescPermutation(Range(|weights|), IndexWeight(weights));
    SortDesc(Range(|weights|), IndexWeight(weights))[..Min(n, |weights|)]
  }

  /** The selection holds `min(n, len(weights))` distinct column indices,
      heaviest first, and no column left out weighs more than a selected one. */
  lemma TopIndicesSpec(weights: seq<real>, n: nat)
    ensures var r := TopIndices(weights, n);
      && |r| == Min(n, |weights|)
      && (forall k :: 0 <= k < |r| ==> r[k] < |weights|)
      && (forall i, j :: 0 <= i < j < |r| ==> r[i] != r[j])
      && (forall i, j :: 0 <= i < j < |r| ==> weights[r[i]] >= weights[r[j]])
      && (forall c :: 0 <= c < |weights| && c !in r ==> forall k :: 0 <= k < |r| ==> weights[c] <= weights[r[k]])
  {
    TopIndicesColumns(weights, n);
    TopIndicesOrdered(weights, n);
    TopIndicesComplete(weights, n);
  }

  lemma TopIndicesColumns(weights: seq<real>, n: nat)
    ensures var r := TopIndices(weights, n);
      && |r| == Min(n, |weights|)
      && (forall k :: 0 <= k < |r| ==> r[k] < |weights|)
      && (forall i, j :: 0 <= i < j < |r| ==> r[i] != r[j])
  {
    var cols, key := Range(|weights|), IndexWeight(weights);
    var r := TopIndices(weights, n);
    SortDescTop(cols, key, n);
    var id := (i: nat) => i;
    assert InjectiveOn(cols, id);
    SortDescInjective(cols, key, id);
    forall k | 0 <= k < |r| ensures r[k] < |weights| {
      assert r[k] in cols;
    }
  }

  lemma TopIndicesOrdered(weights: seq<real>, n: nat)
    ensures var r := TopIndices(weights, n);
      forall i, j :: 0 <= i < j < |r| ==> r[i] < |weights| && r[j] < |weights| && weights[r[i]] >= weights[r[j]]
  {
    var cols, key := Range(|weights|), IndexWeight(weights);
    var r := TopIndices(weights, n);
    TopIndicesColumns(weights, n);
    assert SortedDesc(r, key) by {
      SortDescTop(cols, key, n);
    }
    forall i, j | 0 <= i < j < |r| ensures weights[r[i]] >= weights[r[j]] {
      assert key(r[i]) >= key(r[j]);
    }
  }

  lemma TopIndicesComplete(weights: seq<real>, n: nat)
    ensures var r := TopIndices(weights, n);
      forall c :: 0 <= c < |weights| && c !in r ==>
        forall k :: 0 <= k < |r| ==> r[k] < |weights| && weights[c] <= weights[r[k]]
  {
    var cols, key := Range(|weights|), IndexWeight(weights);
    var r := TopIndices(weights, n);
    TopIndicesColumns(weights, n);
    assert forall y :: y in cols && y !in r ==> forall i :: 0 <= i < |r| ==> key(y) <= key(r[i]) by {
      SortDescTop(cols, key, n);
    }
    forall c | 0 <= c < |weights| && c !in r ensures forall k :: 0 <= k < |r| ==> weights[c] <= weights[r[k]] {
      assert cols[c] == c;
      forall k | 0 <= k < |r| ensures weights[c] <= weights[r[k]] {
        assert key(c) <= key(r[k]);
      }
    }
  }

  /** Every selected index of the row names a vocabulary word. */
  predicate RowInVocabulary(names: seq<string>, row: seq<real>, nTop: nat) {
    forall k :: 0 <= k < |TopIndices(row, nTop)| ==> TopIndices(row, nTop)[k] < |names|
  }

  /** `[feature_names[i] for i in top_keywords_idx]`. */
  function TopicWords(names: seq<string>, row: seq<real>, nTop: nat): seq<string>
    requires RowInVocabulary(names, row, nTop)
  {
    var idx := TopIndices(row, nTop);
    seq(|idx|, k requires 0 <= k < |idx| => names[idx[k]])
  }

  /** What `get_topic_keywords` returns, its dict keyed `0, 1, ...` written
      as a list: nothing without a model, nothing when some selected index
      falls outside the vocabulary (the `IndexError` its handler catches),
      and otherwise every topic's top words. */
  function TopicKeywords(model: Option<TopicModel>, nTop: nat): seq<seq<string>> {
    match model
    case None => []
    case Some(m) =>
      if forall t :: 0 <= t < |m.components| ==> RowInVocabulary(m.featureNames, m.components[t], nTop)
      then seq(|m.components|, t requires 0 <= t < |m.components| => TopicWords(m.featureNames, m.components[t], nTop))
      else []
  }

  /** The `i`-th and `j`-th words name two different columns of the row, the
      first weighing at least as much as the second. */
  ghost predicate RankedPair(names: seq<string>, row: seq<real>, words: seq<string>, i: nat, j: nat)
    requires i < |words| && j < |words|
  {
    exists a: nat, b: nat :: a < |row| && b < |row| && a < |names| && b < |names| && a != b
      && words[i] == names[a] && words[j] == names[b] && row[a] >= row[b]
  }

  /** One topic's list: `min(nTop, len(row))` words, each earlier word
      naming a column that weighs at least as much as a later word's. */
  lemma TopicWordsSpec(names: seq<string>, row: seq<real>, nTop: nat)
    requires RowInVocabulary(names, row, nTop)
    ensures var words := TopicWords(names, row, nTop);
      && |words| == Min(nTop, |row|)
      && forall i, j :: 0 <= i < j < |words| ==> RankedPair(names, row, words, i, j)
  {
    var words := TopicWords(names, row, nTop);
    var idx := TopIndices(row, nTop);
    TopIndicesSpec(row, nTop);
    forall i, j | 0 <= i < j < |words| ensures RankedPair(names, row, words, i, j) {
      var a, b := idx[i], idx[j];
      assert words[i] == names[a] && words[j] == names[b];
    }
  }

  /** Without a model there are no topics. With one, there is one list per
      topic, each of at most `nTop` words, when every selected index names a
      vocabulary word, and no list at all when some selected index falls
      outside the vocabulary (the caught `IndexError`). */
  lemma TopicKeywordsSpec(model: Option<TopicModel>, nTop: nat)
    ensures model.None? ==> TopicKeywords(model, nTop) == []
    ensures model.Some? && (forall t :: 0 <= t < |model.value.components| ==>
              RowInVocabulary(model.value.featureNames, model.value.components[t], nTop)) ==>
      |TopicKeywords(model, nTop)| == |model.value.components|
    ensures model.Some? && (exists t :: 0 <= t < |model.value.components|
                                       && !RowInVocabulary(model.value.featureNames, model.value.components[t], nTop)) ==>
      TopicKeywords(model, nTop) == []
    ensures forall t :: 0 <= t < |TopicKeywords(model, nTop)| ==> |TopicKeywords(model, nTop)[t]| <= nTop
    ensures model.Some? && TopicKeywords(model, nTop) != [] ==>
      && |TopicKeywords(model, nTop)| == |model.value.components|
      && forall t :: 0 <= t < |model.value.components| ==>
           TopicKeywords(model, nTop)[t] == TopicWords(model.value.featureNames, model.value.components[t], nTop)
  {
    var r := TopicKeywords(model, nTop);
    if model.Some? && r != [] {
      var m := model.value;
      forall t | 0 <= t < |m.components| ensures |r[t]| <= nTop {
        TopicWordsSpec(m.featureNames, m.components[t], nTop);
      }
    }
  }

  /** get_topic_keywords(lda, vectorizer, n_top_words). */
  method GetTopicKeywords(model: Option<TopicModel>, nTop: nat) returns (topics: seq<seq<string>>)
    ensures topics == TopicKeywords(model, nTop)
  {
    if model.None? {
      return [];
    }
    var m := model.value;
    topics := [];
    for t := 0 to |m.components|
      invariant |topics| == t
      invariant forall u :: 0 <= u < t ==> RowInVocabulary(m.featureNames, m.components[u], nTop)
      invariant forall u :: 0 <= u < t ==> topics[u] == TopicWords(m.featureNames, m.components[u], nTop)
    {
      var idx := TopIndices(m.components[t], nTop);
      var words := [];
      for k := 0 to |idx|
        invariant |words| == k
        invariant forall j :: 0 <= j < k ==> idx[j] < |m.featureNames| && words[j] == m.featureNames[idx[j]]
      {
        if idx[k] >= |m.featureNames| {
          // feature_names[i] raises; the handler returns {}
          return [];
        }
        words := words + [m.featureNames[idx[k]]];
      }
      topics := topics + [words];
    }
  }
}
