/**
 * The keyword side of the topic-relevance analysis: the fusion of the
 * TF-IDF and TextRank keyword lists into one insertion-ordered dict, the
 * injection of known phrases that occur in the text, the top-K selection by
 * weight, and the stop-word filter applied to tokenized texts.
 *
 * The two extractors are library calls; their outputs are inputs here.
 */
module Keywords {
  import opened Options
  import opened PyText
  import opened StableSort
  import opened Chunking

  /** One `(word, weight)` item, as the extractors return them and as
      `dict.items()` yields them. */
  datatype Scored = Scored(word: string, weight: real)

  /** A Python dict from words to weights, as its items in insertion order. */
  type Dict = seq<Scored>

  function WordOf(e: Scored): string { e.word }

  function WeightOf(e: Scored): real { e.weight }

  /** The words of a list of items, in order (`list(d)` for a dict). */
  function Keys(d: seq<Scored>): seq<string> {
    seq(|d|, i requires 0 <= i < |d| => d[i].word)
  }

  /** No word occurs twice. */
  predicate Distinct(ws: seq<string>) {
    forall i, j :: 0 <= i < j < |ws| ==> ws[i] != ws[j]
  }

  lemma KeysAppend(a: seq<Scored>, b: seq<Scored>)
    ensures Keys(a + b) == Keys(a) + Keys(b)
  {
  }

  lemma KeysTail(d: seq<Scored>)
    requires d != []
    ensures Keys(d) == [d[0].word] + Keys(d[1..])
  {
  }

  /** `d.get(w)`: the weight stored under `w`, if there is one (the first
      item with that word, which for a dict is the only one). */
  function Get(d: seq<Scored>, w: string): Option<real> {
    if d == [] then None
    else if d[0].word == w then Some(d[0].weight)
    else Get(d[1..], w)
  }

  /** A lookup succeeds exactly for the keys (`w in d`). */
  lemma {:induction false} GetSpec(d: seq<Scored>, w: string)
    ensures Get(d, w).Some? <==> w in Keys(d)
  {
    if d != [] {
      KeysTail(d);
      GetSpec(d[1..], w);
    }
  }

  /** `d[w]` for a word that is present; 0 otherwise. */
  function Weight(d: Dict, w: string): real {
    match Get(d, w)
    case Some(x) => x
    case None => 0.0
  }

  /** `d[w] = x`: an existing key keeps its place and takes the new value; a
      new key goes at the end. */
  function Put(d: Dict, w: string, x: real): Dict {
    if d == [] then [Scored(w, x)]
    else if d[0].word == w then [Scored(w, x)] + d[1..]
    else [d[0]] + Put(d[1..], w, x)
  }

  /** After `d[w] = x`, `w` maps to `x`, every other key keeps its value, and
      `w` is appended to the keys only if it was not one. */
  lemma {:induction false} PutSpec(d: Dict, w: string, x: real)
    ensures Get(Put(d, w, x), w) == Some(x)
    ensures forall u :: u != w ==> Get(Put(d, w, x), u) == Get(d, u)
    ensures Keys(Put(d, w, x)) == if w in Keys(d) then Keys(d) else Keys(d) + [w]
  {
    if d != [] {
      KeysTail(d);
      var r := Put(d, w, x);
      if d[0].word == w {
        KeysTail(r);
        assert r[1..] == d[1..];
      } else {
        var rest := Put(d[1..], w, x);
        PutSpec(d[1..], w, x);
        assert r[1..] == rest;
        KeysTail(r);
      }
    }
  }

  /** Assignment never creates a second copy of a key. */
  lemma PutDistinct(d: Dict, w: string, x: real)
    requires Distinct(Keys(d))
    ensures Distinct(Keys(Put(d, w, x)))
  {
    PutSpec(d, w, x);
  }

  lemma {:induction false} GetAppend(a: seq<Scored>, b: seq<Scored>, w: string)
    ensures Get(a + b, w) == if w in Keys(a) then Get(a, w) else Get(b, w)
  {
    if a == [] {
      assert a + b == b;
    } else {
      KeysTail(a);
      assert (a + b)[1..] == a[1..] + b;
      GetAppend(a[1..], b, w);
    }
  }

  /** In a list without repeated words, looking up an item's word finds that item. */
  lemma {:induction false} GetAt(d: seq<Scored>, m: nat)
    requires Distinct(Keys(d)) && m < |d|
    ensures Get(d, d[m].word) == Some(d[m].weight)
  {
    if m > 0 {
      var ks, rest := Keys(d), Keys(d[1..]);
      assert forall i :: 0 <= i < |rest| ==> rest[i] == ks[i + 1];
      assert ks[0] != ks[m];
      GetAt(d[1..], m - 1);
    }
  }

  /** Splitting off the last item of a list without repeated words. */
  lemma SplitLast(items: seq<Scored>)
    requires items != [] && Distinct(Keys(items))
    ensures var init, p := items[..|items| - 1], items[|items| - 1];
      && items == init + [p]
      && Keys(items) == Keys(init) + [p.word]
      && Distinct(Keys(init))
      && p.word !in Keys(init)
  {
    var init, p := items[..|items| - 1], items[|items| - 1];
    assert items == init + [p];
    KeysAppend(init, [p]);
    var ks := Keys(items);
    assert forall i :: 0 <= i < |init| ==> Keys(init)[i] == ks[i];
    assert forall k :: 0 <= k < |init| ==> Keys(init)[k] == ks[k] != ks[|init|];
  }

  /** The first loop: `keywords[word] = weight` for every TF-IDF item, in order. */
  function LoadAll(d: Dict, items: seq<Scored>): Dict {
    if items == [] then d
    else
      var p := items[|items| - 1];
      Put(LoadAll(d, items[..|items| - 1]), p.word, p.weight)
  }

  /** One step of the second loop: a word already present gets the mean of
      both weights, a new word keeps its own. */
  function Merge(d: Dict, p: Scored): Dict {
    match Get(d, p.word)
    case Some(a) => Put(d, p.word, (a + p.weight) / 2.0)
    case None => Put(d, p.word, p.weight)
  }

  /** The second loop, over the TextRank items. */
  function MergeAll(d: Dict, items: seq<Scored>): Dict {
    if items == [] then d
    else Merge(MergeAll(d, items[..|items| - 1]), items[|items| - 1])
  }

  /** The phrases checked against the raw text after the merge. */
  const ImportantPhrases: seq<string> :=
    ["民营经济", "民营企业", "经济发展", "高质量发展", "创新", "发展", "市场", "改革", "政策", "支持"]

  /** The weight given to an injected phrase. */
  const PhraseWeight: real := 0.5

  /** One step of the third loop: a phrase that occurs in the text and is not
      yet a key is added with the phrase weight. */
  function Inject(d: Dict, text: string, phrase: string): Dict {
    if Contains(text, phrase) && phrase !in Keys(d) then Put(d, phrase, PhraseWeight) else d
  }

  /** The third loop. */
  function InjectAll(d: Dict, text: string, phrases: seq<string>): Dict {
    if phrases == [] then d
    else Inject(InjectAll(d, text, phrases[..|phrases| - 1]), text, phrases[|phrases| - 1])
  }

  /** The dict the three loops build. */
  function Fuse(text: string, tfidf: seq<Scored>, textrank: seq<Scored>): Dict {
    InjectAll(MergeAll(LoadAll([], tfidf), textrank), text, ImportantPhrases)
  }

  /** `[word for word, _ in sorted(d.items(), key=weight, reverse=True)[:topK]]`. */
  function TopWords(d: Dict, topK: nat): seq<string> {
    Keys(TopItems(d, topK))
  }

  /** After the first loop a word has its TF-IDF weight, or the weight it had before. */
  lemma {:induction false} LoadAllGet(d: Dict, items: seq<Scored>, w: string)
    requires Distinct(Keys(items))
    ensures Get(LoadAll(d, items), w) == if w in Keys(items) then Get(items, w) else Get(d, w)
  {
    if items != [] {
      var init, p := items[..|items| - 1], items[|items| - 1];
      SplitLast(items);
      LoadAllGet(d, init, w);
      PutSpec(LoadAll(d, init), p.word, p.weight);
      GetAppend(init, [p], w);
      assert Keys([p]) == [p.word];
      assert Get([p], w) == if w == p.word then Some(p.weight) else None;
    }
  }

  /** How a word's weight before the second loop (`a`) and its TextRank
      weight (`b`) combine: the mean when both exist, otherwise whichever does. */
  function Combine(a: Option<real>, b: Option<real>): Option<real> {
    match (a, b)
    case (Some(x), Some(y)) => Some((x + y) / 2.0)
    case (Some(x), None) => Some(x)
    case (None, y) => y
  }

  /** One merge step changes only the merged word's weight and appends it
      to the keys only if it was not one. */
  lemma MergeStep(m: Dict, p: Scored, w: string)
    ensures Get(Merge(m, p), w) == if w == p.word then Combine(Get(m, w), Some(p.weight)) else Get(m, w)
    ensures Keys(Merge(m, p)) == if p.word in Keys(m) then Keys(m) else Keys(m) + [p.word]
  {
    GetSpec(m, p.word);
    match Get(m, p.word)
    case Some(a) => PutSpec(m, p.word, (a + p.weight) / 2.0);
    case None => PutSpec(m, p.word, p.weight);
  }

  /** The lookup in a list without repeated words, split at its last item. */
  lemma GetLast(items: seq<Scored>, w: string)
    requires items != [] && Distinct(Keys(items))
    ensures var init, p := items[..|items| - 1], items[|items| - 1];
      && Distinct(Keys(init))
      && Get(items, w) == (if w == p.word then Some(p.weight) else Get(init, w))
      && (w == p.word ==> Get(init, w) == None)
  {
    var init, p := items[..|items| - 1], items[|items| - 1];
    SplitLast(items);
    GetAppend(init, [p], w);
    GetSpec(init, w);
    assert Keys([p]) == [p.word];
    assert Get([p], w) == if w == p.word then Some(p.weight) else None;
  }

  /** After the second loop a word in both lists has the mean of its two
      weights, a word in one list only has that list's weight. */
  lemma {:induction false} MergeAllGet(d: Dict, items: seq<Scored>, w: string)
    requires Distinct(Keys(items))
    ensures Get(MergeAll(d, items), w) == Combine(Get(d, w), Get(items, w))
  {
    if items != [] {
      var init, p := items[..|items| - 1], items[|items| - 1];
      GetLast(items, w);
      MergeAllGet(d, init, w);
      MergeStep(MergeAll(d, init), p, w);
    }
  }

  /** After the third loop a word that was absent has the phrase weight
      exactly when it is one of the phrases and occurs in the text; every
      present word keeps its weight. */
  lemma {:induction false} InjectAllGet(d: Dict, text: string, phrases: seq<string>, w: string)
    ensures Get(InjectAll(d, text, phrases), w) ==
      if Get(d, w) == None && w in phrases && Contains(text, w) then Some(PhraseWeight) else Get(d, w)
  {
    if phrases != [] {
      var init := phrases[..|phrases| - 1];
      assert phrases == init + [phrases[|phrases| - 1]];
      var cur, p := InjectAll(d, text, init), phrases[|phrases| - 1];
      InjectAllGet(d, text, init, w);
      PutSpec(cur, p, PhraseWeight);
      GetSpec(cur, w);
      GetSpec(d, w);
    }
  }

  /** The weight of every word in the fused dict, given that each extractor
      lists a word at most once. */
  lemma FusedWeight(text: string, tfidf: seq<Scored>, textrank: seq<Scored>, w: string)
    requires Distinct(Keys(tfidf)) && Distinct(Keys(textrank))
    ensures Get(Fuse(text, tfidf, textrank), w) ==
      if w in Keys(tfidf) && w in Keys(textrank) then Some((Weight(tfidf, w) + Weight(textrank, w)) / 2.0)
      else if w in Keys(tfidf) then Some(Weight(tfidf, w))
      else if w in Keys(textrank) then Some(Weight(textrank, w))
      else if w in ImportantPhrases && Contains(text, w) then Some(PhraseWeight)
      else None
  {
    var loaded := LoadAll([], tfidf);
    var merged := MergeAll(loaded, textrank);
    assert Get([], w) == None;
    GetSpec(tfidf, w);
    GetSpec(textrank, w);
    LoadAllGet([], tfidf, w);
    MergeAllGet(loaded, textrank, w);
    InjectAllGet(merged, text, ImportantPhrases, w);
  }

  /** The words of `ws`, in order, that are not in `seen`. */
  function Unseen(ws: seq<string>, seen: seq<string>): seq<string> {
    if ws == [] then []
    else Unseen(ws[..|ws| - 1], seen) + (if ws[|ws| - 1] in seen then [] else [ws[|ws| - 1]])
  }

  /** The phrases, in order, that occur in the text and are not in `seen`. */
  function Found(phrases: seq<string>, text: string, seen: seq<string>): seq<string> {
    if phrases == [] then []
    else
      var p := phrases[|phrases| - 1];
      Found(phrases[..|phrases| - 1], text, seen) + (if Contains(text, p) && p !in seen then [p] else [])
  }

  lemma {:induction false} UnseenMembers(ws: seq<string>, seen: seq<string>, w: string)
    ensures w in Unseen(ws, seen) <==> w in ws && w !in seen
  {
    if ws != [] {
      UnseenMembers(ws[..|ws| - 1], seen, w);
      assert ws == ws[..|ws| - 1] + [ws[|ws| - 1]];
    }
  }

  lemma {:induction false} FoundMembers(phrases: seq<string>, text: string, seen: seq<string>, w: string)
    ensures w in Found(phrases, text, seen) <==> w in phrases && Contains(text, w) && w !in seen
  {
    if phrases != [] {
      FoundMembers(phrases[..|phrases| - 1], text, seen, w);
      assert phrases == phrases[..|phrases| - 1] + [phrases[|phrases| - 1]];
    }
  }

  /** The first loop's keys are the TF-IDF words in their order. */
  lemma {:induction false} LoadAllKeys(items: seq<Scored>)
    requires Distinct(Keys(items))
    ensures Keys(LoadAll([], items)) == Keys(items)
  {
    if items != [] {
      var init, p := items[..|items| - 1], items[|items| - 1];
      SplitLast(items);
      LoadAllKeys(init);
      PutSpec(LoadAll([], init), p.word, p.weight);
    }
  }

  /** The second loop appends the TextRank words that were not yet keys, in their order. */
  lemma {:induction false} MergeAllKeys(d: Dict, items: seq<Scored>)
    requires Distinct(Keys(items))
    ensures Keys(MergeAll(d, items)) == Keys(d) + Unseen(Keys(items), Keys(d))
  {
    if items != [] {
      var init, p := items[..|items| - 1], items[|items| - 1];
      var m := MergeAll(d, init);
      assert Distinct(Keys(init)) && p.word !in Keys(init) && Keys(items) == Keys(init) + [p.word] by {
        SplitLast(items);
      }
      var u := Unseen(Keys(init), Keys(d));
      assert Unseen(Keys(items), Keys(d)) == u + (if p.word in Keys(d) then [] else [p.word]) by {
        var ks := Keys(items);
        assert ks[..|ks| - 1] == Keys(init) && ks[|ks| - 1] == p.word;
      }
      assert Keys(m) == Keys(d) + u by {
        MergeAllKeys(d, init);
      }
      assert p.word in Keys(m) <==> p.word in Keys(d) by {
        UnseenMembers(Keys(init), Keys(d), p.word);
      }
      MergeStep(m, p, p.word);
    }
  }

  /** The third loop appends the phrases found in the text that were not yet keys, in their order. */
  lemma {:induction false} InjectAllKeys(d: Dict, text: string, phrases: seq<string>)
    requires Distinct(phrases)
    ensures Keys(InjectAll(d, text, phrases)) == Keys(d) + Found(phrases, text, Keys(d))
  {
    if phrases != [] {
      var init, p := phrases[..|phrases| - 1], phrases[|phrases| - 1];
      assert phrases == init + [p];
      assert Distinct(init);
      var cur := InjectAll(d, text, init);
      InjectAllKeys(d, text, init);
      FoundMembers(init, text, Keys(d), p);
      PutSpec(cur, p, PhraseWeight);
    }
  }

  lemma ImportantPhrasesDistinct()
    ensures Distinct(ImportantPhrases)
  {
  }

  /** The order of the fused dict's keys, which is also the order the stable
      sort keeps among equal weights: TF-IDF words, then TextRank-only words,
      then injected phrases. */
  lemma FusedKeyOrder(text: string, tfidf: seq<Scored>, textrank: seq<Scored>)
    requires Distinct(Keys(tfidf)) && Distinct(Keys(textrank))
    ensures var rankOnly := Unseen(Keys(textrank), Keys(tfidf));
      Keys(Fuse(text, tfidf, textrank))
        == Keys(tfidf) + rankOnly + Found(ImportantPhrases, text, Keys(tfidf) + rankOnly)
  {
    var loaded := LoadAll([], tfidf);
    LoadAllKeys(tfidf);
    MergeAllKeys(loaded, textrank);
    ImportantPhrasesDistinct();
    InjectAllKeys(MergeAll(loaded, textrank), text, ImportantPhrases);
  }

  /** The fused dict never repeats a key. */
  lemma {:induction false} FusedDistinct(text: string, tfidf: seq<Scored>, textrank: seq<Scored>)
    ensures Distinct(Keys(Fuse(text, tfidf, textrank)))
  {
    LoadAllDistinct([], tfidf);
    MergeAllDistinct(LoadAll([], tfidf), textrank);
    InjectAllDistinct(MergeAll(LoadAll([], tfidf), textrank), text, ImportantPhrases);
  }

  lemma {:induction false} LoadAllDistinct(d: Dict, items: seq<Scored>)
    requires Distinct(Keys(d))
    ensures Distinct(Keys(LoadAll(d, items)))
  {
    if items != [] {
      var p := items[|items| - 1];
      LoadAllDistinct(d, items[..|items| - 1]);
      PutDistinct(LoadAll(d, items[..|items| - 1]), p.word, p.weight);
    }
  }

  lemma {:induction false} MergeAllDistinct(d: Dict, items: seq<Scored>)
    requires Distinct(Keys(d))
    ensures Distinct(Keys(MergeAll(d, items)))
  {
    if items != [] {
      var m, p := MergeAll(d, items[..|items| - 1]), items[|items| - 1];
      MergeAllDistinct(d, items[..|items| - 1]);
      match Get(m, p.word)
      case Some(a) => PutDistinct(m, p.word, (a + p.weight) / 2.0);
      case None => PutDistinct(m, p.word, p.weight);
    }
  }

  lemma {:induction false} InjectAllDistinct(d: Dict, text: string, phrases: seq<string>)
    requires Distinct(Keys(d))
    ensures Distinct(Keys(InjectAll(d, text, phrases)))
  {
    if phrases != [] {
      InjectAllDistinct(d, text, phrases[..|phrases| - 1]);
      PutDistinct(InjectAll(d, text, phrases[..|phrases| - 1]), phrases[|phrases| - 1], PhraseWeight);
    }
  }

  /** The first `topK` items of the dict sorted by descending weight. */
  function TopItems(d: Dict, topK: nat): seq<Scored> {
    SortDescPermutation(d, WeightOf);
    SortDesc(d, WeightOf)[..Min(topK, |d|)]
  }

  /** Every selected item is an item of the dict, so its word weighs what the item says. */
  lemma TopItemWeight(d: Dict, topK: nat, i: nat)
    requires Distinct(Keys(d)) && i < |TopItems(d, topK)|
    ensures TopItems(d, topK)[i].word in Keys(d)
    ensures Weight(d, TopItems(d, topK)[i].word) == TopItems(d, topK)[i].weight
  {
    var top := TopItems(d, topK);
    SortDescTop(d, WeightOf, topK);
    assert top[i] in d;
    var m :| 0 <= m < |d| && d[m] == top[i];
    GetAt(d, m);
    assert Keys(d)[m] == top[i].word;
  }

  /** The selected words are distinct. */
  lemma TopWordsDistinct(d: Dict, topK: nat)
    requires Distinct(Keys(d))
    ensures Distinct(TopWords(d, topK))
  {
    var s := SortDesc(d, WeightOf);
    SortDescPermutation(d, WeightOf);
    var r := TopWords(d, topK);
    assert InjectiveOn(d, WordOf) by {
      assert forall i :: 0 <= i < |d| ==> WordOf(d[i]) == Keys(d)[i];
    }
    SortDescInjective(d, WeightOf, WordOf);
    assert forall i :: 0 <= i < |r| ==> r[i] == WordOf(s[i]);
  }

  /** The selected words come in non-increasing weight order. */
  lemma TopWordsOrdered(d: Dict, topK: nat)
    requires Distinct(Keys(d))
    ensures var r := TopWords(d, topK);
      forall i, j :: 0 <= i < j < |r| ==> Weight(d, r[i]) >= Weight(d, r[j])
  {
    var top := TopItems(d, topK);
    var r := TopWords(d, topK);
    SortDescTop(d, WeightOf, topK);
    forall i, j | 0 <= i < j < |r| ensures Weight(d, r[i]) >= Weight(d, r[j]) {
      TopItemWeight(d, topK, i);
      TopItemWeight(d, topK, j);
      assert WeightOf(top[i]) >= WeightOf(top[j]);
    }
  }

  /** No word left out weighs more than any word selected. */
  lemma TopWordsComplete(d: Dict, topK: nat, w: string)
    requires Distinct(Keys(d)) && w in Keys(d) && w !in TopWords(d, topK)
    ensures forall i :: 0 <= i < |TopWords(d, topK)| ==> Weight(d, w) <= Weight(d, TopWords(d, topK)[i])
  {
    var top := TopItems(d, topK);
    var r := TopWords(d, topK);
    SortDescTop(d, WeightOf, topK);
    var m :| 0 <= m < |d| && d[m].word == w;
    GetAt(d, m);
    assert forall k :: 0 <= k < |top| ==> r[k] == top[k].word != w;
    assert d[m] in d && d[m] !in top;
    forall i | 0 <= i < |r| ensures Weight(d, w) <= Weight(d, r[i]) {
      TopItemWeight(d, topK, i);
      assert WeightOf(d[m]) <= WeightOf(top[i]);
    }
  }

  /** For a dict without repeated keys, the top-K words are `min(topK, len(d))`
      distinct keys in non-increasing weight order, and no key left out
      weighs more than any key selected. */
  lemma TopWordsSpec(d: Dict, topK: nat)
    requires Distinct(Keys(d))
    ensures var r := TopWords(d, topK);
      && |r| == Min(topK, |d|)
      && Distinct(r)
      && (forall w :: w in r ==> w in Keys(d))
      && (forall i, j :: 0 <= i < j < |r| ==> Weight(d, r[i]) >= Weight(d, r[j]))
      && (forall w :: w in Keys(d) && w !in r ==> forall i :: 0 <= i < |r| ==> Weight(d, w) <= Weight(d, r[i]))
  {
    var r := TopWords(d, topK);
    SortDescPermutation(d, WeightOf);
    TopWordsDistinct(d, topK);
    TopWordsOrdered(d, topK);
    forall w | w in r ensures w in Keys(d) {
      var i :| 0 <= i < |r| && r[i] == w;
      TopItemWeight(d, topK, i);
    }
    forall w | w in Keys(d) && w !in r
      ensures forall i :: 0 <= i < |r| ==> Weight(d, w) <= Weight(d, r[i])
    {
      TopWordsComplete(d, topK, w);
    }
  }

  /** The keyword fusion of `extract_keywords_with_jieba`, given the two
      extractors' outputs: merge them into a dict, add the phrases found in
      the text, and return the `topK` heaviest words. */
  method ExtractKeywords(text: string, tfidf: seq<Scored>, textrank: seq<Scored>, topK: nat)
    returns (result: seq<string>)
    ensures var d := Fuse(text, tfidf, textrank);
      && result == TopWords(d, topK)
      && |result| == Min(topK, |d|)
      && Distinct(result)
      && (forall w :: w in result ==> w in Keys(d))
      && (forall i, j :: 0 <= i < j < |result| ==> Weight(d, result[i]) >= Weight(d, result[j]))
      && (forall w :: w in Keys(d) && w !in result ==> forall i :: 0 <= i < |result| ==> Weight(d, w) <= Weight(d, result[i]))
  {
    var keywords: Dict := [];
    for i := 0 to |tfidf|
      invariant keywords == LoadAll([], tfidf[..i])
    {
      assert tfidf[..i + 1][..i] == tfidf[..i];
      keywords := Put(keywords, tfidf[i].word, tfidf[i].weight);
    }
    assert tfidf[..|tfidf|] == tfidf;
    ghost var loaded := keywords;
    for i := 0 to |textrank|
      invariant keywords == MergeAll(loaded, textrank[..i])
    {
      assert textrank[..i + 1][..i] == textrank[..i];
      var word, weight := textrank[i].word, textrank[i].weight;
      match Get(keywords, word)
      case Some(a) =>
        keywords := Put(keywords, word, (a + weight) / 2.0);
      case None =>
        keywords := Put(keywords, word, weight);
    }
    assert textrank[..|textrank|] == textrank;
    ghost var merged := keywords;
    for i := 0 to |ImportantPhrases|
      invariant keywords == InjectAll(merged, text, ImportantPhrases[..i])
    {
      assert ImportantPhrases[..i + 1][..i] == ImportantPhrases[..i];
      var phrase := ImportantPhrases[i];
      GetSpec(keywords, phrase);
      if Contains(text, phrase) && Get(keywords, phrase).None? {
        keywords := Put(keywords, phrase, PhraseWeight);
      }
    }
    assert ImportantPhrases[..|ImportantPhrases|] == ImportantPhrases;
    SortDescPermutation(keywords, WeightOf);
    var sorted := SortDesc(keywords, WeightOf);
    result := Keys(sorted[..Min(topK, |sorted|)]);
    FusedDistinct(text, tfidf, textrank);
    TopWordsSpec(keywords, topK);
  }

  /** `CHINESE_STOP_WORDS`. */
  const StopWords: set<string> := {
    "的", "了", "在", "是", "我", "有", "和", "就", "不", "人", "都", "一", "一个", "上", "也",
    "很", "到", "说", "要", "去", "你", "会", "着", "没有", "看", "好", "自己", "这", "中", "或",
    "与", "以", "及", "等", "为", "对", "由", "从"
  }

  /** The token filter of `preprocess_chinese_text`: not a stop word, and
      more than one character once stripped. */
  predicate KeepToken(w: string) {
    w !in StopWords && |Strip(w)| > 1
  }

  /** `' '.join(words)`. */
  function JoinWords(ws: seq<string>): string {
    if ws == [] then []
    else if |ws| == 1 then ws[0]
    else ws[0] + " " + JoinWords(ws[1..])
  }

  /** A token survives exactly when it is not a stop word and is longer than
      one character after stripping; whitespace-only tokens never survive. */
  lemma KeptTokens(words: seq<string>, w: string)
    ensures w in Kept(words, KeepToken) <==> w in words && w !in StopWords && |Strip(w)| > 1
    ensures w in Kept(words, KeepToken) ==> HasContent(w)
  {
    KeptMembers(words, KeepToken, w);
    StripSpec(w);
  }

  /** `preprocess_chinese_text` over already tokenized texts: each text
      becomes its kept tokens joined by single spaces. */
  method PreprocessChineseText(tokenized: seq<seq<string>>) returns (segmented: seq<string>)
    ensures |segmented| == |tokenized|
    ensures forall k :: 0 <= k < |tokenized| ==> segmented[k] == JoinWords(Kept(tokenized[k], KeepToken))
  {
    segmented := [];
    for i := 0 to |tokenized|
      invariant |segmented| == i
      invariant forall k :: 0 <= k < i ==> segmented[k] == JoinWords(Kept(tokenized[k], KeepToken))
    {
      segmented := segmented + [JoinWords(Kept(tokenized[i], KeepToken))];
    }
  }
}
