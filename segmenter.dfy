/**
 * `split_text` of the topic-relevance analysis: sentences end after any of
 * 。！？；.!?; , whitespace-only sentences are skipped, chunks are measured in
 * UTF-8 bytes, and a text for which no chunk was produced is forced into
 * fixed-size slices.
 */
module Segmenter {
  import opened PyText
  import opened Chunking

  /** The look-behind alternatives of the sentence split. */
  const Terminators: set<char> := {'。', '！', '？', '；', '.', '!', '?', ';'}

  /** The forced split `[text[i:i + n] for i in range(0, len(text), n)]`:
      consecutive slices of `n` characters (not bytes), the last one shorter. */
  function CharSlices(text: string, n: nat): seq<string>
    requires n > 0
    decreases |text|
  {
    if text == [] then []
    else if |text| <= n then [text]
    else [text[..n]] + CharSlices(text[n..], n)
  }

  /** The slices give back the text; each holds between 1 and `n` characters,
      and all but the last hold exactly `n`. */
  lemma {:induction false} CharSlicesSpec(text: string, n: nat)
    requires n > 0
    ensures Join(CharSlices(text, n)) == text
    ensures forall k :: 0 <= k < |CharSlices(text, n)| ==> 0 < |CharSlices(text, n)[k]| <= n
    ensures forall k :: 0 <= k < |CharSlices(text, n)| - 1 ==> |CharSlices(text, n)[k]| == n
    decreases |text|
  {
    if text == [] {
    } else if |text| <= n {
      JoinSingle(text);
    } else {
      var r := CharSlices(text, n);
      var rest := CharSlices(text[n..], n);
      CharSlicesSpec(text[n..], n);
      assert r == [text[..n]] + rest;
      assert r[1..] == rest;
      assert text == text[..n] + text[n..];
      assert forall k :: 1 <= k < |r| ==> r[k] == rest[k - 1];
    }
  }

  /** Every chunk the loop emits is non-empty and already stripped, and it is
      over `maxLength` bytes only when it is one oversized sentence. */
  lemma EmittedChunk(groups: seq<seq<string>>, items: seq<string>, maxLength: nat, i: nat)
    requires IsGreedyPacking(groups, items, maxLength, Utf8Len)
    requires forall k :: 0 <= k < |items| ==> HasContent(items[k])
    requires i < |groups|
    ensures var chunk := Strip(Join(groups[i]));
      && chunk != [] && Strip(chunk) == chunk
      && (|groups[i]| >= 2 ==> Utf8Len(chunk) <= maxLength)
      && (Utf8Len(chunk) > maxLength ==> |groups[i]| == 1)
  {
    var g := groups[i];
    GroupMember(groups, items, maxLength, Utf8Len, i, 0);
    assert Join(g) == g[0] + Join(g[1..]);
    BlankAppend(g[0], Join(g[1..]));
    StripSpec(Join(g));
    StripIdempotent(Join(g));
    StripUtf8Len(Join(g));
    OverBudgetIsSingle(groups, items, maxLength, Utf8Len, i);
    assert g[..|g|] == g;
  }

  /** Nothing survives the whitespace filter exactly when the text is blank. */
  lemma NothingKeptIffBlank(text: string)
    ensures Kept(Sentences(text, Terminators), HasContent) == [] <==> IsBlank(text)
  {
    var xs := Sentences(text, Terminators);
    KeptEmpty(xs, HasContent);
    SentencesJoin(text, Terminators);
    BlankJoin(xs);
  }

  /** split_text(text, max_length). Empty text gives no chunks; whitespace-only
      text falls back to character slices (a zero budget there is the
      `range` error of the source, hence the precondition); any other text gives the stripped
      chunks of the greedy packing of its non-blank sentences under the byte
      budget, so every sentence lands in exactly one chunk, in order. */
  method SplitText(text: string, maxLength: nat) returns (chunks: seq<string>, ghost groups: seq<seq<string>>)
    requires text != [] && IsBlank(text) ==> maxLength > 0
    ensures text == [] ==> chunks == []
    ensures text != [] ==> chunks != []
    ensures text != [] && IsBlank(text) ==> chunks == CharSlices(text, maxLength)
    ensures !IsBlank(text) ==>
      && IsGreedyPacking(groups, Kept(Sentences(text, Terminators), HasContent), maxLength, Utf8Len)
      && chunks == Emit(groups) && |chunks| == |groups|
    ensures !IsBlank(text) ==> forall i :: 0 <= i < |chunks| ==>
      && chunks[i] != [] && Strip(chunks[i]) == chunks[i]
      && (|groups[i]| >= 2 ==> Utf8Len(chunks[i]) <= maxLength)
      && (Utf8Len(chunks[i]) > maxLength ==> |groups[i]| == 1)
  {
    var sentences := Sentences(text, Terminators);
    chunks, groups := GreedyPack(sentences, maxLength, Utf8Len, HasContent);
    ghost var items := Kept(sentences, HasContent);
    NothingKeptIffBlank(text);
    PackingEmpty(groups, items, maxLength, Utf8Len);
    EmitIndex(groups);
    if !IsBlank(text) {
      forall i | 0 <= i < |chunks|
        ensures chunks[i] != [] && Strip(chunks[i]) == chunks[i]
        ensures |groups[i]| >= 2 ==> Utf8Len(chunks[i]) <= maxLength
        ensures Utf8Len(chunks[i]) > maxLength ==> |groups[i]| == 1
      {
        EmittedChunk(groups, items, maxLength, i);
      }
    }
    if chunks == [] && text != [] {
      chunks := CharSlices(text, maxLength);
      CharSlicesSpec(text, maxLength);
    }
  }
}
