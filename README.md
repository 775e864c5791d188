# Topic relevance and sentiment scoring of Chinese policy texts

This project models the decision logic of two Python scripts.

`theme_modeling.py` scores how relevant a Chinese text is to a target topic as an integer. Through `analyze_chinese_topic_relevance` the score lies in 0-10; `calculate_relevance_score` alone can exceed 10 when a topic lists more matching words than there are target keywords, because its topic score is not clamped. Its steps are:

- it cuts the text into sentences after 。！？；.!?; and packs them greedily into chunks under a 512-byte UTF-8 budget; a longer sentence becomes its own chunk, and a whitespace-only text is cut into 512-character slices;
- it fuses the TF-IDF and TextRank keyword lists of the text into one weighted dict and adds known phrases that occur in the text;
- it keeps the 40 heaviest words;
- it takes the 10 heaviest words of every topic of a fitted topic model;
- it combines a direct keyword match (70%) with the best topic match (30%), applies a floor of 5 for texts that name 民营经济 and 发展, and rounds half to even.

`political_file_emotion.py` gives a document a sentiment score in [-1, 1]. It cuts the document after 。！？, packs the sentences greedily under a 512-token budget (a longer sentence becomes its own chunk), classifies every chunk, and averages the chunks' signed values weighted by their length in characters.

The keyword extractors, the topic model, the tokenizer and the classifier are library calls. Their outputs are parameters of the model:

- the two `(word, weight)` lists;
- the topic model's vocabulary and weight rows (`Option<TopicModel>`, absent when fitting failed);
- a token-count function `tokLen`;
- a positive-class probability function `prob`.

Python floats are modelled as `real`.

Modules:

- `PyText`: `strip`, `isspace`, `in` on strings, UTF-8 length and `''.join`.
- `Chunking`: the look-behind sentence split and a greedy packing loop shared by both splitters. The packing is specified declaratively (`IsGreedyPacking`), and that specification is shown to have exactly one solution.
- `StableSort`: `sorted(..., reverse=True)` as a stable insertion sort.
- `Segmenter`: the byte-budget `split_text` of `theme_modeling.py`.
- `Keywords`: the keyword fusion, the top-K selection and the stop-word filter.
- `Topics`: `get_topic_keywords`.
- `Relevance`: `calculate_relevance_score` and `analyze_chinese_topic_relevance`.
- `Sentiment`: the token-budget `split_text`, the signed value and `weighted_sentiment_analysis`.

## Model

| member | source | states |
|---|---|---|
| Chunking.SentencesJoin | theme_modeling.py:48 | the pieces of the look-behind split concatenate back to the text |
| Chunking.SentencesShape | theme_modeling.py:48 | every piece but the last ends with a terminator and holds no other; the last piece holds none |
| Chunking.KeptMembers | theme_modeling.py:52-54 | a sentence survives the skip test exactly when it is a sentence and passes the test |
| Chunking.GreedyPack | theme_modeling.py:49-64 | the loop's groups are the greedy packing of the kept sentences (each group, joined, fits the budget when it has two or more sentences; a new group starts only when adding the next sentence would exceed the budget), and the chunks are the stripped joined groups |
| Chunking.GreedyPackingUnique | theme_modeling.py:52-61 | two greedy packings of the same sentences are equal, so the packing specification fixes the result |
| Chunking.OverBudgetIsSingle | theme_modeling.py:56-59 | a group whose joined size exceeds the budget consists of one sentence |
| Chunking.PackingEmpty | theme_modeling.py:63-64 | the packing has no group exactly when there is no kept sentence |
| Segmenter.CharSlicesSpec | theme_modeling.py:68 | the forced slices concatenate back to the text; each holds 1 to n characters, and all but the last exactly n |
| Segmenter.EmittedChunk | theme_modeling.py:56-64 | every chunk the loop emits is non-empty and already stripped; a chunk of two or more sentences is within the byte budget; a chunk over it is a single sentence |
| Segmenter.NothingKeptIffBlank | theme_modeling.py:52-54 | no sentence survives the whitespace test exactly when the text is whitespace-only |
| Segmenter.SplitText | theme_modeling.py:46-70 | empty text gives no chunks; whitespace-only text gives the character slices; any other text gives the stripped greedy packing of its non-blank sentences under the byte budget; a non-empty text always gives at least one chunk |
| PyText.StripSpec | theme_modeling.py:53 | the result of `strip` is empty exactly when the string is whitespace-only, and otherwise neither starts nor ends with whitespace |
| PyText.StripInfix | theme_modeling.py:58 | the result of `strip` is the infix of the string left after cutting a whitespace-only prefix and a whitespace-only suffix |
| PyText.StripIdempotent | theme_modeling.py:58 | stripping a stripped string changes nothing |
| PyText.ContainsSpec | theme_modeling.py:115 | `p in s` holds exactly when `p` occurs at some position of `s` |
| PyText.Utf8LenAppend | theme_modeling.py:56 | the UTF-8 length of a concatenation is the sum of the lengths |
| Keywords.GetSpec | theme_modeling.py:108 | a lookup in the dict succeeds exactly for its keys |
| Keywords.PutSpec | theme_modeling.py:103-116 | after `d[w] = x`, `w` maps to `x`, every other key keeps its value, and `w` is appended to the keys only if it was not one |
| Keywords.LoadAllGet | theme_modeling.py:103-105 | after the first loop a listed word has its TF-IDF weight, and every other word keeps its earlier value |
| Keywords.MergeAllGet | theme_modeling.py:107-111 | after the second loop a word in both lists has the mean of its two weights, and a word in one list has that list's weight |
| Keywords.InjectAllGet | theme_modeling.py:114-116 | after the third loop an absent word has weight 0.5 exactly when it is one of the phrases and occurs in the text, and every present word keeps its weight |
| Keywords.FusedWeight | theme_modeling.py:103-116 | in the fused dict a word in both lists weighs the mean, a word in one list keeps its weight, a phrase found in the text and in neither list weighs 0.5, and no other word is present |
| Keywords.FusedKeyOrder | theme_modeling.py:103-116 | the fused dict's keys are the TF-IDF words, then the TextRank-only words, then the injected phrases, each group in its input order |
| Keywords.FusedDistinct | theme_modeling.py:103-116 | the fused dict never repeats a key |
| Keywords.TopWordsSpec | theme_modeling.py:119-120 | the top-K words are `min(topK, len(d))` distinct keys in non-increasing weight order, and no key left out weighs more than a selected one |
| Keywords.ExtractKeywords | theme_modeling.py:103-120 | the three loops and the sort return the top-K words of the fused dict, with the properties of `TopWordsSpec` |
| Keywords.KeptTokens | theme_modeling.py:80 | a token is kept exactly when it is not a stop word and is longer than one character after stripping; a kept token is never whitespace-only |
| Keywords.PreprocessChineseText | theme_modeling.py:73-83 | each tokenized text becomes its kept tokens joined by single spaces, one output per input |
| StableSort.SortDescPermutation | theme_modeling.py:119 | the sort returns a permutation of its input |
| StableSort.SortDescSorted | theme_modeling.py:119 | the sort returns the items in non-increasing key order |
| StableSort.SortDescStable | theme_modeling.py:119 | items with equal keys come out in their input order |
| StableSort.SortDescTop | theme_modeling.py:119-120 | a prefix of the sorted list is sorted, is drawn from the input, and weighs at least as much as every item left out |
| Topics.TopIndicesSpec | theme_modeling.py:177 | the selection holds `min(n, len(row))` distinct column indices, heaviest first, and no column left out weighs more than a selected one |
| Topics.TopicWordsSpec | theme_modeling.py:177-178 | a topic's list has `min(n, len(row))` words, and each earlier word names a column weighing at least as much as a later word's |
| Topics.TopicKeywordsSpec | theme_modeling.py:166-184 | without a model there are no topics; with a model whose selected indices all name vocabulary words there is exactly one list per topic, that topic's top words, each of at most `n` words; when some selected index falls outside the vocabulary there is no list at all (the caught `IndexError`) |
| Topics.GetTopicKeywords | theme_modeling.py:166-184 | the loops return the topic lists that `TopicKeywords` specifies |
| Relevance.OccurringMembers | theme_modeling.py:200-203 | a word is a content match exactly when it is an extended target occurring in the text |
| Relevance.ContentMatches | theme_modeling.py:200-203 | the loop returns the extended targets occurring in the text, in order |
| Relevance.DirectMatchesSpec | theme_modeling.py:222-225 | every direct match is an extended target that was extracted or occurs in the text; extracted ones are used whenever there are any; otherwise the matches are all the extended targets occurring in the text; there is no match exactly when no target was extracted and none occurs |
| Relevance.PointsAdd | theme_modeling.py:230-234 | one more match adds 2 points for a bonus phrase and 1 otherwise |
| Relevance.MatchPoints | theme_modeling.py:229-234 | the loop over the match set adds up those points |
| Relevance.DirectScoreSpec | theme_modeling.py:236 | the direct score lies in [0, 10], is 10 exactly when the points reach the number of targets, and is proportional to the points below that |
| Relevance.MaxOfSpec | theme_modeling.py:249 | `max` returns one of the values and bounds all of them |
| Relevance.TopicScoreLoop | theme_modeling.py:239-249 | the loop returns 0 without topics and otherwise the maximum of the topic matches |
| Relevance.TopicMatchBounds | theme_modeling.py:244-245 | a topic match is never negative, and at most 10 when the topic has no more words than there are targets |
| Relevance.TopicScoreSpec | theme_modeling.py:239-249 | the topic score is 0 without topics and otherwise the match of some topic, at least that of every topic; it is never negative and, when no topic is longer than the target list, at most 10 |
| Relevance.ApplyFloorSpec | theme_modeling.py:255-257 | the floor raises a score only for a text naming 民营经济 and 发展 that scores below 5, and then to exactly 5 |
| Relevance.RoundHalfEvenSpec | theme_modeling.py:266 | `round` returns an integer within 1/2 of its argument, and an even one when exactly 1/2 away |
| Relevance.RoundHalfEvenUnique | theme_modeling.py:266 | no other integer is closer to the argument, or as close and even |
| Relevance.RoundBounds | theme_modeling.py:266 | rounding keeps values in [0, 10] in [0, 10], and values of at least 5 at least 5 |
| Relevance.RelevanceScoreBounds | theme_modeling.py:236-266 | the score is never negative, at most 10 when no topic is longer than the target list, and at least 5 for a text naming 民营经济 and 发展 |
| Relevance.CalculateRelevanceScore | theme_modeling.py:187-266 | an empty text scores 0; any other text scores the rounded, floored 0.7/0.3 combination of the direct and topic scores, computed from the top 40 fused keywords and the top 10 words per topic |
| Relevance.TargetsForSpec | theme_modeling.py:276-283 | every topic name yields ten target words, and an unknown name yields the 民营经济发展 list |
| Relevance.ContainsNotBlank | theme_modeling.py:271 | a text containing a non-whitespace character is not whitespace-only |
| Relevance.AnalyzeChineseTopicRelevance | theme_modeling.py:269-288 | an empty or whitespace-only text scores 0; otherwise the relevance score against the topic's targets, which lies in [0, 10] and is at least 5 for a text naming 民营经济 and 发展 |
| Sentiment.NothingKeptIffEmpty | political_file_emotion.py:34-40 | no sentence survives the empty-sentence skip exactly when the text is empty |
| Sentiment.SplitText | political_file_emotion.py:32-51 | the chunks are the stripped greedy packing of the non-empty sentences under the token budget; there are none exactly when the text is empty; a chunk of two or more sentences fits the budget, and a chunk over it is one sentence |
| Sentiment.SignedValueSpec | political_file_emotion.py:21-28 | the intended value `2p - 1` lies in [-1, 1] and is positive exactly when the label is positive |
| Sentiment.SignedValueAsWrittenIsMagnitude | political_file_emotion.py:76 | the value computed on line 76 is the distance of `2p - 1` from zero, in [0, 1] |
| Sentiment.PrefixShares | political_file_emotion.py:69-73 | the weights of the first k segments add up to their length over the total length |
| Sentiment.WeightsSpec | political_file_emotion.py:69-73 | with a positive total length every weight lies in [0, 1] and the weights sum to 1 |
| Sentiment.DotBounds | political_file_emotion.py:70-77 | with non-negative weights the weighted sum lies between the smallest and the largest value, scaled by the weight sum |
| Sentiment.DotConstant | political_file_emotion.py:70-77 | equal values v give v times the weight sum |
| Sentiment.WeightedScoreSpec | political_file_emotion.py:69-79 | the score lies between the smallest and largest segment value, and equals v when every value is v |
| Sentiment.WeightedScoreRange | political_file_emotion.py:69-79 | the intended score lies in [-1, 1] |
| Sentiment.WeightedScoreAsWrittenNonNegative | political_file_emotion.py:73-77 | as written, any score that is computed is never negative |
| Sentiment.SignFlipWitness | political_file_emotion.py:76 | two segments with 60% and 40% of the characters and probabilities 0.9 and 0.1 score 0.8 as written and 0.16 as intended |
| Sentiment.BlankTextWitness | political_file_emotion.py:73 | a whitespace-only text yields the single segment `""`, whose zero total length leaves the score as written undefined and the corrected score 0 |
| Sentiment.NoCharactersIsNeutral | political_file_emotion.py:69-73 | segments without characters have total length 0 and the corrected score 0 |
| Sentiment.BlankTextIsNeutral | political_file_emotion.py:57-73 | a whitespace-only text, whose chunks all strip to `""`, gets the corrected score 0 |
| Sentiment.Aggregate | political_file_emotion.py:59-79 | the classification and accumulation loops return the intended weighted score |
| Sentiment.WeightedSentimentAnalysis | political_file_emotion.py:54-79 | the score is the length-weighted mean of the chunks' values `2p - 1`, 0 for empty or whitespace-only text, always in [-1, 1] |

## Left out

- The Tencent Cloud client, the stdin/stdout rewrapping, every `print`, the `__main__` block and the module-level example run. They are I/O and take no part in any score.
- jieba tokenization, `extract_tags` and `textrank`. These are foreign library calls, so their results are parameters (`tokenized`, `tfidf`, `textrank`).
- `jieba.add_word`. It changes a process-wide dictionary that only later calls read.
- The sklearn vectorizer and LDA fitting in `chinese_lda_topic_modeling`, including its fallback path. The topic model is a parameter, absent when fitting failed. The model is not tied to the segments it would have been fitted on.
- The transformers tokenizer and classifier. They are the parameters `tokLen` and `prob`; `prob` is assumed to return a probability in [0, 1].
- IEEE-754 floating point. All weights and scores are exact reals, so rounding effects of `0.7 * direct + 0.3 * lda`, which could move a value across a .5 boundary before `round`, are not modelled.
- Topics.TopIndices: numpy's default `argsort` does not specify the order of equal weights; the model breaks ties by lower column index. Where the argsort is stable, reversing it with `[:-n-1:-1]` lists equal weights highest index first, the opposite of the model.
- Keywords.LoadAllGet, Keywords.MergeAllGet, Keywords.FusedWeight, Keywords.FusedKeyOrder: these assume each extractor lists a word at most once, as jieba's lists do. With repeated words the code as modelled still runs; only these lemmas' preconditions exclude it.
- Keywords.ExtractKeywords, Topics.GetTopicKeywords: `topK` and `n_top_words` are natural numbers. Negative slice bounds are not modelled.
- Segmenter.SplitText: the byte budget is a natural number. A zero budget with a non-empty whitespace-only text is the `range` step error of the forced split, which the precondition excludes.
- Relevance.CalculateRelevanceScore: the result is the integer score. The explicitly empty target list, which divides by zero, is excluded by the precondition.
- Relevance.AnalyzeChineseTopicRelevance: the `{"relevance_score": n}` dict is reduced to `n`.
- The forced split cuts `max_length` characters, not bytes, so one slice can hold up to 4 × `max_length` bytes; the model slices characters as the code does.
- Strings are sequences of code points. `isspace` is modelled on the Unicode whitespace characters, and lone surrogates in UTF-8 length are not modelled.

## Findings

| source | as written | input that shows it | evidently intended | confidence | as-written member | corrected member |
|---|---|---|---|---|---|---|
| political_file_emotion.py:76 | the label picks the sign of `2p - 1`, but the label already follows that sign, so every value is `abs(2p - 1)` and no document scores below 0 | two segments of 3 and 2 characters with positive probabilities 0.9 and 0.1: score 0.8 | value `2p - 1`, giving 0.6 * 0.8 + 0.4 * (-0.8) = 0.16 | not executed | Sentiment.SignFlipWitness | Sentiment.WeightedSentimentAnalysis |
| political_file_emotion.py:73 | the weight divides by the total length of the stripped segments | a whitespace-only text such as `" "`: one segment `""`, total length 0, ZeroDivisionError | a document without characters scores neutral 0.0, like an empty one | not executed | Sentiment.BlankTextWitness | Sentiment.BlankTextIsNeutral |
