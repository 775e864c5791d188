/**
 * The sentence chunker shared by both analyses: cut a document after every
 * sentence terminator (a regular-expression split with a look-behind on the
 * terminator), then pack the sentences greedily into chunks under a size
 * budget. The two source variants differ only in the terminators, in which
 * sentences they skip and in how they measure a chunk; all three are
 * parameters here.
 */
module Chunking {
  import opened PyText

  /** No character of `s` is a terminator. */
  predicate NoTerminator(s: string, terminators: set<char>) {
    forall k :: 0 <= k < |s| ==> s[k] !in terminators
  }

  /** `re.split(r'(?<=t1|t2|...)', text)`: the text cut after every terminator
      character; the last piece is empty when the text ends with one. */
  function Sentences(text: string, terminators: set<char>): (pieces: seq<string>)
    ensures |pieces| >= 1
  {
    if text == [] then [[]]
    else
      var rest := Sentences(text[1..], terminators);
      if text[0] in terminators then [[text[0]]] + rest
      else [[text[0]] + rest[0]] + rest[1..]
  }

  /** The pieces concatenate back to the text: nothing is lost or repeated. */
  lemma {:induction false} SentencesJoin(text: string, terminators: set<char>)
    ensures Join(Sentences(text, terminators)) == text
  {
    if text != [] {
      var rest := Sentences(text[1..], terminators);
      SentencesJoin(text[1..], terminators);
      var pieces := Sentences(text, terminators);
      if text[0] in terminators {
        assert pieces[1..] == rest;
      } else {
        assert pieces[1..] == rest[1..];
        assert Join(rest) == rest[0] + Join(rest[1..]);
      }
      assert text == [text[0]] + text[1..];
    }
  }

  /** `s` ends with a terminator and holds no other. */
  predicate Closed(s: string, terminators: set<char>) {
    s != [] && s[|s| - 1] in terminators && NoTerminator(s[..|s| - 1], terminators)
  }

  lemma ConsNoTerminator(c: char, s: string, terminators: set<char>)
    requires c !in terminators && NoTerminator(s, terminators)
    ensures NoTerminator([c] + s, terminators)
  {
    assert forall k :: 1 <= k < |[c] + s| ==> ([c] + s)[k] == s[k - 1];
  }

  lemma ConsClosed(c: char, s: string, terminators: set<char>)
    requires c !in terminators && Closed(s, terminators)
    ensures Closed([c] + s, terminators)
  {
    assert ([c] + s)[..|s|] == [c] + s[..|s| - 1];
    ConsNoTerminator(c, s[..|s| - 1], terminators);
  }

  /** Every piece but the last ends with a terminator and holds no other;
      the last piece holds none. */
  lemma {:induction false} SentencesShape(text: string, terminators: set<char>)
    ensures var pieces := Sentences(text, terminators);
      && (forall k :: 0 <= k < |pieces| - 1 ==> Closed(pieces[k], terminators))
      && NoTerminator(pieces[|pieces| - 1], terminators)
  {
    if text != [] {
      var rest := Sentences(text[1..], terminators);
      SentencesShape(text[1..], terminators);
      var pieces := Sentences(text, terminators);
      if text[0] in terminators {
        assert pieces == [[text[0]]] + rest;
        assert Closed([text[0]], terminators) by {
          assert [text[0]][..0] == [];
        }
      } else {
        assert pieces == [[text[0]] + rest[0]] + rest[1..];
        if |rest| > 1 {
          ConsClosed(text[0], rest[0], terminators);
        } else {
          ConsNoTerminator(text[0], rest[0], terminators);
        }
      }
    }
  }

  /** The sentences the loop does not skip, in order. */
  function Kept(xs: seq<string>, keep: string -> bool): (r: seq<string>)
    ensures |r| <= |xs|
    ensures forall k :: 0 <= k < |r| ==> keep(r[k])
  {
    if xs == [] then []
    else Kept(xs[..|xs| - 1], keep) + (if keep(xs[|xs| - 1]) then [xs[|xs| - 1]] else [])
  }

  lemma KeptStep(xs: seq<string>, i: nat, keep: string -> bool)
    requires i < |xs|
    ensures Kept(xs[..i + 1], keep) == Kept(xs[..i], keep) + (if keep(xs[i]) then [xs[i]] else [])
  {
    assert xs[..i + 1][..i] == xs[..i];
  }

  /** A string survives the filter exactly when it is in the input and passes the test. */
  lemma {:induction false} KeptMembers(xs: seq<string>, keep: string -> bool, s: string)
    ensures s in Kept(xs, keep) <==> s in xs && keep(s)
  {
    if xs != [] {
      var init := xs[..|xs| - 1];
      KeptMembers(init, keep, s);
      assert xs == init + [xs[|xs| - 1]];
    }
  }

  /** Nothing is kept exactly when every piece is skipped. */
  lemma {:induction false} KeptEmpty(xs: seq<string>, keep: string -> bool)
    ensures Kept(xs, keep) == [] <==> forall k :: 0 <= k < |xs| ==> !keep(xs[k])
  {
    if xs != [] {
      KeptEmpty(xs[..|xs| - 1], keep);
      if Kept(xs, keep) == [] {
        forall k | 0 <= k < |xs| ensures !keep(xs[k]) {
          if k < |xs| - 1 { assert xs[k] == xs[..|xs| - 1][k]; }
        }
      }
      if forall k :: 0 <= k < |xs| ==> !keep(xs[k]) {
        assert forall k :: 0 <= k < |xs| - 1 ==> xs[..|xs| - 1][k] == xs[k];
      }
    }
  }

  /** A chunk built from the sentences `g` respects the budget at every step:
      each sentence after the first was added because the chunk with it fit. */
  ghost predicate Fits(g: seq<string>, maxLength: int, size: string -> nat) {
    forall j :: 2 <= j <= |g| ==> size(Join(g[..j])) <= maxLength
  }

  /** `groups` is the result of greedy packing of `items`: the groups hold the
      items in order, none is empty, every group fits (an over-budget group is
      a single item), and no group could have taken the next group's first item. */
  ghost predicate IsGreedyPacking(groups: seq<seq<string>>, items: seq<string>, maxLength: int, size: string -> nat) {
    && Join(groups) == items
    && (forall i :: 0 <= i < |groups| ==> groups[i] != [] && Fits(groups[i], maxLength, size))
    && (forall i :: 0 <= i < |groups| - 1 ==> size(Join(groups[i]) + groups[i + 1][0]) > maxLength)
  }

  /** The chunks emitted for the groups: each one's concatenation, stripped. */
  function Emit(groups: seq<seq<string>>): seq<string> {
    if groups == [] then [] else Emit(groups[..|groups| - 1]) + [Strip(Join(groups[|groups| - 1]))]
  }

  lemma {:induction false} EmitIndex(groups: seq<seq<string>>)
    ensures |Emit(groups)| == |groups|
    ensures forall i :: 0 <= i < |groups| ==> Emit(groups)[i] == Strip(Join(groups[i]))
  {
    if groups != [] {
      var init := groups[..|groups| - 1];
      EmitIndex(init);
      assert forall i :: 0 <= i < |init| ==> init[i] == groups[i];
    }
  }

  lemma EmitAppend(groups: seq<seq<string>>, g: seq<string>)
    ensures Emit(groups + [g]) == Emit(groups) + [Strip(Join(g))]
  {
    assert (groups + [g])[..|groups|] == groups;
  }

  lemma GreedyStart(s: string, maxLength: int, size: string -> nat)
    ensures IsGreedyPacking([[s]], [s], maxLength, size)
  {
    JoinSingle([s]);
    JoinSingle([[s]]);
  }

  /** Closing the current chunk because the next sentence does not fit. */
  lemma GreedyClose(groups: seq<seq<string>>, items: seq<string>, s: string, maxLength: int, size: string -> nat)
    requires IsGreedyPacking(groups, items, maxLength, size)
    requires groups != [] && size(Join(groups[|groups| - 1]) + s) > maxLength
    ensures IsGreedyPacking(groups + [[s]], items + [s], maxLength, size)
  {
    JoinAppend(groups, [[s]]);
    JoinSingle([[s]]);
    var g := groups + [[s]];
    forall i | 0 <= i < |g| - 1 ensures size(Join(g[i]) + g[i + 1][0]) > maxLength {
      if i < |groups| - 1 {
        assert g[i] == groups[i] && g[i + 1] == groups[i + 1];
      }
    }
  }

  lemma JoinExtendLast(done: seq<seq<string>>, cur: seq<string>, s: string)
    ensures Join(done + [cur + [s]]) == Join(done + [cur]) + [s]
  {
    JoinAppend(done, [cur]);
    JoinAppend(done, [cur + [s]]);
    JoinSingle([cur]);
    JoinSingle([cur + [s]]);
  }

  lemma FitsExtend(cur: seq<string>, s: string, maxLength: int, size: string -> nat)
    requires Fits(cur, maxLength, size) && size(Join(cur) + s) <= maxLength
    ensures Fits(cur + [s], maxLength, size)
  {
    JoinAppend(cur, [s]);
    JoinSingle(s);
    forall j | 2 <= j <= |cur + [s]| ensures size(Join((cur + [s])[..j])) <= maxLength {
      if j <= |cur| {
        assert (cur + [s])[..j] == cur[..j];
      } else {
        assert (cur + [s])[..j] == cur + [s];
      }
    }
  }

  /** Adding the next sentence to the current chunk because it fits. */
  lemma GreedyExtend(groups: seq<seq<string>>, items: seq<string>, s: string, maxLength: int, size: string -> nat)
    requires IsGreedyPacking(groups, items, maxLength, size)
    requires groups != [] && size(Join(groups[|groups| - 1]) + s) <= maxLength
    ensures IsGreedyPacking(groups[..|groups| - 1] + [groups[|groups| - 1] + [s]], items + [s], maxLength, size)
  {
    var n := |groups| - 1;
    var done, cur := groups[..n], groups[n];
    var g := done + [cur + [s]];
    assert groups == done + [cur];
    JoinExtendLast(done, cur, s);
    FitsExtend(cur, s, maxLength, size);
    assert |g| == |groups|;
    assert forall i :: 0 <= i < n ==> g[i] == groups[i];
    assert g[n] == cur + [s];
  }

  /** A group over the budget holds a single sentence. */
  lemma OverBudgetIsSingle(groups: seq<seq<string>>, items: seq<string>, maxLength: int, size: string -> nat, i: nat)
    requires IsGreedyPacking(groups, items, maxLength, size) && i < |groups|
    ensures size(Join(groups[i])) > maxLength ==> |groups[i]| == 1
  {
    var g := groups[i];
    assert g[..|g|] == g;
  }

  /** There are no groups exactly when there is nothing to pack. */
  lemma PackingEmpty(groups: seq<seq<string>>, items: seq<string>, maxLength: int, size: string -> nat)
    requires IsGreedyPacking(groups, items, maxLength, size)
    ensures groups == [] <==> items == []
  {
    if groups != [] {
      assert groups[0] != [];
      assert Join(groups) == groups[0] + Join(groups[1..]);
    }
  }

  /** Every sentence of every group is one of the packed items. */
  lemma GroupMember(groups: seq<seq<string>>, items: seq<string>, maxLength: int, size: string -> nat, i: nat, k: nat)
    requires IsGreedyPacking(groups, items, maxLength, size)
    requires i < |groups| && k < |groups[i]|
    ensures groups[i][k] in items
  {
    assert groups == groups[..i] + [groups[i]] + groups[i + 1..];
    JoinAppend(groups[..i] + [groups[i]], groups[i + 1..]);
    JoinAppend(groups[..i], [groups[i]]);
    JoinSingle(groups[i]);
    assert items[|Join(groups[..i])| + k] == groups[i][k];
  }

  /** Dropping the first group leaves a greedy packing of the remaining items. */
  lemma PackingTail(groups: seq<seq<string>>, items: seq<string>, maxLength: int, size: string -> nat)
    requires IsGreedyPacking(groups, items, maxLength, size) && groups != []
    ensures |groups[0]| <= |items| && items[..|groups[0]|] == groups[0]
    ensures IsGreedyPacking(groups[1..], items[|groups[0]|..], maxLength, size)
  {
    assert Join(groups) == groups[0] + Join(groups[1..]);
    var t := groups[1..];
    assert forall i :: 0 <= i < |t| ==> t[i] == groups[i + 1];
  }

  /** The first group of a greedy packing is at least as long as that of any other. */
  lemma FirstGroupLongest(g1: seq<seq<string>>, g2: seq<seq<string>>, items: seq<string>, maxLength: int, size: string -> nat)
    requires IsGreedyPacking(g1, items, maxLength, size) && IsGreedyPacking(g2, items, maxLength, size)
    requires g1 != [] && g2 != []
    ensures |g1[0]| >= |g2[0]|
  {
    var a, b := g1[0], g2[0];
    var n := |a|;
    if n < |b| {
      PackingTail(g1, items, maxLength, size);
      PackingTail(g2, items, maxLength, size);
      assert b[..n] == a by { assert items[..|b|][..n] == items[..n]; }
      var rest := g1[1..];
      assert Join(g1) == a + Join(rest);
      assert |Join(rest)| > 0;
      assert rest != [];
      assert g1[1] == rest[0] && rest[0] != [];
      assert Join(rest) == rest[0] + Join(rest[1..]);
      assert items[n] == g1[1][0];
      assert items[n] == b[n] by { assert items[..|b|][n] == items[n]; }
      assert b[..n + 1] == a + [b[n]];
      JoinAppend(a, [b[n]]);
      JoinSingle(b[n]);
      assert false;
    }
  }

  /** Greedy packing is deterministic: the conditions of IsGreedyPacking
      admit one grouping at most, so they specify split_text completely. */
  lemma {:induction false} GreedyPackingUnique(g1: seq<seq<string>>, g2: seq<seq<string>>, items: seq<string>, maxLength: int, size: string -> nat)
    requires IsGreedyPacking(g1, items, maxLength, size) && IsGreedyPacking(g2, items, maxLength, size)
    ensures g1 == g2
    decreases |items|
  {
    PackingEmpty(g1, items, maxLength, size);
    PackingEmpty(g2, items, maxLength, size);
    if g1 != [] && g2 != [] {
      FirstGroupLongest(g1, g2, items, maxLength, size);
      FirstGroupLongest(g2, g1, items, maxLength, size);
      PackingTail(g1, items, maxLength, size);
      PackingTail(g2, items, maxLength, size);
      var n := |g1[0]|;
      assert g1[0] == g2[0];
      GreedyPackingUnique(g1[1..], g2[1..], items[n..], maxLength, size);
      assert g1 == [g1[0]] + g1[1..] && g2 == [g2[0]] + g2[1..];
    }
  }

  /** The split_text loop: walk the sentences, skip those `keep` rejects, and
      grow the current chunk while `size` of the chunk with the next sentence
      stays within `maxLength`; otherwise emit the current chunk stripped and
      start a new one with that sentence. The remainder is emitted at the end.
      The chunks are the stripped groups of the unique greedy packing of the
      kept sentences (see GreedyPackingUnique). */
  method GreedyPack(items: seq<string>, maxLength: int, size: string -> nat, keep: string -> bool)
    returns (chunks: seq<string>, ghost groups: seq<seq<string>>)
    requires forall s :: keep(s) ==> s != []
    ensures IsGreedyPacking(groups, Kept(items, keep), maxLength, size)
    ensures chunks == Emit(groups)
  {
    chunks := [];
    var current := "";
    ghost var done: seq<seq<string>> := [];
    ghost var cur: seq<string> := [];
    for i := 0 to |items|
      invariant current == Join(cur)
      invariant (current == []) == (cur == [])
      invariant cur == [] ==> done == []
      invariant chunks == Emit(done)
      invariant IsGreedyPacking(done + (if cur == [] then [] else [cur]), Kept(items[..i], keep), maxLength, size)
    {
      var sentence := items[i];
      KeptStep(items, i, keep);
      if !keep(sentence) {
        assert Kept(items[..i + 1], keep) == Kept(items[..i], keep);
      }
      if keep(sentence) {
        ghost var gs := done + (if cur == [] then [] else [cur]);
        if size(current + sentence) > maxLength {
          if current != "" {
            assert gs == done + [cur] && gs[|gs| - 1] == cur;
            GreedyClose(gs, Kept(items[..i], keep), sentence, maxLength, size);
            EmitAppend(done, cur);
            chunks := chunks + [Strip(current)];
            done := done + [cur];
          } else {
            assert Kept(items[..i], keep) == Join(gs) == [];
            GreedyStart(sentence, maxLength, size);
          }
          current := sentence;
          cur := [sentence];
          JoinSingle(sentence);
          assert IsGreedyPacking(done + [cur], Kept(items[..i + 1], keep), maxLength, size);
        } else {
          if current != "" {
            assert gs == done + [cur] && gs[|gs| - 1] == cur;
            GreedyExtend(gs, Kept(items[..i], keep), sentence, maxLength, size);
            assert gs[..|gs| - 1] == done;
            assert gs[..|gs| - 1] + [gs[|gs| - 1] + [sentence]] == done + [cur + [sentence]];
          } else {
            assert Kept(items[..i], keep) == Join(gs) == [];
            GreedyStart(sentence, maxLength, size);
            assert cur == [] && done == [];
            assert cur + [sentence] == [sentence];
          }
          JoinAppend(cur, [sentence]);
          JoinSingle(sentence);
          current := current + sentence;
          cur := cur + [sentence];
          assert IsGreedyPacking(done + [cur], Kept(items[..i + 1], keep), maxLength, size);
        }
      }
    }
    assert items[..|items|] == items;
    if current != "" {
      chunks := chunks + [Strip(current)];
      groups := done + [cur];
    } else {
      groups := done;
    }
  }
}
