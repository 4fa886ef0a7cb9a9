/**
 * The counting stage of the word counter: the tokens of every line are folded
 * into a frequency map with the update "put 1 if the word is absent, else its
 * old count plus one". Lines are folded in order, and the tokens of a line in
 * the order the tokenizer yields them.
 */
module Counter {
  import opened Tokenizer

  /** Word to number of occurrences. */
  type FrequencyMap = map<string, nat>

  /** The count the map holds for `w`, zero when `w` is absent. */
  function CountOf(m: FrequencyMap, w: string): nat {
    if w in m then m[w] else 0
  }

  /** Every stored count is at least one. */
  predicate AllPositive(m: FrequencyMap) {
    forall w :: w in m ==> m[w] >= 1
  }

  /** One `put(word, containsKey(word) ? get(word) + 1 : 1)`. */
  function Increment(m: FrequencyMap, w: string): (r: FrequencyMap)
    ensures CountOf(r, w) == CountOf(m, w) + 1
    ensures forall v {:trigger CountOf(r, v)} :: v != w ==> CountOf(r, v) == CountOf(m, v)
    ensures AllPositive(m) ==> AllPositive(r)
  {
    m[w := if w in m then m[w] + 1 else 1]
  }

  /** Folds a token sequence into `m`, first token first. */
  function CountTokens(m: FrequencyMap, ts: seq<string>): (r: FrequencyMap)
    ensures forall w :: CountOf(r, w) == CountOf(m, w) + multiset(ts)[w]
    ensures AllPositive(m) ==> AllPositive(r)
    decreases |ts|
  {
    if |ts| == 0 then m
    else
      assert ts == [ts[0]] + ts[1..];
      CountTokens(Increment(m, ts[0]), ts[1..])
  }

  /** The tokens of all lines, line after line. */
  function AllTokens(lines: seq<string>): seq<string>
  {
    if |lines| == 0 then [] else Tokenize(lines[0]) + AllTokens(lines[1..])
  }

  /** Folds the tokens of every line into `m`, first line first. */
  function CountLines(m: FrequencyMap, lines: seq<string>): (r: FrequencyMap)
    ensures forall w :: CountOf(r, w) == CountOf(m, w) + multiset(AllTokens(lines))[w]
    ensures AllPositive(m) ==> AllPositive(r)
    decreases |lines|
  {
    if |lines| == 0 then m else CountLines(CountTokens(m, Tokenize(lines[0])), lines[1..])
  }

  /** The map the single-threaded reader returns for the lines of a file:
      each word maps to its number of occurrences among all tokens, and only
      words that occur are keys. */
  function SequentialCount(lines: seq<string>): (r: FrequencyMap)
    ensures forall w :: CountOf(r, w) == multiset(AllTokens(lines))[w]
    ensures AllPositive(r)
  {
    CountLines(map[], lines)
  }

  /** The single-threaded reader: every line is folded into the map in order. */
  method CountSequentially(lines: seq<string>) returns (wordMap: FrequencyMap)
    ensures wordMap == SequentialCount(lines)
    ensures forall w :: CountOf(wordMap, w) == multiset(AllTokens(lines))[w]
  {
    wordMap := map[];
    for i := 0 to |lines|
      invariant wordMap == CountLines(map[], lines[..i])
    {
      CountLinesStep(lines, i);
      wordMap := CountLine(wordMap, lines[i]);
    }
    assert lines[..|lines|] == lines;
  }

  /** The per-line action of the reader: for each piece of the split, skip the
      empty piece, otherwise put the incremented count. */
  method CountLine(wordMap: FrequencyMap, line: string) returns (r: FrequencyMap)
    ensures r == CountTokens(wordMap, Tokenize(line))
  {
    var pieces := Pieces(Lower(line));
    r := wordMap;
    for j := 0 to |pieces|
      invariant r == CountTokens(wordMap, NonEmpty(pieces[..j]))
    {
      var word := pieces[j];
      CountPiecesStep(wordMap, pieces, j);
      if word != "" {
        r := Increment(r, word);
      }
    }
    assert pieces[..|pieces|] == pieces;
  }

  // ---------------------------------------------------------------------------
  // Lemmas

  /** Folding `a + b` is folding `a`, then `b`. */
  lemma {:induction false} CountTokensAppend(m: FrequencyMap, a: seq<string>, b: seq<string>)
    ensures CountTokens(m, a + b) == CountTokens(CountTokens(m, a), b)
    decreases |a|
  {
    if |a| == 0 {
      assert a + b == b;
    } else {
      assert (a + b)[1..] == a[1..] + b;
      CountTokensAppend(Increment(m, a[0]), a[1..], b);
    }
  }

  /** One more line: its tokens are folded into the map of the lines before it. */
  lemma CountLinesStep(lines: seq<string>, i: int)
    requires 0 <= i < |lines|
    ensures CountLines(map[], lines[..i + 1]) == CountTokens(CountLines(map[], lines[..i]), Tokenize(lines[i]))
  {
    assert lines[..i + 1] == lines[..i] + [lines[i]];
    CountLinesAppend(map[], lines[..i], [lines[i]]);
    var m := CountLines(map[], lines[..i]);
    assert CountLines(m, [lines[i]]) == CountLines(CountTokens(m, Tokenize(lines[i])), []);
  }

  /** One more piece: an empty one leaves the map alone, any other is counted once. */
  lemma {:induction false} CountPiecesStep(m: FrequencyMap, pieces: seq<string>, j: int)
    requires 0 <= j < |pieces|
    ensures CountTokens(m, NonEmpty(pieces[..j + 1]))
         == if pieces[j] == "" then CountTokens(m, NonEmpty(pieces[..j]))
            else Increment(CountTokens(m, NonEmpty(pieces[..j])), pieces[j])
  {
    var word := pieces[j];
    assert pieces[..j + 1] == pieces[..j] + [word];
    NonEmptyAppend(pieces[..j], [word]);
    CountTokensAppend(m, NonEmpty(pieces[..j]), NonEmpty([word]));
    if word != "" {
      assert NonEmpty([word]) == [word];
    } else {
      assert NonEmpty([word]) == [];
    }
  }

  /** The tokens of `a + b` are the tokens of `a`, then those of `b`. */
  lemma {:induction false} AllTokensAppend(a: seq<string>, b: seq<string>)
    ensures AllTokens(a + b) == AllTokens(a) + AllTokens(b)
  {
    if |a| == 0 {
      assert a + b == b;
    } else {
      assert (a + b)[1..] == a[1..] + b;
      AllTokensAppend(a[1..], b);
    }
  }

  /** Folding lines `a + b` is folding `a`, then `b`. */
  lemma {:induction false} CountLinesAppend(m: FrequencyMap, a: seq<string>, b: seq<string>)
    ensures CountLines(m, a + b) == CountLines(CountLines(m, a), b)
    decreases |a|
  {
    if |a| == 0 {
      assert a + b == b;
    } else {
      assert (a + b)[1..] == a[1..] + b;
      CountLinesAppend(CountTokens(m, Tokenize(a[0])), a[1..], b);
    }
  }

  /** Folding line by line is folding the concatenated token stream. */
  lemma {:induction false} CountLinesIsCountTokens(m: FrequencyMap, lines: seq<string>)
    ensures CountLines(m, lines) == CountTokens(m, AllTokens(lines))
    decreases |lines|
  {
    if |lines| > 0 {
      CountLinesIsCountTokens(CountTokens(m, Tokenize(lines[0])), lines[1..]);
      CountTokensAppend(m, Tokenize(lines[0]), AllTokens(lines[1..]));
    }
  }

  /** The single-threaded reader folds one stream: the tokens of all lines, line after line. */
  lemma SequentialCountIsTokenFold(lines: seq<string>)
    ensures SequentialCount(lines) == CountTokens(map[], AllTokens(lines))
  {
    CountLinesIsCountTokens(map[], lines);
  }

  /** A map with only positive counts is fixed by its counts. */
  lemma SameCountsSameMap(m1: FrequencyMap, m2: FrequencyMap)
    requires AllPositive(m1) && AllPositive(m2)
    requires forall w :: CountOf(m1, w) == CountOf(m2, w)
    ensures m1 == m2
  {
    assert forall w :: w in m1 <==> CountOf(m1, w) > 0;
    assert forall w :: w in m2 <==> CountOf(m2, w) > 0;
    assert m1.Keys == m2.Keys;
  }

  /** The keys of the counted map are exactly the tokens that occur. */
  lemma SequentialCountKeys(lines: seq<string>)
    ensures forall w :: w in SequentialCount(lines) <==> w in AllTokens(lines)
  {
    var r := SequentialCount(lines);
    forall w ensures w in r <==> w in AllTokens(lines) {
      assert w in r <==> CountOf(r, w) > 0;
      assert w in AllTokens(lines) <==> multiset(AllTokens(lines))[w] > 0;
    }
  }

  /** The fold depends only on which tokens occur how often, not on their order. */
  lemma CountTokensOrderIndependent(m: FrequencyMap, ts: seq<string>, us: seq<string>)
    requires AllPositive(m)
    requires multiset(ts) == multiset(us)
    ensures CountTokens(m, ts) == CountTokens(m, us)
  {
    SameCountsSameMap(CountTokens(m, ts), CountTokens(m, us));
  }

  /** Reordering the lines permutes their tokens. */
  lemma {:induction false} AllTokensPermutation(lines: seq<string>, perm: seq<string>)
    requires multiset(lines) == multiset(perm)
    ensures multiset(AllTokens(lines)) == multiset(AllTokens(perm))
    decreases |lines|
  {
    if |lines| == 0 {
      assert perm == [];
    } else {
      var x := lines[0];
      var j := PickOut(lines, perm);
      var rest := perm[..j] + perm[j + 1..];
      AllTokensPermutation(lines[1..], rest);
      var before, after := AllTokens(perm[..j]), AllTokens(perm[j + 1..]);
      AllTokensRemoveAt(perm, j);
      assert AllTokens(lines) == Tokenize(x) + AllTokens(lines[1..]);
      calc {
        multiset(AllTokens(lines));
        multiset(Tokenize(x)) + multiset(AllTokens(rest));
        multiset(Tokenize(x)) + multiset(before + after);
        multiset(before + Tokenize(x) + after);
      }
    }
  }

  /** The first of `lines` sits at some position `j` of a permutation; the
      rest of `lines` is a permutation of what is left there. */
  lemma PickOut(lines: seq<string>, perm: seq<string>) returns (j: nat)
    requires multiset(lines) == multiset(perm) && |lines| > 0
    ensures j < |perm| && perm[j] == lines[0]
    ensures multiset(lines[1..]) == multiset(perm[..j] + perm[j + 1..])
  {
    var x := lines[0];
    assert x in multiset(perm);
    j :| 0 <= j < |perm| && perm[j] == x;
    RemoveAt(perm, j);
    assert lines == [x] + lines[1..];
    MultisetCancel(multiset(lines[1..]), multiset(perm[..j] + perm[j + 1..]), x);
  }

  /** The tokens of the lines around position `j`. */
  lemma {:induction false} AllTokensRemoveAt(lines: seq<string>, j: int)
    requires 0 <= j < |lines|
    ensures AllTokens(lines) == AllTokens(lines[..j]) + Tokenize(lines[j]) + AllTokens(lines[j + 1..])
    ensures AllTokens(lines[..j] + lines[j + 1..]) == AllTokens(lines[..j]) + AllTokens(lines[j + 1..])
  {
    assert lines == lines[..j] + ([lines[j]] + lines[j + 1..]);
    AllTokensAppend(lines[..j], [lines[j]] + lines[j + 1..]);
    AllTokensAppend([lines[j]], lines[j + 1..]);
    AllTokensAppend(lines[..j], lines[j + 1..]);
    assert AllTokens([lines[j]]) == Tokenize(lines[j]);
  }

  /** Taking out the element at `j` takes one copy of it out of the multiset. */
  lemma {:induction false} RemoveAt<T>(s: seq<T>, j: int)
    requires 0 <= j < |s|
    ensures s == s[..j] + [s[j]] + s[j + 1..]
    ensures multiset(s) == multiset(s[..j] + s[j + 1..]) + multiset{s[j]}
  {
    assert s == s[..j] + [s[j]] + s[j + 1..];
  }

  lemma MultisetCancel<T>(a: multiset<T>, b: multiset<T>, x: T)
    requires a + multiset{x} == b + multiset{x}
    ensures a == b
  {
    forall e ensures a[e] == b[e] {
      assert (a + multiset{x})[e] == (b + multiset{x})[e];
    }
  }

  /** Counting does not depend on the order in which the lines are processed. */
  lemma SequentialCountOrderIndependent(lines: seq<string>, perm: seq<string>)
    requires multiset(lines) == multiset(perm)
    ensures SequentialCount(lines) == SequentialCount(perm)
  {
    AllTokensPermutation(lines, perm);
    SameCountsSameMap(SequentialCount(lines), SequentialCount(perm));
  }

  /** No lines, or lines made only of delimiters, give the empty map. */
  lemma {:induction false} SequentialCountOfBlankInput(lines: seq<string>)
    requires forall i, k :: 0 <= i < |lines| && 0 <= k < |lines[i]| ==> IsDelimiter(lines[i][k])
    ensures SequentialCount(lines) == map[]
  {
    BlankLinesHaveNoTokens(lines);
    SameCountsSameMap(SequentialCount(lines), map[]);
  }

  lemma {:induction false} BlankLinesHaveNoTokens(lines: seq<string>)
    requires forall i, k :: 0 <= i < |lines| && 0 <= k < |lines[i]| ==> IsDelimiter(lines[i][k])
    ensures AllTokens(lines) == []
  {
    if |lines| > 0 {
      TokenizeOnlyDelimiters(lines[0]);
      BlankLinesHaveNoTokens(lines[1..]);
    }
  }
}
