/**
 * The top-K selector of the word counter. `getSortedMap` streams the entry
 * set of the counted map, sorts it by descending count and collects it into an
 * insertion-ordered map; `getMapTopValues` keeps the first `i` entries of that
 * order and renders each as "word (count)".
 *
 * The counted map is a hash map, so the order in which its entries are
 * streamed is not specified; it is modelled as a listing of the map, any
 * order allowed. Entries with equal counts may come out in any order.
 */
module Selector {
  import opened Counter
  import opened Decimal

  datatype Entry = Entry(word: string, count: nat)

  datatype Option<T> = None | Some(value: T)

  /** What `limit` does with a negative size: it raises `IllegalArgumentException`. */
  datatype TopResult = Top(lines: seq<string>) | NegativeLimit

  function Min(a: int, b: int): int {
    if a <= b then a else b
  }

  /** The words of a sequence of entries. */
  function KeysOf(es: seq<Entry>): set<string> {
    set k | 0 <= k < |es| :: es[k].word
  }

  /** No word occurs twice. */
  predicate DistinctWords(es: seq<Entry>) {
    forall j, k :: 0 <= j < k < |es| ==> es[j].word != es[k].word
  }

  /** `es` is one iteration of the entry set of `m`: every entry carries a key
      of `m` with its count, no key twice, and as many entries as keys. */
  predicate IsListing(es: seq<Entry>, m: FrequencyMap) {
    && |es| == |m|
    && (forall k :: 0 <= k < |es| ==> es[k].word in m && m[es[k].word] == es[k].count)
    && DistinctWords(es)
  }

  /** Non-increasing by count, the order the comparator
      `entry2.getValue().compareTo(entry1.getValue())` sorts into. */
  predicate SortedByCount(es: seq<Entry>) {
    forall j, k :: 0 <= j < k < |es| ==> es[j].count >= es[k].count
  }

  /** `top` is a selection of the highest counts of `m`: entries of `m`, no
      word twice, by descending count, and no word left out has a count above
      any count selected. */
  predicate IsTop(top: seq<Entry>, m: FrequencyMap) {
    && (forall k :: 0 <= k < |top| ==> top[k].word in m && m[top[k].word] == top[k].count)
    && DistinctWords(top)
    && SortedByCount(top)
    && (forall w, k :: w in m && w !in KeysOf(top) && 0 <= k < |top| ==> m[w] <= top[k].count)
  }

  /** Iterating the entry set of the map, in an order the map chooses. */
  method EntriesOf(m: FrequencyMap) returns (es: seq<Entry>)
    ensures IsListing(es, m)
  {
    es := [];
    var rest := m.Keys;
    while rest != {}
      invariant rest <= m.Keys
      invariant |es| + |rest| == |m|
      invariant forall k :: 0 <= k < |es| ==> es[k].word in m && es[k].word !in rest && m[es[k].word] == es[k].count
      invariant DistinctWords(es)
      decreases |rest|
    {
      var w :| w in rest;
      es := es + [Entry(w, m[w])];
      rest := rest - {w};
    }
  }

  /** Puts `e` in front of the first entry whose count is not above its own. */
  function Insert(e: Entry, es: seq<Entry>): (r: seq<Entry>)
    requires SortedByCount(es)
    ensures SortedByCount(r)
    ensures multiset(r) == multiset(es) + multiset{e}
    ensures |r| > 0 && (r[0] == e || (|es| > 0 && r[0] == es[0]))
  {
    if |es| == 0 || es[0].count <= e.count then [e] + es
    else
      var rest := Insert(e, es[1..]);
      assert es == [es[0]] + es[1..];
      assert es[0].count >= rest[0].count;
      [es[0]] + rest
  }

  /** Sorts by descending count; ties keep no particular order. */
  function SortByCount(es: seq<Entry>): (r: seq<Entry>)
    ensures SortedByCount(r)
    ensures multiset(r) == multiset(es)
  {
    if |es| == 0 then []
    else
      assert es == [es[0]] + es[1..];
      Insert(es[0], SortByCount(es[1..]))
  }

  /** `getSortedMap`: the entries of `m`, streamed in the order `listing`, sorted
      by descending count. */
  function SortedMap(m: FrequencyMap, listing: seq<Entry>): (r: seq<Entry>)
    requires IsListing(listing, m)
    ensures IsListing(r, m)
    ensures SortedByCount(r)
  {
    var sorted := SortByCount(listing);
    PermutationKeepsListing(listing, sorted, m);
    sorted
  }

  /** The first `k` entries of the sorted map, `limit(k)` on its entry stream. */
  function TopEntries(m: FrequencyMap, listing: seq<Entry>, k: nat): (r: seq<Entry>)
    requires IsListing(listing, m)
    ensures |r| == Min(k, |m|)
    ensures IsTop(r, m)
  {
    var sorted := SortedMap(m, listing);
    var r := sorted[..Min(k, |sorted|)];
    PrefixIsTop(sorted, m, Min(k, |sorted|));
    r
  }

  /** `word + " (" + count + ")"`. */
  function Render(e: Entry): string {
    e.word + " (" + NatToString(e.count) + ")"
  }

  /** The position of the last space of `s`. */
  function LastSpace(s: string): (r: Option<nat>)
    ensures r.Some? ==> r.value < |s| && s[r.value] == ' '
    ensures r.Some? ==> forall i :: r.value < i < |s| ==> s[i] != ' '
    ensures r.None? ==> forall i :: 0 <= i < |s| ==> s[i] != ' '
  {
    if |s| == 0 then None
    else if s[|s| - 1] == ' ' then Some(|s| - 1)
    else LastSpace(s[..|s| - 1])
  }

  /** Reads a rendered line back: the text before the last space is the word,
      the rest must be a canonical numeral in parentheses. */
  function ParseRendered(s: string): Option<Entry> {
    match LastSpace(s)
    case None => None
    case Some(j) =>
      var tail := s[j + 1..];
      if |tail| >= 3 && tail[0] == '(' && tail[|tail| - 1] == ')' && IsCanonical(tail[1..|tail| - 1])
      then Some(Entry(s[..j], DecimalValue(tail[1..|tail| - 1])))
      else None
  }

  /** Every entry rendered, in order. */
  function RenderAll(es: seq<Entry>): (r: seq<string>)
    ensures |r| == |es|
  {
    if |es| == 0 then [] else [Render(es[0])] + RenderAll(es[1..])
  }

  /** Reads back every line; `None` as soon as one line is not a rendered entry. */
  function ParseAll(lines: seq<string>): Option<seq<Entry>> {
    if |lines| == 0 then Some([])
    else
      match (ParseRendered(lines[0]), ParseAll(lines[1..]))
      case (Some(e), Some(es)) => Some([e] + es)
      case _ => None
  }

  /** `getMapTopValues(map, i)`: the first `i` entries of the sorted map, rendered. */
  function MapTopValues(m: FrequencyMap, listing: seq<Entry>, i: int): (r: TopResult)
    requires IsListing(listing, m)
    ensures r.NegativeLimit? <==> i < 0
    ensures r.Top? ==> |r.lines| == Min(i, |m|)
    ensures r.Top? ==> ParseAll(r.lines) == Some(TopEntries(m, listing, i))
  {
    if i < 0 then NegativeLimit
    else
      var top := TopEntries(m, listing, i);
      RenderAllParses(top);
      Top(RenderAll(top))
  }

  // ---------------------------------------------------------------------------
  // Lemmas

  /** Parsing undoes rendering, whatever the word. */
  lemma RenderParse(e: Entry)
    ensures ParseRendered(Render(e)) == Some(e)
  {
    var digits := NatToString(e.count);
    var s := Render(e);
    var tail := "(" + digits + ")";
    assert s == e.word + [' '] + tail;
    assert s[|e.word|] == ' ';
    forall i | |e.word| < i < |s| ensures s[i] != ' ' {
      assert s[i] == tail[i - |e.word| - 1];
    }
    assert LastSpace(s) == Some(|e.word|);
    assert s[|e.word| + 1..] == tail;
    assert tail[1..|tail| - 1] == digits;
    assert s[..|e.word|] == e.word;
    DecimalRoundTrip(e.count);
  }

  /** Parsing a rendered listing gives the listing back. */
  lemma {:induction false} RenderAllParses(es: seq<Entry>)
    ensures ParseAll(RenderAll(es)) == Some(es)
  {
    if |es| > 0 {
      RenderParse(es[0]);
      RenderAllParses(es[1..]);
      var lines := RenderAll(es);
      assert lines[0] == Render(es[0]) && lines[1..] == RenderAll(es[1..]);
      assert es == [es[0]] + es[1..];
    }
  }

  /** Rendering undoes parsing: every line the parser accepts is the rendering of what it reads. */
  lemma ParseRender(s: string)
    requires ParseRendered(s).Some?
    ensures Render(ParseRendered(s).value) == s
  {
    var j := LastSpace(s).value;
    var tail := s[j + 1..];
    var digits := tail[1..|tail| - 1];
    CanonicalRoundTrip(digits);
    assert tail == "(" + digits + ")";
    assert s == s[..j] + [' '] + tail;
  }

  /** A listing mentions every key of the map. */
  lemma ListingCovers(es: seq<Entry>, m: FrequencyMap)
    requires IsListing(es, m)
    ensures KeysOf(es) == m.Keys
  {
    DistinctWordsCard(es);
    assert KeysOf(es) <= m.Keys;
    SubsetOfSameSize(KeysOf(es), m.Keys);
  }

  lemma SubsetOfSameSize<T>(a: set<T>, b: set<T>)
    requires a <= b && |a| == |b|
    ensures a == b
  {
    assert a + (b - a) == b;
    assert a * (b - a) == {};
    assert |b - a| == 0;
    assert b - a == {};
  }

  /** With no word twice, there are as many words as entries. */
  lemma {:induction false} DistinctWordsCard(es: seq<Entry>)
    requires DistinctWords(es)
    ensures |KeysOf(es)| == |es|
  {
    if |es| > 0 {
      DistinctWordsCard(es[1..]);
      assert KeysOf(es) == {es[0].word} + KeysOf(es[1..]) by {
        forall w | w in KeysOf(es) ensures w in {es[0].word} + KeysOf(es[1..]) {
          var k :| 0 <= k < |es| && es[k].word == w;
          if k > 0 {
            assert es[1..][k - 1].word == w;
          }
        }
        forall w | w in KeysOf(es[1..]) ensures w in KeysOf(es) {
          var k :| 0 <= k < |es[1..]| && es[1..][k].word == w;
          assert es[k + 1].word == w;
        }
      }
      assert es[0].word !in KeysOf(es[1..]);
    }
  }

  /** With no word twice, no entry occurs twice. */
  lemma {:induction false} DistinctWordsOnce(es: seq<Entry>, e: Entry)
    requires DistinctWords(es)
    ensures multiset(es)[e] <= 1
  {
    if |es| > 0 {
      assert es == [es[0]] + es[1..];
      DistinctWordsOnce(es[1..], e);
      if es[0] == e {
        assert e !in es[1..];
      }
    }
  }

  /** An entry at two positions occurs twice. */
  lemma TwiceCountsTwice(es: seq<Entry>, j: int, k: int)
    requires 0 <= j < k < |es| && es[j] == es[k]
    ensures multiset(es)[es[j]] >= 2
  {
    assert es == es[..k] + es[k..];
    assert es[j] in es[..k];
    assert es[k..][0] == es[k];
  }

  /** Sorting, or any other reordering, keeps a listing a listing. */
  lemma PermutationKeepsListing(a: seq<Entry>, b: seq<Entry>, m: FrequencyMap)
    requires IsListing(a, m) && multiset(a) == multiset(b)
    ensures IsListing(b, m)
  {
    assert |a| == |multiset(a)| == |multiset(b)| == |b|;
    forall k | 0 <= k < |b| ensures b[k].word in m && m[b[k].word] == b[k].count {
      assert b[k] in multiset(b);
      assert b[k] in a;
    }
    forall j, k | 0 <= j < k < |b| ensures b[j].word != b[k].word {
      if b[j].word == b[k].word {
        assert b[j] == b[k];
        TwiceCountsTwice(b, j, k);
        DistinctWordsOnce(a, b[j]);
      }
    }
  }

  /** A prefix of a sorted listing is a top selection. */
  lemma PrefixIsTop(sorted: seq<Entry>, m: FrequencyMap, n: nat)
    requires IsListing(sorted, m) && SortedByCount(sorted) && n <= |sorted|
    ensures IsTop(sorted[..n], m)
  {
    var top := sorted[..n];
    ListingCovers(sorted, m);
    forall k | 0 <= k < n ensures sorted[k].word in KeysOf(top) {
      assert top[k] == sorted[k];
    }
    forall w, k | w in m && w !in KeysOf(top) && 0 <= k < |top|
      ensures m[w] <= top[k].count
    {
      assert w in KeysOf(sorted);
      var j :| 0 <= j < |sorted| && sorted[j].word == w;
      assert top[k] == sorted[k];
    }
  }

  /** How often a listing holds an entry: once if it is an entry of the map, else never. */
  lemma ListingMultiplicity(es: seq<Entry>, m: FrequencyMap, e: Entry)
    requires IsListing(es, m)
    ensures multiset(es)[e] == if e.word in m && m[e.word] == e.count then 1 else 0
  {
    DistinctWordsOnce(es, e);
    if e.word in m && m[e.word] == e.count {
      ListingCovers(es, m);
      assert e.word in KeysOf(es);
      var k :| 0 <= k < |es| && es[k].word == e.word;
      assert es[k] == e;
    } else {
      assert e !in es;
    }
  }

  /** Any two listings of one map are permutations of each other. */
  lemma ListingsArePermutations(a: seq<Entry>, b: seq<Entry>, m: FrequencyMap)
    requires IsListing(a, m) && IsListing(b, m)
    ensures multiset(a) == multiset(b)
  {
    forall e ensures multiset(a)[e] == multiset(b)[e] {
      ListingMultiplicity(a, m, e);
      ListingMultiplicity(b, m, e);
    }
  }

  /** Two orderings by descending count of the same entries agree on the count
      at every position; they may differ only in the order of equal counts. */
  lemma {:induction false} SortedCountsAgree(a: seq<Entry>, b: seq<Entry>)
    requires SortedByCount(a) && SortedByCount(b)
    requires multiset(a) == multiset(b)
    ensures |a| == |b|
    ensures forall k :: 0 <= k < |a| ==> a[k].count == b[k].count
    decreases |a|
  {
    assert |a| == |multiset(a)| == |multiset(b)| == |b|;
    if |a| > 0 {
      var j := SortedHeadsAgree(a, b);
      var rest := b[..j] + b[j + 1..];
      RemoveKeepsSorted(b, j);
      RemoveAt(b, j);
      assert a == [a[0]] + a[1..];
      MultisetCancel(multiset(a[1..]), multiset(rest), a[0]);
      SortedCountsAgree(a[1..], rest);
      forall k | 0 < k < |a| ensures a[k].count == b[k].count {
        assert a[k] == a[1..][k - 1];
        RemovedIndex(b, j, k - 1);
      }
    }
  }

  /** The first entry of one ordering by descending count sits in the other at
      a position `j` whose count, and every count before it, equals its own. */
  lemma SortedHeadsAgree(a: seq<Entry>, b: seq<Entry>) returns (j: nat)
    requires SortedByCount(a) && SortedByCount(b)
    requires multiset(a) == multiset(b) && |a| > 0
    ensures j < |b| && b[j] == a[0]
    ensures forall k :: 0 <= k <= j ==> b[k].count == a[0].count
  {
    assert a[0] in multiset(b);
    j :| 0 <= j < |b| && b[j] == a[0];
    assert b[0] in multiset(a);
    var i :| 0 <= i < |a| && a[i] == b[0];
  }

  /** Taking one entry out keeps an ordering by descending count. */
  lemma RemoveKeepsSorted(b: seq<Entry>, j: nat)
    requires SortedByCount(b) && j < |b|
    ensures SortedByCount(b[..j] + b[j + 1..])
  {
    var rest := b[..j] + b[j + 1..];
    forall p, q | 0 <= p < q < |rest| ensures rest[p].count >= rest[q].count {
      RemovedIndex(b, j, p);
      RemovedIndex(b, j, q);
    }
  }

  /** Where an entry of `b` ends up once position `j` is taken out. */
  lemma RemovedIndex<T>(b: seq<T>, j: nat, p: nat)
    requires j < |b| && p < |b| - 1
    ensures (b[..j] + b[j + 1..])[p] == if p < j then b[p] else b[p + 1]
  {
  }

  /** The counts printed do not depend on the order the map is iterated in:
      only words with equal counts can trade places. */
  lemma TopCountsDeterministic(m: FrequencyMap, l1: seq<Entry>, l2: seq<Entry>, i: nat)
    requires IsListing(l1, m) && IsListing(l2, m)
    ensures forall k :: 0 <= k < Min(i, |m|) ==> TopEntries(m, l1, i)[k].count == TopEntries(m, l2, i)[k].count
  {
    var s1, s2 := SortedMap(m, l1), SortedMap(m, l2);
    ListingsArePermutations(s1, s2, m);
    SortedCountsAgree(s1, s2);
  }

  /** When no two words share a count, the printed entries do not depend on the
      order the map is iterated in at all. */
  lemma DistinctCountsDetermineTop(m: FrequencyMap, l1: seq<Entry>, l2: seq<Entry>, i: nat)
    requires IsListing(l1, m) && IsListing(l2, m)
    requires forall v, w :: v in m && w in m && v != w ==> m[v] != m[w]
    ensures TopEntries(m, l1, i) == TopEntries(m, l2, i)
  {
    var s1, s2 := SortedMap(m, l1), SortedMap(m, l2);
    ListingsArePermutations(s1, s2, m);
    SortedCountsAgree(s1, s2);
    forall k | 0 <= k < |s1| ensures s1[k] == s2[k] {
      assert s1[k].word in m && s2[k].word in m;
    }
    assert s1 == s2;
  }

  /** Asking for at least as many entries as the map holds gives every entry once. */
  lemma TopCoversMap(m: FrequencyMap, listing: seq<Entry>, k: nat)
    requires IsListing(listing, m) && k >= |m|
    ensures IsListing(TopEntries(m, listing, k), m)
  {
    var sorted := SortedMap(m, listing);
    assert TopEntries(m, listing, k) == sorted[..|sorted|] == sorted;
  }
}
