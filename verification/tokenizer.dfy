/**
 * The tokenizer of the word counter. A line is lower-cased and cut at every
 * character of the class `[&.,:;!?\s\t\[\]]`; the empty pieces that the cut
 * leaves between adjacent delimiters (or at the ends of the line) are then
 * dropped. What remains are the maximal runs of non-delimiter characters.
 */
module Tokenizer {

  /** A character of the split class. Java's `\s` stands for space, tab, line
      feed, vertical tab (U+000B), form feed (U+000C) and carriage return. */
  predicate IsDelimiter(c: char) {
    || c == '&' || c == '.' || c == ',' || c == ':' || c == ';' || c == '!' || c == '?'
    || c == ' ' || c == '\t' || c == '\n' || c == '\U{000B}' || c == '\U{000C}' || c == '\r'
    || c == '[' || c == ']'
  }

  predicate IsUpper(c: char) {
    'A' <= c <= 'Z'
  }

  predicate IsLowerCase(s: string) {
    forall i :: 0 <= i < |s| ==> !IsUpper(s[i])
  }

  predicate NoDelimiter(s: string) {
    forall i :: 0 <= i < |s| ==> !IsDelimiter(s[i])
  }

  /** A word as the counter stores it: non-empty, free of delimiters, lower-case. */
  predicate IsToken(w: string) {
    |w| > 0 && NoDelimiter(w) && IsLowerCase(w)
  }

  /** ASCII case folding: upper-case letters become lower-case, everything else is kept. */
  function LowerChar(c: char): (r: char)
    ensures IsUpper(c) ==> 'a' <= r <= 'z' && r as int == c as int + 32
    ensures !IsUpper(r)
    ensures !IsUpper(c) ==> r == c
    ensures IsDelimiter(r) <==> IsDelimiter(c)
  {
    if IsUpper(c) then (c as int - 'A' as int + 'a' as int) as char else c
  }

  /** `String.toLowerCase`, character by character. */
  function Lower(s: string): (r: string)
    ensures |r| == |s|
    ensures forall i :: 0 <= i < |s| ==> r[i] == LowerChar(s[i])
    ensures IsLowerCase(r)
    ensures IsLowerCase(s) ==> r == s
  {
    seq(|s|, i requires 0 <= i < |s| => LowerChar(s[i]))
  }

  /** The delimiter characters of `s`, in order. */
  function Delimiters(s: string): (r: string)
    ensures |r| <= |s|
    ensures forall i :: 0 <= i < |r| ==> IsDelimiter(r[i])
  {
    if |s| == 0 then [] else (if IsDelimiter(s[0]) then [s[0]] else []) + Delimiters(s[1..])
  }

  /** What the regular-expression split leaves between consecutive delimiters,
      all empty pieces included: one piece more than there are delimiters.
      `String.split` also drops the trailing empty pieces; the empty-word
      filter removes those in any case. */
  function Pieces(s: string): (r: seq<string>)
    ensures |r| == |Delimiters(s)| + 1
    ensures forall k :: 0 <= k < |r| ==> NoDelimiter(r[k])
    ensures IsLowerCase(s) ==> forall k :: 0 <= k < |r| ==> IsLowerCase(r[k])
  {
    if |s| == 0 then [""]
    else
      var rest := Pieces(s[1..]);
      if IsDelimiter(s[0]) then [""] + rest else [[s[0]] + rest[0]] + rest[1..]
  }

  /** Puts the delimiters back between the pieces: the inverse of the split. */
  function Reassemble(pieces: seq<string>, delims: string): string
    requires |pieces| == |delims| + 1
  {
    if |delims| == 0 then pieces[0]
    else pieces[0] + [delims[0]] + Reassemble(pieces[1..], delims[1..])
  }

  /** The empty-word filter `if (!word.isEmpty())`. */
  function NonEmpty(pieces: seq<string>): (r: seq<string>)
    ensures |r| <= |pieces|
    ensures forall k :: 0 <= k < |r| ==> r[k] != "" && r[k] in pieces
  {
    if |pieces| == 0 then []
    else (if pieces[0] == "" then [] else [pieces[0]]) + NonEmpty(pieces[1..])
  }

  /** The maximal runs of non-delimiter characters of `s`. */
  function Words(s: string): seq<string> {
    NonEmpty(Pieces(s))
  }

  /** The tokens of one line: lower-case, split, empties dropped. */
  function Tokenize(line: string): (r: seq<string>)
    ensures forall k :: 0 <= k < |r| ==> IsToken(r[k])
  {
    Words(Lower(line))
  }

  /** Words joined with a single space; the inverse of tokenizing. */
  function JoinWords(ws: seq<string>): string {
    if |ws| == 0 then ""
    else if |ws| == 1 then ws[0]
    else ws[0] + " " + JoinWords(ws[1..])
  }

  // ---------------------------------------------------------------------------
  // Lemmas

  /** The split loses nothing: the pieces and the delimiters rebuild the input. */
  lemma {:induction false} ReassemblePieces(s: string)
    ensures Reassemble(Pieces(s), Delimiters(s)) == s
  {
    if |s| > 0 {
      var c, t := s[0], s[1..];
      assert s == [c] + t;
      PiecesCons(c, t);
      ReassemblePieces(t);
      var ps, ds := Pieces(t), Delimiters(t);
      if IsDelimiter(c) {
        assert Delimiters(s) == [c] + ds;
        ReassembleCons([], [""] + ps, [c] + ds);
        assert ([""] + ps)[1..] == ps;
      } else {
        assert Delimiters(s) == ds;
        ReassembleCons([c], ps, ds);
      }
    }
  }

  /** Text in front of the first piece is text in front of the whole. */
  lemma ReassembleCons(x: string, pieces: seq<string>, delims: string)
    requires |pieces| == |delims| + 1
    ensures Reassemble([x + pieces[0]] + pieces[1..], delims) == x + Reassemble(pieces, delims)
  {
    var q := [x + pieces[0]] + pieces[1..];
    assert q[0] == x + pieces[0] && q[1..] == pieces[1..];
    if |delims| > 0 {
      var rest := Reassemble(pieces[1..], delims[1..]);
      assert x + pieces[0] + [delims[0]] + rest == x + (pieces[0] + [delims[0]] + rest);
    }
  }

  /** The split is the only one: any delimiter-free pieces that rebuild `s`
      together with its delimiters are the pieces of `s`. */
  lemma {:induction false} PiecesUnique(s: string, ps: seq<string>)
    requires |ps| == |Delimiters(s)| + 1
    requires forall k :: 0 <= k < |ps| ==> NoDelimiter(ps[k])
    requires Reassemble(ps, Delimiters(s)) == s
    ensures ps == Pieces(s)
    decreases |s|
  {
    ReassemblePieces(s);
    var ds := Delimiters(s);
    if |ds| == 0 {
      PiecesUniqueNoDelimiter(s, ps);
    } else {
      var p0 := ps[0];
      var tail := Reassemble(ps[1..], ds[1..]);
      assert s == p0 + [ds[0]] + tail;
      var t := s[|p0| + 1..];
      assert t == tail;
      DelimitersAfter(p0, ds[0], t);
      assert s == p0 + [ds[0]] + t;
      assert Delimiters(t) == ds[1..];
      PiecesUnique(t, ps[1..]);
      PiecesAfter(p0, ds[0], t);
      assert ps == [p0] + ps[1..];
    }
  }

  /** Without delimiters the only piece is the whole string. */
  lemma PiecesUniqueNoDelimiter(s: string, ps: seq<string>)
    requires |ps| == 1 && |Delimiters(s)| == 0
    requires Reassemble(ps, Delimiters(s)) == s
    ensures ps == Pieces(s)
  {
    ReassemblePieces(s);
  }

  /** The delimiters of `p + [d] + t`, for a delimiter-free `p`. */
  lemma {:induction false} DelimitersAfter(p: string, d: char, t: string)
    requires NoDelimiter(p) && IsDelimiter(d)
    ensures Delimiters(p + [d] + t) == [d] + Delimiters(t)
  {
    if |p| == 0 {
      assert (p + [d] + t)[1..] == t;
    } else {
      assert (p + [d] + t)[1..] == p[1..] + [d] + t;
      DelimitersAfter(p[1..], d, t);
    }
  }

  /** The pieces of `p + [d] + t`, for a delimiter-free `p`. */
  lemma PiecesAfter(p: string, d: char, t: string)
    requires NoDelimiter(p) && IsDelimiter(d)
    ensures Pieces(p + [d] + t) == [p] + Pieces(t)
  {
    PiecesNoDelimiter(p);
    PiecesSplit(p, d, t);
  }

  /** A delimiter-free string is a single piece. */
  lemma {:induction false} PiecesNoDelimiter(s: string)
    requires NoDelimiter(s)
    ensures Pieces(s) == [s]
  {
    if |s| > 0 {
      PiecesNoDelimiter(s[1..]);
      assert [s[0]] + s[1..] == s;
    }
  }

  /** Cutting at one delimiter: the pieces on each side are the pieces of each side. */
  lemma {:induction false} PiecesSplit(a: string, d: char, b: string)
    requires IsDelimiter(d)
    ensures Pieces(a + [d] + b) == Pieces(a) + Pieces(b)
  {
    if |a| == 0 {
      assert a + [d] + b == [d] + b;
      PiecesCons(d, b);
    } else {
      var t := a[1..] + [d] + b;
      assert a + [d] + b == [a[0]] + t;
      assert a == [a[0]] + a[1..];
      PiecesSplit(a[1..], d, b);
      PiecesCons(a[0], t);
      PiecesCons(a[0], a[1..]);
      ConsAppend(a[0], Pieces(a[1..]), Pieces(b));
    }
  }

  /** One character in front of a string: a delimiter starts a new piece, any
      other character joins the first piece. */
  lemma PiecesCons(c: char, t: string)
    ensures Pieces([c] + t) == if IsDelimiter(c) then [""] + Pieces(t) else [[c] + Pieces(t)[0]] + Pieces(t)[1..]
  {
    assert ([c] + t)[1..] == t;
  }

  lemma ConsAppend(c: char, p: seq<string>, q: seq<string>)
    requires |p| > 0
    ensures [[c] + (p + q)[0]] + (p + q)[1..] == ([[c] + p[0]] + p[1..]) + q
    ensures [""] + (p + q) == ([""] + p) + q
  {
    assert (p + q)[0] == p[0] && (p + q)[1..] == p[1..] + q;
  }

  /** The filter keeps every non-empty piece as often as it occurs, and no empty one. */
  lemma {:induction false} NonEmptyCounts(pieces: seq<string>)
    ensures forall w :: multiset(NonEmpty(pieces))[w] == if w == "" then 0 else multiset(pieces)[w]
  {
    if |pieces| > 0 {
      var p, rest := pieces[0], pieces[1..];
      NonEmptyCounts(rest);
      assert pieces == [p] + rest;
      var kept := if p == "" then [] else [p];
      assert NonEmpty(pieces) == kept + NonEmpty(rest);
      forall w ensures multiset(NonEmpty(pieces))[w] == if w == "" then 0 else multiset(pieces)[w] {
        assert multiset(NonEmpty(pieces))[w] == multiset(kept)[w] + multiset(NonEmpty(rest))[w];
        assert multiset(pieces)[w] == multiset([p])[w] + multiset(rest)[w];
      }
    }
  }

  /** The filter distributes over concatenation. */
  lemma {:induction false} NonEmptyAppend(p: seq<string>, q: seq<string>)
    ensures NonEmpty(p + q) == NonEmpty(p) + NonEmpty(q)
  {
    if |p| > 0 {
      assert (p + q)[1..] == p[1..] + q;
      NonEmptyAppend(p[1..], q);
    } else {
      assert p + q == q;
    }
  }

  /** Lower-casing leaves delimiters in place. */
  lemma LowerSplit(a: string, d: char, b: string)
    requires IsDelimiter(d)
    ensures Lower(a + [d] + b) == Lower(a) + [d] + Lower(b)
  {
  }

  /** A delimiter separates: the tokens of `a + [d] + b` are those of `a` followed by those of `b`. */
  lemma TokenizeSplit(a: string, d: char, b: string)
    requires IsDelimiter(d)
    ensures Tokenize(a + [d] + b) == Tokenize(a) + Tokenize(b)
  {
    LowerSplit(a, d, b);
    PiecesSplit(Lower(a), d, Lower(b));
    NonEmptyAppend(Pieces(Lower(a)), Pieces(Lower(b)));
  }

  /** A line made only of delimiters, the empty line included, has no tokens. */
  lemma {:induction false} TokenizeOnlyDelimiters(line: string)
    requires forall i :: 0 <= i < |line| ==> IsDelimiter(line[i])
    ensures Tokenize(line) == []
  {
    if |line| > 0 {
      TokenizeSplit([], line[0], line[1..]);
      assert [] + [line[0]] + line[1..] == line;
      TokenizeOnlyDelimiters(line[1..]);
    }
  }

  /** Leading and trailing delimiters do not change the tokens of a line. */
  lemma TokenizeIgnoresOuterDelimiters(line: string, d: char)
    requires IsDelimiter(d)
    ensures Tokenize([d] + line) == Tokenize(line)
    ensures Tokenize(line + [d]) == Tokenize(line)
  {
    TokenizeSplit([], d, line);
    assert [] + [d] + line == [d] + line;
    TokenizeOnlyDelimiters([]);
    TokenizeSplit(line, d, []);
    assert line + [d] + [] == line + [d];
  }

  /** Delimiters in front of a line do not change its tokens. */
  lemma {:induction false} TokenizeDropsLeadingDelimiters(run: string, b: string)
    requires forall i :: 0 <= i < |run| ==> IsDelimiter(run[i])
    ensures Tokenize(run + b) == Tokenize(b)
  {
    if |run| == 0 {
      assert run + b == b;
    } else {
      var rest := run[1..] + b;
      assert run + b == [run[0]] + rest;
      TokenizeIgnoresOuterDelimiters(rest, run[0]);
      assert Tokenize(run + b) == Tokenize(rest);
      TokenizeDropsLeadingDelimiters(run[1..], b);
    }
  }

  /** A run of delimiters acts like a single one. */
  lemma TokenizeCollapsesRuns(a: string, run: string, d: char, b: string)
    requires IsDelimiter(d)
    requires |run| > 0 && forall i :: 0 <= i < |run| ==> IsDelimiter(run[i])
    ensures Tokenize(a + run + b) == Tokenize(a + [d] + b)
  {
    var rest := run[1..] + b;
    assert a + run + b == a + [run[0]] + rest by {
      assert run == [run[0]] + run[1..];
    }
    TokenizeSplit(a, run[0], rest);
    TokenizeDropsLeadingDelimiters(run[1..], b);
    TokenizeSplit(a, d, b);
  }

  /** Tokenizing undoes joining: tokens separated by single spaces come back unchanged. */
  lemma {:induction false} TokenizeJoinWords(ws: seq<string>)
    requires forall k :: 0 <= k < |ws| ==> IsToken(ws[k])
    ensures Tokenize(JoinWords(ws)) == ws
  {
    if |ws| == 0 {
      TokenizeOnlyDelimiters("");
    } else if |ws| == 1 {
      TokenizeSingleToken(ws[0]);
    } else {
      var w, rest := ws[0], ws[1..];
      assert forall k :: 0 <= k < |rest| ==> rest[k] == ws[k + 1];
      assert JoinWords(ws) == w + [' '] + JoinWords(rest);
      TokenizeSplit(w, ' ', JoinWords(rest));
      TokenizeSingleToken(w);
      TokenizeJoinWords(rest);
      assert ws == [w] + rest;
    }
  }

  /** A token is its own only token. */
  lemma TokenizeSingleToken(w: string)
    requires IsToken(w)
    ensures Tokenize(w) == [w]
  {
    PiecesNoDelimiter(w);
  }
}
