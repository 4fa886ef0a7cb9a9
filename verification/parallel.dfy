/**
 * The parallel reader. Every line goes to some worker; a worker walks the
 * tokens of its line in order, and each increment of the shared map happens
 * inside one critical section on that map. A run is therefore one
 * interleaving of the lines' token streams. The interleaving is described by
 * a schedule: the sequence of line indices whose worker performs the next
 * increment. The thread scheduler chooses it; here it is a parameter.
 */
module Parallel {
  import opened Tokenizer
  import opened Counter

  /** The token stream of each line. */
  function Streams(lines: seq<string>): (r: seq<seq<string>>)
    ensures |r| == |lines|
    ensures forall i :: 0 <= i < |lines| ==> r[i] == Tokenize(lines[i])
  {
    seq(|lines|, i requires 0 <= i < |lines| => Tokenize(lines[i]))
  }

  /** The streams one after the other. */
  function Flatten(streams: seq<seq<string>>): seq<string> {
    if |streams| == 0 then [] else streams[0] + Flatten(streams[1..])
  }

  /** A schedule the workers can follow: every step names a line that still
      has a token, and when the schedule ends every line is used up. */
  predicate ValidSchedule(streams: seq<seq<string>>, schedule: seq<nat>)
    decreases |schedule|
  {
    if |schedule| == 0 then forall i :: 0 <= i < |streams| ==> streams[i] == []
    else
      var i := schedule[0];
      i < |streams| && |streams[i]| > 0 && ValidSchedule(streams[i := streams[i][1..]], schedule[1..])
  }

  /** A schedule names only existing lines, and names each line exactly once per token of it. */
  predicate CountsMatch(streams: seq<seq<string>>, schedule: seq<nat>) {
    && (forall x :: x in schedule ==> x < |streams|)
    && (forall i :: 0 <= i < |streams| ==> multiset(schedule)[i] == |streams[i]|)
  }

  /** The order in which the shared map receives the tokens under `schedule`:
      each step takes the next token of the scheduled line. */
  function Interleave(streams: seq<seq<string>>, schedule: seq<nat>): (r: seq<string>)
    requires ValidSchedule(streams, schedule)
    ensures |r| == |schedule|
    decreases |schedule|
  {
    if |schedule| == 0 then []
    else
      var i := schedule[0];
      [streams[i][0]] + Interleave(streams[i := streams[i][1..]], schedule[1..])
  }

  /** The map the parallel reader returns under `schedule`. */
  function ParallelCount(lines: seq<string>, schedule: seq<nat>): (r: FrequencyMap)
    requires ValidSchedule(Streams(lines), schedule)
    ensures forall w :: CountOf(r, w) == multiset(AllTokens(lines))[w]
    ensures AllPositive(r)
  {
    InterleavePermutes(Streams(lines), schedule);
    FlattenStreams(lines);
    CountTokens(map[], Interleave(Streams(lines), schedule))
  }

  /** The schedule of a single worker: all tokens of line `from`, then of the next line, and so on. */
  function InOrder(streams: seq<seq<string>>, from: nat): seq<nat>
    requires from <= |streams|
    decreases |streams| - from
  {
    if from == |streams| then [] else Repeat(from, |streams[from]|) + InOrder(streams, from + 1)
  }

  /** `n` copies of `i`. */
  function Repeat(i: nat, n: nat): (r: seq<nat>)
    ensures |r| == n
    ensures forall k :: 0 <= k < n ==> r[k] == i
  {
    if n == 0 then [] else [i] + Repeat(i, n - 1)
  }

  // ---------------------------------------------------------------------------
  // Lemmas

  /** A valid schedule names each line exactly once per token of it. */
  lemma {:induction false} ValidScheduleCounts(streams: seq<seq<string>>, schedule: seq<nat>)
    requires ValidSchedule(streams, schedule)
    ensures CountsMatch(streams, schedule)
    decreases |schedule|
  {
    if |schedule| > 0 {
      var i := schedule[0];
      var next := streams[i := streams[i][1..]];
      ValidScheduleCounts(next, schedule[1..]);
      assert schedule == [i] + schedule[1..];
      forall j | 0 <= j < |streams| ensures multiset(schedule)[j] == |streams[j]| {
        assert multiset(schedule)[j] == multiset([i])[j] + multiset(schedule[1..])[j];
      }
    }
  }

  /** Conversely, a schedule that names each line once per token is valid. */
  lemma {:induction false} CountsMatchValid(streams: seq<seq<string>>, schedule: seq<nat>)
    requires CountsMatch(streams, schedule)
    ensures ValidSchedule(streams, schedule)
    decreases |schedule|
  {
    if |schedule| == 0 {
      forall i | 0 <= i < |streams| ensures streams[i] == [] {
        assert multiset(schedule)[i] == 0;
      }
    } else {
      var i := schedule[0];
      assert i in schedule;
      assert schedule == [i] + schedule[1..];
      var next := streams[i := streams[i][1..]];
      assert multiset(schedule)[i] >= 1;
      assert CountsMatch(next, schedule[1..]) by {
        assert forall x :: x in schedule[1..] ==> x in schedule;
        forall j | 0 <= j < |next| ensures multiset(schedule[1..])[j] == |next[j]| {
          assert multiset(schedule)[j] == multiset([i])[j] + multiset(schedule[1..])[j];
        }
      }
      CountsMatchValid(next, schedule[1..]);
    }
  }

  /** Taking the first token of stream `i` takes one copy of it out of the whole. */
  lemma {:induction false} FlattenTakeFirst(streams: seq<seq<string>>, i: nat)
    requires i < |streams| && |streams[i]| > 0
    ensures multiset(Flatten(streams))
         == multiset(Flatten(streams[i := streams[i][1..]])) + multiset{streams[i][0]}
  {
    var next := streams[i := streams[i][1..]];
    assert streams[i] == [streams[i][0]] + streams[i][1..];
    if i == 0 {
      assert next[1..] == streams[1..];
    } else {
      assert next[1..] == streams[1..][i - 1 := streams[i][1..]];
      FlattenTakeFirst(streams[1..], i - 1);
    }
  }

  /** Streams that are all empty have nothing to flatten. */
  lemma {:induction false} FlattenAllEmpty(streams: seq<seq<string>>)
    requires forall i :: 0 <= i < |streams| ==> |streams[i]| == 0
    ensures Flatten(streams) == []
  {
    if |streams| > 0 {
      FlattenAllEmpty(streams[1..]);
    }
  }

  /** Every interleaving delivers each token exactly as often as the lines contain it. */
  lemma {:induction false} InterleavePermutes(streams: seq<seq<string>>, schedule: seq<nat>)
    requires ValidSchedule(streams, schedule)
    ensures multiset(Interleave(streams, schedule)) == multiset(Flatten(streams))
    decreases |schedule|
  {
    if |schedule| == 0 {
      FlattenAllEmpty(streams);
    } else {
      var i := schedule[0];
      var next := streams[i := streams[i][1..]];
      InterleavePermutes(next, schedule[1..]);
      FlattenTakeFirst(streams, i);
    }
  }

  /** The flattened streams of the lines are the tokens of all lines. */
  lemma {:induction false} FlattenStreams(lines: seq<string>)
    ensures Flatten(Streams(lines)) == AllTokens(lines)
  {
    if |lines| > 0 {
      assert Streams(lines)[1..] == Streams(lines[1..]);
      FlattenStreams(lines[1..]);
    }
  }

  /** The parallel reader counts exactly what the single-threaded reader counts,
      whatever the interleaving of the workers. */
  lemma ParallelMatchesSequential(lines: seq<string>, schedule: seq<nat>)
    requires ValidSchedule(Streams(lines), schedule)
    ensures ParallelCount(lines, schedule) == SequentialCount(lines)
  {
    SameCountsSameMap(ParallelCount(lines, schedule), SequentialCount(lines));
  }

  /** With one worker the shared map receives exactly the token stream the
      single-threaded reader folds, line after line; so every input has a run. */
  lemma SingleWorkerRun(lines: seq<string>)
    ensures ValidSchedule(Streams(lines), InOrder(Streams(lines), 0))
    ensures Interleave(Streams(lines), InOrder(Streams(lines), 0)) == AllTokens(lines)
  {
    var streams := Streams(lines);
    InOrderIsSequential(streams, 0);
    assert streams[0..] == streams;
    FlattenStreams(lines);
  }

  /** Under the single-worker schedule the map receives the tokens line after
      line, once the lines before `from` are used up. */
  lemma {:induction false} InOrderIsSequential(streams: seq<seq<string>>, from: nat)
    requires from <= |streams|
    requires forall i :: 0 <= i < from ==> streams[i] == []
    ensures ValidSchedule(streams, InOrder(streams, from))
    ensures Interleave(streams, InOrder(streams, from)) == Flatten(streams[from..])
    decreases |streams| - from
  {
    if from == |streams| {
      assert streams[from..] == [];
    } else {
      var emptied := streams[from := []];
      var rest := InOrder(streams, from + 1);
      InOrderFrom(streams, emptied, from + 1);
      InOrderIsSequential(emptied, from + 1);
      assert emptied[from + 1..] == streams[from + 1..];
      RepeatInterleave(streams, from, |streams[from]|, rest);
      assert streams[from..] == [streams[from]] + streams[from + 1..];
    }
  }

  /** The single-worker schedule from `from` on only reads streams from `from` on. */
  lemma {:induction false} InOrderFrom(s: seq<seq<string>>, t: seq<seq<string>>, from: nat)
    requires from <= |s| == |t|
    requires forall i :: from <= i < |s| ==> s[i] == t[i]
    ensures InOrder(s, from) == InOrder(t, from)
    decreases |s| - from
  {
    if from < |s| {
      InOrderFrom(s, t, from + 1);
    }
  }

  /** Running stream `i` to its end takes its tokens, in order, and leaves it empty. */
  lemma {:induction false} RepeatInterleave(streams: seq<seq<string>>, i: nat, n: nat, rest: seq<nat>)
    requires i < |streams| && n == |streams[i]|
    requires ValidSchedule(streams[i := []], rest)
    ensures ValidSchedule(streams, Repeat(i, n) + rest)
    ensures Interleave(streams, Repeat(i, n) + rest) == streams[i] + Interleave(streams[i := []], rest)
    decreases n
  {
    if n == 0 {
      assert Repeat(i, n) + rest == rest;
      assert streams[i := []] == streams;
    } else {
      var next := streams[i := streams[i][1..]];
      assert next[i := []] == streams[i := []];
      RepeatInterleave(next, i, n - 1, rest);
      var sched := Repeat(i, n) + rest;
      assert sched[0] == i && sched[1..] == Repeat(i, n - 1) + rest by {
        assert Repeat(i, n) == [i] + Repeat(i, n - 1);
      }
      assert streams[i] == [streams[i][0]] + next[i];
    }
  }
}
