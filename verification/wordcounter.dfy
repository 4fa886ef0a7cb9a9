/**
 * The program itself: `main` chooses the reader from its arguments, `execute`
 * reads the word map and prints the ten most frequent words.
 *
 * Reading the file is a parameter: the lines it holds, or the failure of
 * `Files.readAllLines`. The interleaving of the parallel reader is the
 * schedule of the `Parallel` module, and the iteration order of the hash map
 * is a listing of it, as in the `Selector` module.
 */
module WordCounter {
  import opened Tokenizer
  import opened Counter
  import opened Parallel
  import opened Selector

  /** How many words are printed. */
  const TopWords: nat := 10

  /** The line printed when the file cannot be read. */
  const CannotBeRead: string := "File cannot be read"

  /** The argument that selects the multi-threaded reader. */
  const ParallelFlag: string := "parallel"

  /** What reading the file gives: its lines, or an `IOException`. */
  datatype Input = Lines(lines: seq<string>) | ReadFailure

  /** `main` uses the parallel reader exactly when the first argument is "parallel". */
  predicate IsParallel(args: seq<string>) {
    |args| > 0 && args[0] == ParallelFlag
  }

  /** A schedule the parallel reader can follow on `input`. */
  predicate CanRun(parallel: bool, input: Input, schedule: seq<nat>) {
    parallel && input.Lines? ==> ValidSchedule(Streams(input.lines), schedule)
  }

  /** The supplier `execute` calls: the parallel reader under `schedule`, or
      the single-threaded one. A read failure leaves the map empty. */
  function ReadWords(parallel: bool, input: Input, schedule: seq<nat>): (r: FrequencyMap)
    requires CanRun(parallel, input, schedule)
    ensures input.ReadFailure? ==> r == map[]
    ensures input.Lines? ==> forall w :: CountOf(r, w) == multiset(AllTokens(input.lines))[w]
    ensures AllPositive(r)
  {
    match input
    case ReadFailure => map[]
    case Lines(lines) => if parallel then ParallelCount(lines, schedule) else SequentialCount(lines)
  }

  /** `main` and `start` without the timing line: the reader chosen from the
      arguments, then what is printed, the reader's error line if the file
      cannot be read and the rendered top entries of the map. */
  method Execute(args: seq<string>, input: Input, schedule: seq<nat>) returns (parallel: bool, output: seq<string>)
    requires CanRun(IsParallel(args), input, schedule)
    ensures parallel <==> |args| > 0 && args[0] == "parallel"
    ensures input.ReadFailure? ==> output == [CannotBeRead]
    ensures input.Lines? ==> |output| == Min(TopWords, |SequentialCount(input.lines)|)
    ensures input.Lines? ==> ParseAll(output).Some? && IsTop(ParseAll(output).value, SequentialCount(input.lines))
  {
    parallel := IsParallel(args);
    var wordMap := ReadWords(parallel, input, schedule);
    if parallel {
      ReadersAgree(input, schedule);
    }
    var listing := EntriesOf(wordMap);
    var result := MapTopValues(wordMap, listing, TopWords);
    var top := TopEntries(wordMap, listing, TopWords);
    output := (if input.ReadFailure? then [CannotBeRead] else []) + result.lines;
    if input.Lines? {
      assert output == result.lines;
      assert ParseAll(output) == Some(top);
    } else {
      assert |result.lines| == 0;
    }
  }

  // ---------------------------------------------------------------------------
  // Lemmas

  /** Both readers return the same map, whatever the schedule. */
  lemma ReadersAgree(input: Input, schedule: seq<nat>)
    requires CanRun(true, input, schedule)
    ensures ReadWords(true, input, schedule) == ReadWords(false, input, schedule)
  {
    if input.Lines? {
      ParallelMatchesSequential(input.lines, schedule);
    }
  }

  /** No lines, or lines of delimiters only, print nothing. */
  lemma BlankInputPrintsNothing(lines: seq<string>, listing: seq<Entry>)
    requires forall i, k :: 0 <= i < |lines| && 0 <= k < |lines[i]| ==> IsDelimiter(lines[i][k])
    requires IsListing(listing, SequentialCount(lines))
    ensures SequentialCount(lines) == map[]
    ensures MapTopValues(SequentialCount(lines), listing, TopWords) == Top([])
  {
    SequentialCountOfBlankInput(lines);
  }
}
