# Word counter, modelled in Dafny

`WordCounter` reads a text file and counts how often each word occurs. It
prints the ten most frequent words, each as `word (count)`. The model covers
the logic between the file and the console:

- the tokenizer: lower-case a line, split it on the character class
  `[&.,:;!?\s\t\[\]]`, drop the empty pieces (module `Tokenizer`);
- the counting fold, with "put 1 if absent, else old + 1" (module `Counter`);
- the parallel reader, as every interleaving of the lines' token streams
  into one shared map (module `Parallel`);
- the decimal rendering of a count (module `Decimal`);
- `getSortedMap` and `getMapTopValues`, which sort the entries by descending
  count, keep a prefix and render it (module `Selector`);
- `main`'s choice of reader and `execute`'s output (module `WordCounter`).

Some behaviour is chosen outside the program. It enters the model as parameters:

- The file's contents are a parameter: its lines, or a read failure.
- The interleaving chosen by the thread scheduler is a schedule. A schedule is
  the sequence of line indices whose worker makes the next increment.
- The iteration order of the `HashMap` is a listing. A listing is any sequence
  holding every entry of the map exactly once.

Every property about output order therefore holds for all listings. It does
not depend on any one iteration order.

Three points of the source's behaviour are easy to misread. The model follows
the source in each:

- **Tie order.** `getSortedMap` sorts the entry stream of a `HashMap`
  (src/WordCounter.java:117-121), so words with equal counts come out in
  hash-iteration order, which is unspecified. The model leaves tie order open.
  `Selector.TopCountsDeterministic` proves that only words with equal counts
  can trade places.
- **Number of lines.** The comments at src/WordCounter.java:14-15 and :45-46
  speak of the top 10 words. `limit(10)` prints
  `min(10, number of distinct words)` lines.
- **Error output.** On a read failure the reader prints the error line, and
  `execute` then prints the top list of an empty map, which is empty.

## Model

| member | source | states |
|---|---|---|
| Tokenizer.LowerChar | src/WordCounter.java:81 | an upper-case letter becomes the matching lower-case letter (code point + 32), every other character is kept, and delimiters stay delimiters |
| Tokenizer.Lower | src/WordCounter.java:81 | `toLowerCase` keeps the length and lower-cases each character in place, so "The" and "the" become the same text; it is the identity on lower-case text |
| Tokenizer.Pieces | src/WordCounter.java:24 | the split yields one more piece than there are delimiters, and no piece contains a delimiter |
| Tokenizer.ReassemblePieces | src/WordCounter.java:24 | putting the delimiters back between the pieces gives the line back, so the split loses nothing |
| Tokenizer.PiecesUnique | src/WordCounter.java:24 | the split is the only way to cut the line into delimiter-free pieces around its delimiters |
| Tokenizer.NonEmpty | src/WordCounter.java:82 | the filter keeps only non-empty pieces, each one of the input pieces |
| Tokenizer.NonEmptyCounts | src/WordCounter.java:82 | the filter keeps exactly the non-empty pieces, each as often as it occurs, and drops every empty one |
| Tokenizer.NonEmptyAppend | src/WordCounter.java:82 | the filter works piece by piece, so the kept pieces stay in their order |
| Tokenizer.Tokenize | src/WordCounter.java:81-82 | every token of a line is non-empty, has no delimiter and is lower-case |
| Tokenizer.TokenizeSplit | src/WordCounter.java:81-82 | the tokens of `a`, a delimiter, then `b` are the tokens of `a` followed by those of `b` |
| Tokenizer.TokenizeOnlyDelimiters | src/WordCounter.java:81-82 | a line of delimiters only, the empty line included, has no tokens |
| Tokenizer.TokenizeIgnoresOuterDelimiters | src/WordCounter.java:81-82 | a leading or trailing delimiter does not change a line's tokens |
| Tokenizer.TokenizeCollapsesRuns | src/WordCounter.java:81-82 | a run of several delimiters splits like a single delimiter |
| Tokenizer.TokenizeJoinWords | src/WordCounter.java:81-82 | tokens joined by single spaces tokenize back to the same tokens |
| Counter.Increment | src/WordCounter.java:83 | one update raises the word's count by one, leaves every other count alone and keeps all counts positive |
| Counter.CountTokens | src/WordCounter.java:81-85 | folding tokens into a map adds each word's number of occurrences to its count |
| Counter.SequentialCount | src/WordCounter.java:76-90 | the single-threaded reader maps each word to its number of occurrences among the tokens of all lines; every stored count is at least one |
| Counter.CountSequentially | src/WordCounter.java:78-85 | the line-by-line loop computes the occurrence counts of all tokens |
| Counter.CountLine | src/WordCounter.java:81-84 | the per-piece loop with the empty-word test folds exactly the line's tokens |
| Counter.SequentialCountIsTokenFold | src/WordCounter.java:80-85 | counting line after line is folding the single stream of all the lines' tokens |
| Counter.SequentialCountKeys | src/WordCounter.java:83 | a word is a key of the map exactly when it occurs as a token |
| Counter.CountTokensOrderIndependent | src/WordCounter.java:62-69 | folding the same tokens in any order gives the same map |
| Counter.SequentialCountOrderIndependent | src/WordCounter.java:80-85 | processing the lines in any order gives the same map |
| Counter.SequentialCountOfBlankInput | src/WordCounter.java:78-85 | no lines, or lines of delimiters only, give the empty map |
| Parallel.ParallelCount | src/WordCounter.java:59-74 | under every valid schedule the shared map holds each word's number of occurrences, all counts positive |
| Parallel.ValidScheduleCounts | src/WordCounter.java:62-69 | a schedule the workers can follow names each line exactly once per token of that line |
| Parallel.CountsMatchValid | src/WordCounter.java:62-69 | conversely, every schedule that names each line once per token can be followed to the end |
| Parallel.InterleavePermutes | src/WordCounter.java:62-69 | every interleaving delivers exactly the multiset of tokens of all lines |
| Parallel.ParallelMatchesSequential | src/WordCounter.java:59-90 | the parallel reader returns the same map as the single-threaded reader, whatever the interleaving |
| Parallel.SingleWorkerRun | src/WordCounter.java:62-69 | with a single worker the increments happen in the single-threaded reader's order, so every input has a valid schedule |
| Decimal.NatToString | src/WordCounter.java:105 | a count is rendered as digits without a leading zero |
| Decimal.DecimalRoundTrip | src/WordCounter.java:105 | reading the rendered digits back gives the count |
| Decimal.CanonicalRoundTrip | src/WordCounter.java:105 | every numeral without a leading zero is the rendering of its value |
| Selector.EntriesOf | src/WordCounter.java:118 | iterating the entry set yields every key of the map once, with its count |
| Selector.SortByCount | src/WordCounter.java:118 | the sort yields a permutation of its input in non-increasing count order |
| Selector.SortedMap | src/WordCounter.java:117-121 | the sorted map holds exactly the input's key/count pairs, no word lost or repeated, in non-increasing count order |
| Selector.PermutationKeepsListing | src/WordCounter.java:119-120 | reordering the entries keeps them one entry per key, so collecting into the linked map never merges |
| Selector.ListingsArePermutations | src/WordCounter.java:118 | any two iteration orders of one map hold the same entries |
| Selector.TopEntries | src/WordCounter.java:104-105 | `limit(i)` keeps `min(i, size)` entries of the map, no word twice, by descending count, and no word left out has a higher count than any word kept |
| Selector.TopCoversMap | src/WordCounter.java:104-105 | a limit of at least the map's size keeps every entry exactly once |
| Selector.SortedCountsAgree | src/WordCounter.java:118 | two descending orders of the same entries have the same count at every position |
| Selector.TopCountsDeterministic | src/WordCounter.java:104-105 | the counts printed at each position do not depend on the map's iteration order |
| Selector.DistinctCountsDetermineTop | src/WordCounter.java:104-105 | when no two words share a count, the entries printed do not depend on the map's iteration order |
| Selector.RenderParse | src/WordCounter.java:105 | a rendered `word (count)` line reads back as the same word and count, whatever the word |
| Selector.ParseRender | src/WordCounter.java:105 | every line that reads back as an entry is that entry's rendering |
| Selector.RenderAllParses | src/WordCounter.java:105-106 | the collected list of rendered lines reads back as the selected entries, in order |
| Selector.MapTopValues | src/WordCounter.java:103-107 | `getMapTopValues(map, i)` fails exactly for negative `i`; otherwise it returns `min(i, size)` lines that read back as the top entries, in order |
| WordCounter.ReadWords | src/WordCounter.java:59-90 | the supplier returns the occurrence counts of the lines read, or the empty map when the file cannot be read |
| WordCounter.ReadersAgree | src/WordCounter.java:59-90 | both readers return the same map |
| WordCounter.Execute | src/WordCounter.java:31-55 | the parallel reader is chosen exactly when the first argument is `parallel`; a read failure prints only the error line; otherwise `min(10, distinct words)` lines are printed, and they read back as a top selection of the word counts |
| WordCounter.BlankInputPrintsNothing | src/WordCounter.java:78-82 | no lines, or lines of delimiters only, give an empty map and an empty top list |

## Left out

- File reading, the path `tempest.txt` and the `IOException` handler are left out. The file's contents, or its failure to read, are a parameter.
- `System.out.println` is left out. The printed lines are returned as a sequence.
- The elapsed-time line `Executed in N milliseconds` is left out. It depends on the clock.
- `parallelStream`, `synchronized` and threads are left out. The shared map is modelled by its sequence of increments: one `put` per critical section, in the order a schedule gives.
- The `volatile` map of the parallel reader is not carried over between calls. `main` calls the supplier once, so the map starts empty. On a read failure it is returned empty.
- Tokenizer.Pieces: keeps the trailing empty pieces that `String.split` drops (`"a,"` gives `["a", ""]` here, `["a"]` in Java); the empty-word filter removes them anyway, so the tokens are the same.
- Tokenizer.Lower: models ASCII lower-casing only. `String.toLowerCase` follows the default locale and Unicode case mappings, some of which change a string's length.
- Counter.Increment: counts are unbounded naturals. Java's `Integer` would wrap past 2^31 - 1 occurrences of one word.
- Selector.SortedMap: does not state the tie order. The source's sort is stable, so ties keep the hash map's iteration order, and that order is unspecified.
- Selector.MapTopValues: the negative limit, where `Stream.limit` throws `IllegalArgumentException`, is a result value. The program only ever passes 10.
