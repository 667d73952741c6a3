# rust_learning in Dafny

A Dafny model of the small programs in the `rust_learning` repository, with
proofs of what each one does.

- **minigrep**: `search` keeps the lines of a text that contain a query, and
  so does `search_case_insensitive` (see below). `Config::new` checks the
  command line. `run` chooses between the two searches. `Minigrep.Lines`
  models `str::lines`, which `search` relies on: it splits at `\n`, removes
  one `\r` before it, and gives no empty last line after a final `\n`.
- **convert_latin**: `convert_enlish` turns a word into Pig Latin using a
  consonant table and a vowel table.
- **vectors**: the mode of a list of `i32` is computed through a counting
  hash map. The median sorts the vector in place and reads its middle.
- **server**:
  - The thread pool (`ThreadPool::new`, `execute`, `drop`, and the loop each
    worker thread runs) is a sequential abstraction. The channel is a FIFO
    queue, each thread slot is taken once, and a log records sends, jobs
    run, loop exits and joins, in order.
  - `handle_connection` is split into a routing decision on the bytes read
    and the framing of the response.
- **lifetimes**: `longest_with_an_announcement` returns the longer of two
  strings by UTF-8 byte length. A tie goes to the second string.
- **dice_game**: the guessing loop of `main` runs over a list of input lines
  for a target between 1 and 5.

The module `Text` models the standard-library behaviour these programs rely
on:
- `str::len` as a UTF-8 byte count;
- decimal formatting of integers;
- `str::trim`, using Unicode White_Space;
- `str::parse::<u32>`, which takes an optional `+`, at least one digit, and
  a value below 2^32.

The code and its comments disagree in one place, and the model follows the
code. The comment above `search_case_insensitive`
(minigrep/src/lib.rs:58-60) and its test (minigrep/src/lib.rs:26-39) describe
case-insensitive matching. The function, however, applies the same
case-sensitive `contains` filter as `search` (minigrep/src/lib.rs:65-70).
- `Minigrep.SearchCaseInsensitiveIsSearch` proves the two functions equal.
- `Minigrep.CaseInsensitiveExampleFindsNothing` proves that on the test's own
  text and query (`"rUsT"`) the function returns no line, where the test
  expects two.

## Model

| member | source | states |
|---|---|---|
| Minigrep.IndexOfNewline | minigrep/src/lib.rs:53 | gives the position of the first `\n` at or after a start position, or the length when there is none; no `\n` lies between the start and that position |
| Minigrep.StripCR | minigrep/src/lib.rs:53 | a line loses exactly one trailing `\r` when it ends with one, and is kept unchanged otherwise |
| Minigrep.LinesHaveNoNewline | minigrep/src/lib.rs:53 | no line produced by `lines` contains `\n` |
| Minigrep.LinesRoundTrip | minigrep/src/lib.rs:53 | for text without `\r`, joining the lines with `\n` gives the text back, apart from one optional final `\n` |
| Minigrep.LinesSplit | minigrep/src/lib.rs:53 | the text before the first `\n` becomes the first line, with one trailing `\r` removed, and the rest is split the same way |
| Minigrep.LinesOfUnlines | minigrep/src/lib.rs:53 | lines without `\n`, the last one non-empty, joined with `\n`, split back into the same lines, each losing one trailing `\r` |
| Minigrep.PlainLinesRoundTrip | minigrep/src/lib.rs:53 | lines with no `\n` and no trailing `\r`, the last one non-empty, come back unchanged from a join and a split |
| Minigrep.Filter | minigrep/src/lib.rs:54-55 | every kept line is a line of the input and contains the query; the result is no longer than the input |
| Minigrep.FilterCounts | minigrep/src/lib.rs:54-55 | every line that contains the query is kept as often as it occurs; every other line is dropped |
| Minigrep.FilterConcat | minigrep/src/lib.rs:54-55 | filtering keeps the original order: filtering `a + b` gives the filtered `a` followed by the filtered `b` |
| Minigrep.SearchSpec | minigrep/src/lib.rs:48-56 | `search` returns exactly the lines of the contents that contain the query, each as often as it occurs, and at most one result per line |
| Minigrep.SearchCaseInsensitiveIsSearch | minigrep/src/lib.rs:65-70 | `search_case_insensitive` returns the same result as `search` for every query and every text |
| Minigrep.CaseSensitiveExample | minigrep/src/lib.rs:14-24 | on the test's four-line text, the query `duct` finds only "safe, fast, productive." and not "Duct tape." |
| Minigrep.CaseInsensitiveExampleFindsNothing | minigrep/src/lib.rs:26-39 | on the test's text, the query `rUsT` passed to `search_case_insensitive` finds no line |
| Minigrep.ContainsEmpty | minigrep/src/lib.rs:54 | every line contains the empty query |
| Minigrep.MissingCharNotContained | minigrep/src/lib.rs:54 | a line that lacks one of the query's characters does not contain the query |
| Minigrep.NewConfig | minigrep/src/lib.rs:104-135 | gives the error for each argument count: no query when only the program name (or nothing) is given; no file name with one argument; not enough with fewer than three further arguments; too many with more than three. Only six arguments succeed, with query and file name taken from positions 1 and 2, and `case_sensitive` true exactly when `CASE_INSENSITIVE` is not set |
| Minigrep.NewConfigAcceptsOnlySix | minigrep/src/lib.rs:117-122 | `Config::new` succeeds if and only if it gets exactly six arguments; the environment variable never changes which error is returned |
| Minigrep.Run | minigrep/src/lib.rs:75-90 | a file-read error is passed on; otherwise `run` prints the result of `search` when `case_sensitive` is set and the result of `search_case_insensitive` when it is not |
| Minigrep.RunPrintsMatchingLines | minigrep/src/lib.rs:79-87 | whatever the environment variable, `run` prints exactly the lines of the file that contain the query |
| PigLatin.ToAsciiLowercase | convert_latin/src/main.rs:26 | maps `A`..`Z` to `a`..`z` and leaves every other character unchanged |
| PigLatin.TablesPartitionLowercase | convert_latin/src/main.rs:3-8 | `CONSONANTS` and `VOWELS` have no letter in common and no repeats, and together hold exactly the 26 lowercase ASCII letters |
| PigLatin.Convert | convert_latin/src/main.rs:19-37 | the empty word gives the empty word. A consonant-initial word gives the rest of the word, then `-`, the original first character and `ay`. A vowel-initial word gets `-hay` appended. Any other word is returned unchanged |
| PigLatin.ConvertChangesExactlyLetterWords | convert_latin/src/main.rs:26-35 | a word is changed if and only if it starts with an ASCII letter of either case |
| PigLatin.ConvertLength | convert_latin/src/main.rs:26-34 | the length grows by 3 for a consonant word and by 4 for a vowel word; any other word keeps its length |
| PigLatin.ConsonantWordRoundTrip | convert_latin/src/main.rs:26-30 | a consonant word can be read back from its Pig Latin form |
| PigLatin.ConvertExamples | convert_latin/src/main.rs:13-16 | "Michael" becomes "ichael-May" and "Hodge" becomes "odge-Hay" |
| Statistics.ModeExists | vectors/src/main.rs:47-52 | every non-empty list has a value that occurs at least as often as any other |
| Statistics.CountOccurrences | vectors/src/main.rs:42-45 | the map's keys are exactly the numbers in the list, and each maps to its number of occurrences |
| Statistics.MaxCount | vectors/src/main.rs:47 | gives the largest count, reached by some key, or 0 for an empty map |
| Statistics.KeysWithCount | vectors/src/main.rs:49-52 | collects exactly the keys whose count equals the maximum, each once |
| Statistics.CalculateMode | vectors/src/main.rs:29-57 | returns exactly the values that occur at least as often as any other value, each once; the result is empty if and only if the input is |
| Statistics.InsertInto | vectors/src/main.rs:64 | one insertion step extends the sorted prefix by one element, keeps the same elements, and leaves the rest of the array alone |
| Statistics.SortInPlace | vectors/src/main.rs:64 | the vector ends up sorted and holds the same elements as before |
| Statistics.TruncHalf | vectors/src/main.rs:21-27 | gives half of an exactly representable sum, rounded toward zero as the cast `as i32` does |
| Statistics.CalculateMedian | vectors/src/main.rs:61-80 | leaves the vector a sorted permutation of its contents and returns the middle element for an odd length; for an even length whose two middle elements sum to at most 2^24 in magnitude (where the `f32` path is exact) it returns their mean, truncated toward zero |
| Statistics.SortedPermutationUnique | vectors/src/main.rs:64 | two sorted lists with the same elements are equal, so the sorted vector does not depend on how it was sorted |
| Statistics.MedianOrderIndependent | vectors/src/main.rs:61-80 | the median depends only on which numbers the vector holds, not on their order |
| Statistics.OddMedianSplits | vectors/src/main.rs:77-78 | for an odd length, the median is an element of the vector with the lower half at or below it and the upper half at or above it |
| Statistics.EvenMedianBetween | vectors/src/main.rs:74-75 | for an even length, the median lies between the two middle elements |
| Server.HandledAt | server/src/lib.rs:111-124 | a worker receiving a list of messages produces one event per message, in order: a run for each job, an exit for `Terminate` |
| Server.FirstTerminate | server/src/lib.rs:111-124 | gives the position of the first `Terminate`, with only jobs before it, or the length when there is none |
| Server.JoinsAt | server/src/lib.rs:82-92 | the log of the second loop of `drop` shows each worker, in id order, leaving its loop and then being joined |
| Server.JoinsEachOnce | server/src/lib.rs:85-91 | in that log, each worker is joined exactly once, right after it left its loop, and only workers of the pool are joined |
| Server.DropLogOrder | server/src/lib.rs:75-92 | `drop` first sends exactly one `Terminate` per worker, and nothing after those sends is a send, so all `Terminate` messages go out before any join |
| Server.ThreadPool.constructor | server/src/lib.rs:29-48 | creates exactly `size` workers with ids 0 to `size - 1` in order, each holding its own running thread, with an empty channel |
| Server.ThreadPool.Execute | server/src/lib.rs:50-59 | appends exactly one `NewJob` to the back of the channel and leaves earlier messages unchanged; every job sent stays either run or queued exactly once |
| Server.ThreadPool.WorkerStep | server/src/lib.rs:111-124 | a worker takes the oldest message. On a job it runs the job and keeps looping; on `Terminate` it leaves its loop for good. An empty channel blocks it, and a worker that has left its loop does nothing |
| Server.ThreadPool.Join | server/src/lib.rs:90 | joining a worker drains messages up to and including the first `Terminate`, running the jobs before it; the wait ends because a `Terminate` is queued |
| Server.ThreadPool.SendTerminates | server/src/lib.rs:77-79 | queues one `Terminate` per worker behind the pending messages |
| Server.ThreadPool.ShutDown | server/src/lib.rs:82-92 | takes the thread out of a worker's slot and leaves `None`; the taken thread is joined, and an empty slot is skipped |
| Server.ThreadPool.ShutDownRest | server/src/lib.rs:82-92 | shuts down the remaining workers in order, each of which receives one `Terminate` straight away |
| Server.ThreadPool.StopAll | server/src/lib.rs:75-93 | afterwards every slot is empty, every worker has left its loop, and the channel is empty. The log shows the `Terminate` sends, then worker 0 running the jobs still queued, then each worker in turn leaving its loop and being joined |
| Server.ThreadPool.Drop | server/src/lib.rs:75-93 | leaves the state `StopAll` describes, and every job ever sent through `execute` has been run exactly once, with no job lost and none run twice; the jobs run during `drop` are exactly those still queued when it began |
| Server.HandledRunsQueuedJobs | server/src/lib.rs:111-124 | a worker receiving a list of messages runs exactly the jobs among them, in order, and sends nothing |
| Server.ShutDownCarriesNoJobs | server/src/lib.rs:75-92 | the sends and joins of `drop` neither send nor run a job, and its `Terminate` messages carry none |
| Server.AccountSend | server/src/lib.rs:57-58 | sending a message through the channel keeps every sent job either run or queued exactly once |
| Server.AccountReceive | server/src/lib.rs:111-124 | a worker receiving the oldest message keeps every sent job either run or queued exactly once: the job moves from the channel to the jobs run |
| Server.AccountHandled | server/src/lib.rs:111-124 | a worker receiving any number of messages in turn keeps that account |
| Server.AccountOther | server/src/lib.rs:119-123 | leaving the loop or being joined changes neither the jobs sent nor the jobs run |
| Server.AccountJoin | server/src/lib.rs:89-91 | the log and channel that joining a worker leaves keep the account |
| Server.AccountSends | server/src/lib.rs:77-79 | sending one `Terminate` per worker keeps the account |
| Server.DropRunsQueuedJobs | server/src/lib.rs:75-92 | the log `drop` adds sends no job and runs exactly the jobs that were queued |
| Server.DropAccount | server/src/lib.rs:62-63 | after `drop`, from a pool whose account was kept, every job sent has been run exactly once, and the jobs run during `drop` are those that were queued |
| Http.ReadBuffer | server/src/bin/main.rs:44-47 | the buffer holds the bytes received, followed by zeros up to 1024 bytes |
| Http.RouteDependsOnRequestLineOnly | server/src/bin/main.rs:51-62 | the routing decision depends only on the first 16 bytes of the buffer |
| Http.RouteAfterRead | server/src/bin/main.rs:44-62 | a request is answered `200 OK` with `hello.html` exactly when the bytes received begin with `GET / HTTP/1.1\r\n`; otherwise the answer is `404 NOT FOUND` with `404.html` |
| Http.ShortReadIsNotFound | server/src/bin/main.rs:44-62 | a read shorter than the request line always gets the 404 page |
| Http.ResponseRoundTrip | server/src/bin/main.rs:70-75 | the response reads back as its status line, a `Content-Length` equal to the body's UTF-8 byte length, and the body |
| Http.HandleConnectionAnswers | server/src/bin/main.rs:41-75 | a request for the root gets `200 OK` with the contents of `hello.html`; any other request gets `404 NOT FOUND` with `404.html`; each answer carries a matching `Content-Length` |
| Lifetimes.LongestWithAnAnnouncement | lifetimes/src/main.rs:25-39 | returns `x` or `y`. The result is at least as long as both in bytes. `x` is returned when it is strictly longer, `y` on a tie |
| Lifetimes.AnnouncementIsIgnored | lifetimes/src/main.rs:28-33 | the announcement never changes the result |
| Lifetimes.LongestSymmetricUnlessTie | lifetimes/src/main.rs:34-38 | swapping the arguments changes the result only on a tie, where the new second argument wins |
| Lifetimes.BytesNotCharacters | lifetimes/src/main.rs:34 | lengths are compared in bytes: "éé" beats "abc" even though it has fewer characters |
| Lifetimes.LongestExample | lifetimes/src/main.rs:2-10 | "abcd" against "xyz" gives "abcd" |
| DiceGame.Verdict | dice_game/src/main.rs:27-34 | a guess below the target prints "Too small!", one above prints "Too big!", and an equal guess prints "You win!" |
| DiceGame.Round | dice_game/src/main.rs:12-34 | each pass prints the prompt; an unparsable line prints nothing more, and a parsed guess `n` adds exactly two lines: "You rolled a: n" and its verdict |
| DiceGame.PlayRound | dice_game/src/main.rs:14-34 | one pass of the loop prints what `Round` describes and stops exactly on a winning guess |
| DiceGame.FirstWinFromFound | dice_game/src/main.rs:30-33 | the line where the game stops is a winning line, and no earlier line wins |
| DiceGame.FirstWinFromNone | dice_game/src/main.rs:30-33 | when the game does not stop, no line wins |
| DiceGame.Play | dice_game/src/main.rs:6-36 | prints the banner, then one round per line read. Reading stops right after the first line that guesses the target, so no later line is read; with no winning line, every line is read. A won game's output ends with "You win!" and holds it exactly once; an unwon game's output never holds it |
| DiceGame.FirstTrueIs | dice_game/src/main.rs:30-33 | the first winning line from a position on is the one the search for the first win finds, the converse of `FirstTrueFound` |
| DiceGame.FirstWinOfPrefix | dice_game/src/main.rs:30-33 | the first winning line of the input is also the first winning line, and the last line, of the input read up to it |
| DiceGame.PlayAnnouncement | dice_game/src/main.rs:30-33 | stopping after the first winning line leaves an output that ends with the only "You win!"; reading every line without a win leaves an output without it |
| DiceGame.TranscriptStep | dice_game/src/main.rs:11-35 | reading one more line appends exactly that line's round to the output |
| DiceGame.WinDiffersFromOtherLines | dice_game/src/main.rs:12-31 | "You win!" differs from every other line the loop prints |
| DiceGame.RoundWinCount | dice_game/src/main.rs:27-34 | a round prints "You win!" exactly once when its line guesses the target, and never otherwise |
| DiceGame.NoWinWithoutWinningLine | dice_game/src/main.rs:20-34 | as long as no line has guessed the target, "You win!" is never printed |
| DiceGame.WinAnnouncedOnceAtEnd | dice_game/src/main.rs:30-33 | a won game's output ends with "You win!" and contains it exactly once |
| DiceGame.TypedNumberIsRead | dice_game/src/main.rs:16-20 | a number typed and followed by Enter is read as that number |
| Text.Utf8Width | lifetimes/src/main.rs:34 | a character takes 1 UTF-8 byte below U+0080, 2 below U+0800, 3 below U+10000 and 4 above |
| Text.Utf8LenBounds | lifetimes/src/main.rs:34 | the byte length of a string is between its character count and four times that, and equals the character count exactly for ASCII text |
| Text.Utf8LenConcat | server/src/bin/main.rs:73 | the byte length of a concatenation is the sum of the byte lengths |
| Text.NatToString | dice_game/src/main.rs:25 | a number is printed as a non-empty run of ASCII digits with no leading zero |
| Text.DigitsRoundTrip | dice_game/src/main.rs:20-25 | reading the printed digits of a number gives the number back |
| Text.LeadingWhitespaceSpec | dice_game/src/main.rs:20 | `trim` removes exactly the leading run of whitespace |
| Text.TrailingWhitespaceSpec | dice_game/src/main.rs:20 | `trim` removes exactly the trailing run of whitespace |
| Text.TrimSpec | dice_game/src/main.rs:20 | the trimmed text is a contiguous part of the line with only whitespace removed around it, and it neither starts nor ends with whitespace |
| Text.ParseU32 | dice_game/src/main.rs:20 | a parsed value always fits in a `u32` |
| Text.ParseU32RoundTrip | dice_game/src/main.rs:20 | the decimal form of any `u32`, with or without a leading `+`, parses back to that value |
| Text.ParseU32RejectsMinus | dice_game/src/main.rs:20 | text that starts with `-` never parses as a `u32` |
| Text.ParseU32Sound | dice_game/src/main.rs:20 | text that parses is an optional `+` followed by a non-empty run of ASCII digits, and the result is the value of those digits; any other text is rejected |
| Text.ParseU32Digits | dice_game/src/main.rs:20 | a non-empty run of digits, with or without a leading `+`, parses to its value when it is below 2^32 and is rejected otherwise |

## Left out

- Input and output are parameters and results. This covers:
  - printing;
  - `read_line` on standard input;
  - `fs::read_to_string`;
  - `env::args` and `env::var`;
  - binding and accepting on the TCP listener;
  - stream `read`, `write` and `flush`.
- The `unwrap`/`expect` panics on those I/O failures are not modelled.
- The environment variable is a boolean: whether `env::var("CASE_INSENSITIVE")` succeeds. A variable set to text that is not Unicode makes `env::var` fail, so it counts as unset.
- `Minigrep.Lines` models `str::lines` as it behaves when a bare `\r` ends the last line: that `\r` is removed too. Newer Rust releases keep it. For text that ends in `\n` or holds no `\r`, the two behaviours agree.
- minigrep/src/main.rs is not part of this model; it only passes the arguments on and exits on error.
- `DiceGame.Play` stops when the input lines run out. At end of input the program instead keeps prompting forever, because `read_line` then yields an empty line that fails to parse.
- `DiceGame.Play`: a failing `read_line`, which panics through `expect`, is not modelled.
- The random draw `gen_range(1..6)` is the `target` parameter, required to be between 1 and 5.
- `Statistics.CalculateMedian` promises the even-length value only when the two middle sorted elements sum to at most 2^24 in magnitude. Within that bound the `f32` sum and its half are exact, and the cast back to `i32` truncates toward zero. Beyond it the method still returns the exact truncated half, whereas the source rounds in `f32`, and its `i32` sum overflows (a panic in a debug build) past 2^31 in magnitude; neither the rounding nor the overflow is modelled. The sort and the odd-length value are promised for every vector.
- A zero-length vector is excluded. The program's `main` refuses it before the call.
- `calculate_mean` is not modelled on its own, since its result is a float. The floating-point path in general is left out.
- `main` of vectors, with its sample vector and printing, is left out.
- `Statistics.SortInPlace` sorts by insertion, while `slice::sort` is a stable merge sort. On integers both give the same result, as `Statistics.SortedPermutationUnique` shows.
- `Statistics.KeysWithCount` returns the modes in an arbitrary order. The hash map's actual iteration order is not modelled.
- Threads, `Arc`, `Mutex`, lock poisoning and blocking are not modelled. The model is sequential:
  - While the pool waits in `join`, only the joined worker takes messages.
  - Before `drop`, any worker may take steps in any order through `WorkerStep`.
  - It does not state that jobs run in parallel.
  - It does not state the deadlock argument of server/src/lib.rs:66-73, beyond showing that each join finds its `Terminate`.
- Jobs are closures in the source and only ticket numbers here. Running a job has no modelled effect. A panicking job, and its effect on the pool, are not modelled.
- `send(..).unwrap()` and `join().unwrap()` failures are not modelled, and neither is `recv` on a closed channel.
- `Server.ThreadPool.StopAll` handles worker 0's shutdown pass before the loop over the remaining workers. The effect is the same as the source's single loop.
- The page contents in `Http.HandleConnection` are parameters, since they are read from disk.
