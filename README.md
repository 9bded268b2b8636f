# Eye-tracking experiment: list generator, stimulus reader, fixation poller and break counter

This Dafny project models the logic of a reading experiment with an eye
tracker and proves what that logic guarantees. There are three parts.

- **List generator** (`generate_lists.py`). It reads `sentence\tversion\ttext`
  lines and splits them into fillers (sentence id reads as 0) and
  experimental items. It counts the sentences and the versions, then builds a
  latin square (`latin_square`, the Williams construction). It builds one
  experimental list per row of the square: for sentence `j` that list takes
  the first item whose version is the row's entry in column `(j - 1) mod n`.
  Each list is written with the fillers inserted according to one shuffled
  sequence of filler/item slots.
  - Proved: the square has the shifted-column form, every row and every column
    is a permutation of `1..n`, and the square is balanced when `n` is even.
  - For odd `n` the square is not balanced, and a lemma gives a
    counterexample for `n = 3`. The docstring's "balanced" therefore holds
    only for even orders.
  - Proved: the partition accounts for every non-blank line, the lists are
    counterbalanced (each version of a sentence appears in exactly one list),
    and line k of every written file is the written form of the k-th slot's
    record, with the item slots carrying the list in order and the filler
    slots the fillers in order. Reading a file back with the stimulus reader
    gives those records again when no field holds a tab or a newline.
- **Stimulus reader** (`extract_stimuli_from_txt`). The two experiment scripts
  contain identical copies of it. It turns each line into a record.
  - Proved: what it reads, the error on a line with fewer than three fields,
    and the two round trips with the writer.
- **Fixation poller and break counter** (`fixation_routine` in both scripts,
  and the trial loop of the two-region script).
  - The poller is modelled over a finite trace of `(x, y, t)` samples. It
    stops at the first sample that has been inside the region(s) without
    interruption since the start of its run, is not the first sample of that
    run, and is more than the dwell time later than that start.
  - The two-region variant reports region 1 exactly when the stopping sample
    lies in region 1. The cross fixation calls it with the same region twice
    and stops where the single-region routine stops.
  - The break counter is a state machine over the sequence of dot outcomes.
    Proved: it stays in range, region 2 forces a break, a break comes at
    regular intervals when every dot is fixated in region 1, and there is a
    break before at least one of any `N + 1` consecutive trials.

Python's string built-ins used here are written out in module `Text` with
Python's semantics:

- `str.split` with one separator;
- `str.strip` with a set of characters;
- `int()` of a string, on ASCII input;
- `str()` of a non-negative integer.

Modules:

- `Text`, `Remainders`: helpers.
- `Stimuli`: the reader and the line format.
- `LatinSquares`: `latin_square`.
- `GenerateLists`: the generator.
- `Fixation`: the dwell-time definitions.
- `EyetrackerExperiment`: the single-region routine.
- `EyetrackingExperiment`: the two-region routine, the cross fixation and
  the break counter.

## Model

| member | source | states |
|---|---|---|
| Text.SplitMeaning | generate_lists.py:61 | `split('\t')` yields one more piece than there are tabs; no piece holds a tab; joining the pieces with tabs gives the string back |
| Text.SplitOfJoin | generate_lists.py:100 | splitting tab-joined fields that hold no tab gives the fields back |
| Text.TrimStart | generate_lists.py:59 | `lstrip` removes a prefix made only of the given characters and stops at the first other character |
| Text.TrimEnd | generate_lists.py:59 | `rstrip` removes a suffix made only of the given characters and stops at the last other character |
| Text.NatToString | generate_lists.py:81 | `str(j)` is a nonempty digit string with no leading zero except for 0 itself |
| Text.ParseIntOfNatToString | generate_lists.py:62 | `int(str(n)) == n` |
| Text.NatToStringInjective | generate_lists.py:81 | different numbers have different `str` forms, so looking up `str(v)` tells versions apart |
| Stimuli.ParseLineMeaning | eyetracker_experiment.py:35-36 | a line fails exactly when its newline-stripped form has fewer than two tabs; otherwise the record's three fields hold no tab, and joined by tabs they are the stripped line up to its end or up to a further tab |
| Stimuli.ExtractStimuli | eyetracking_experiment.py:33-39 | succeeds exactly when every line has at least three fields, with one record per line in file order; otherwise it reports the first line with too few fields, and every line before it parses |
| Stimuli.ParseOfFormat | generate_lists.py:100 | reading a line written from a record without tabs or newlines in its fields gives the record back |
| Stimuli.FormatOfParse | eyetracking_experiment.py:36-37 | writing the record read from a line of exactly three fields and one final newline gives the line back |
| LatinSquares.LatinSquare | generate_lists.py:28-36 | the square is n by n, and entry [i][c] is `1 + (i - shift(c)) mod n` with shift 0, -1, +1, -2, +2, ... |
| LatinSquares.ShiftIndex | generate_lists.py:31-32 | every integer is the shift of some column index |
| LatinSquares.ShiftInjective | generate_lists.py:31-32 | different columns have different shifts |
| LatinSquares.ColumnZero | generate_lists.py:29 | column 0 is 1..n |
| LatinSquares.ColumnIsPermutation | generate_lists.py:34-35 | every column is a permutation of 1..n |
| LatinSquares.RowIsPermutation | generate_lists.py:31-35 | every row is a permutation of 1..n |
| LatinSquares.RowOfValue | generate_lists.py:34-35 | every value 1..n occurs in a given column, at a row the lemma returns |
| LatinSquares.NextEntry | generate_lists.py:31-35 | one column to the right, every symbol moves by the same step modulo n |
| LatinSquares.StepsDistinct | generate_lists.py:31-32 | for even n, the n - 1 column steps are different modulo n |
| LatinSquares.BalancedForEvenOrder | generate_lists.py:16 | for even n, every ordered pair of distinct symbols stands side by side in exactly one place of the square |
| LatinSquares.AdjacentPlaceUnique | generate_lists.py:31-35 | for even n, two places holding the same adjacent pair are the same place |
| LatinSquares.NotBalancedForOrderThree | generate_lists.py:16 | for n = 3 the pair (1, 2) stands side by side twice, so the square is not balanced for odd orders |
| GenerateLists.ClassifyLine | generate_lists.py:61-67 | a non-blank line is refused when `int()` of its first field fails (checked first) or its third field is missing; otherwise it gives the record read from the line, marked as a filler exactly when the sentence reads as 0 |
| GenerateLists.ClassifyAllSucceeds | generate_lists.py:58-67 | the input is accepted exactly when no line other than a bare newline is refused |
| GenerateLists.ClassifyAllRecords | generate_lists.py:59-60 | an accepted input gives one record per non-blank line, in input order |
| GenerateLists.ClassifyAllFirstError | generate_lists.py:60-63 | a refused input reports the first refused non-blank line and the reason it was refused |
| GenerateLists.RecordsPartitioned | generate_lists.py:62-67 | fillers and experimental items together are all the records, in number and as a multiset |
| GenerateLists.FillersReadAsZero | generate_lists.py:62-67 | every filler's sentence reads as 0, and every experimental item's sentence reads as a nonzero integer |
| GenerateLists.Partition | generate_lists.py:56-67 | the loop builds exactly the filler and item lists of the classification, or stops with its first error |
| GenerateLists.AmountSentences | generate_lists.py:70 | the number of distinct sentence ids: at most the number of items, and 0 only with no items |
| GenerateLists.AmountVersions | generate_lists.py:71 | the number of items (not distinct versions) whose sentence is "1": at most the number of items, and 0 only if none has sentence "1" |
| GenerateLists.FirstMatch | generate_lists.py:81 | the first index whose record has the given sentence and version, or none exactly when no record has them |
| GenerateLists.NextPosition | generate_lists.py:83-85 | the wrapping counter equals the position modulo n |
| GenerateLists.BuildExperimentalLists | generate_lists.py:74-86 | with no versions it fails; otherwise it succeeds exactly when every lookup succeeds, and list i then holds, for each sentence j, the first record with sentence `str(j)` and the version at row i, column (j - 1) mod n; a failed lookup reports that sentence and version |
| GenerateLists.Counterbalanced | generate_lists.py:76-86 | for each sentence, every list shows that sentence, and different lists show different versions of it |
| GenerateLists.ListShowing | generate_lists.py:76-86 | every version 1..n of a sentence is shown by some list |
| GenerateLists.BaseSlots | generate_lists.py:89 | the unshuffled order holds one filler slot per filler and one item slot per sentence |
| GenerateLists.InterleavedSelect | generate_lists.py:96-106 | the records the file's slots receive are, at item slots, the list's items in order, and at filler slots the fillers in input order |
| GenerateLists.ReadBack | generate_lists.py:93-107 | when no record field holds a tab or a newline, every line of a written file parses, the records read are the slots' records, and those at item slots are the list in order and those at filler slots the fillers in order |
| GenerateLists.WriteLists | generate_lists.py:93-107 | every file has one line per slot, and line k is the written form of the record the slot order puts there; the counters restart for every list, so all files share one slot order |
| GenerateLists.SaveListsAccordingToLatinSquare | generate_lists.py:38-108 | the first refused line stops the generator; otherwise it succeeds with one file per version exactly when the versions exist and every lookup succeeds, and every file has `fillers + sentences` lines, with list i interleaved by the one shuffled slot order |
| Fixation.UnionOfSameRegion | eyetracking_experiment.py:346 | two equal regions accept exactly the samples that single region accepts |
| Fixation.RunStart | eyetracker_experiment.py:213-221 | the start of the run holding a sample: no later than it, every sample in between is in the region, and the sample before it is not |
| Fixation.RunStartUnique | eyetracker_experiment.py:213-221 | the run start is the only sample with those properties |
| Fixation.SameRun | eyetracking_experiment.py:266-271 | samples of one unbroken run share a start, so moving from region 1 to region 2 within the union does not restart the timer |
| Fixation.FirstOfRunNeverSucceeds | eyetracker_experiment.py:218-221 | the first in-region sample after a reset only records the start time and never succeeds |
| Fixation.OutsideSampleResets | eyetracker_experiment.py:214-216 | a sample outside the region discards the run: a later success is timed from a start after it |
| Fixation.LongRunSucceeds | eyetracker_experiment.py:222-226 | a sample that has stayed in the region since its run's start and is more than the dwell time later passes the test |
| Fixation.FirstSuccessUnique | eyetracker_experiment.py:207-227 | there is at most one stopping sample |
| EyetrackerExperiment.FixationRoutine | eyetracker_experiment.py:180-227 | returns only after success, at the first sample passing the dwell test on the single region, with membership inclusive on both axes; it returns none exactly when no sample of the trace passes it |
| EyetrackingExperiment.FixationRoutine | eyetracking_experiment.py:224-286 | returns only after success, at the first sample passing the dwell test on the union of both regions, each with membership inclusive on both axes; reports region 1 exactly when that sample lies in region 1 and region 2 otherwise; returns none exactly when no sample passes |
| EyetrackingExperiment.FixatedInRegion | eyetracking_experiment.py:282-285 | a fixation reported in region 2 lies in region 2 and not in region 1, so region 1 wins when both contain the sample |
| EyetrackingExperiment.CrossFixation | eyetracking_experiment.py:343-349 | the two-region routine called with the cross region twice stops exactly where the single-region routine stops |
| EyetrackingExperiment.ScheduleBreaks | eyetracking_experiment.py:329-363 | a break is taken before trial k exactly when the counter then equals N, and the final counter is the one the outcomes lead to |
| EyetrackingExperiment.CounterInRange | eyetracking_experiment.py:329-363 | with N at least 1 the counter stays within 0..N |
| EyetrackingExperiment.Region1Counts | eyetracking_experiment.py:356-359 | a region 1 outcome adds one to the counter, which restarts at 0 after a break |
| EyetrackingExperiment.Region2ForcesBreak | eyetracking_experiment.py:360-363 | a region 2 outcome sets the counter to N, forcing a break before the next trial |
| EyetrackingExperiment.RegularBreaks | eyetracking_experiment.py:331-359 | when every outcome is region 1, the counter before trial k is `(k - 1) mod N + 1`, and a break comes before trial k exactly when k > 0 and N divides k |
| EyetrackingExperiment.BreakWithin | eyetracking_experiment.py:331-363 | among any N + 1 consecutive trials, at least one starts with a break |

## Left out

- Rendering and window setup are drawing calls with no logic to state:
  `monitor_and_window`, `fixation_cross`, `text_and_dot`, `text_and_dots`
  and `pause_frame`.
- `device_for_experiment` is left out. It is a try/except around device
  lookup and calibration, which are calls into ioHub.
- Logged messages and shutdown are I/O and are left out:
  `io.sendMessageEvent`, `io.quit`, `core.quit`, `win.close`.
- Removing the old output file with `os.remove` is I/O and is left out.
- Calibration after a break (`runSetupProcedure`) is I/O and is left out.
- Files are not read or written. The generator takes the input lines and
  returns the contents of each output file. The output file names
  `list_of_stimuli_<k>.txt` are not modelled, and neither is `counter_list`.
- `random.shuffle` is a parameter `shuffle`. The model assumes only that it
  rearranges its argument (the same multiset).
- Text.ParseInt models `int()` on ASCII text only. The Unicode whitespace
  and Unicode digits that Python also accepts are not modelled.
- In `latin_square`, NaN/float storage is not modelled. Entries are integers,
  as after the `int()` cast at generate_lists.py:78.
- LatinSquares.LatinSquare requires n >= 1, because numpy already fails at
  generate_lists.py:29 when n = 0. The generator reports that case as
  `NoVersions`.
- A failing `int()`, a missing field or an empty lookup raises an exception
  in Python. The model returns a `Failure` naming the line or the missing
  sentence and version.
- Fixation routines: the position and the clock are one sample per loop
  iteration. The source reads the position twice in each test (once per
  coordinate) and reads it once more after the loop for the region test. The
  model uses the stopping sample for all of these, so it does not capture
  the gaze moving between those reads.
- Fixation routines: coordinates and times are reals, not floating point.
  They are taken as inputs, so the float arithmetic that computes the
  rectangles in `main` is left out.
- Fixation routines: the source polls forever when the gaze never settles.
  The model runs over a finite trace and returns `None`, meaning "not yet".
- The trial loop is modelled only through its break counter, as
  EyetrackingExperiment.ScheduleBreaks over the sequence of dot outcomes. The
  repeat-until-success loops around the two fixations are not modelled as
  loops: the routine never returns without success, so each of them runs
  once.
- EyetrackingExperiment.CounterInRange holds for N >= 1 only; the source
  uses N = 5. For N = 0 the counter is never reset, so it grows without
  bound: after k region 1 outcomes in a row it is k.
- GenerateLists.ReadBack requires that no field of a record holds a tab or a
  newline. The model takes the input lines as arbitrary strings, and a field
  read from them is tab-free but may hold an inner newline, which
  `readlines` never produces.
- `check_output_content.py` is not part of this model. It only inspects the
  recorded output file.
