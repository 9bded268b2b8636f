/** The list generator `save_filename_with_lists_according_to_latin_square`:
    it splits a stimulus file into fillers and experimental items, builds one
    experimental list per version with the rows of a balanced latin square
    choosing the version of every sentence, and writes every list with the
    fillers interleaved by one shuffled order of slots. */
module GenerateLists {
  import opened Text
  import opened Stimuli
  import opened LatinSquares
  import opened Remainders

  /** Why a non-blank input line is refused: `int()` of its first field fails,
      or it has no third field. */
  datatype LineFault = BadSentenceId | MissingFields

  /** What stops the generator. */
  datatype GenError =
    | BadLine(line: nat, fault: LineFault)
    | NoVersions
    | MissingStimulus(sentence: string, version: string)

  /** A record of the input and whether it is a filler. */
  datatype Classified = Classified(filler: bool, record: Stimulus)

  /** Only a line that is exactly one newline is skipped. */
  predicate IsBlank(line: string)
  {
    line == "\n"
  }

  /** One non-blank input line: the sentence field is read as an integer before
      the third field is looked at, and the value 0 marks a filler. */
  function ClassifyLine(line: string): (r: Result<Classified, LineFault>)
    ensures r.Failure? <==> ParseInt(Fields(line)[0]).None? || ParseLine(line).None?
    ensures r.Failure? ==> (r.error == BadSentenceId <==> ParseInt(Fields(line)[0]).None?)
    ensures r.Success? ==>
      && ParseLine(line) == Some(r.value.record)
      && ParseInt(r.value.record.sentence).Some?
      && (r.value.filler <==> ParseInt(r.value.record.sentence) == Some(0))
  {
    var id := ParseInt(Fields(line)[0]);
    if id.None? then Failure(BadSentenceId)
    else match ParseLine(line)
      case None => Failure(MissingFields)
      case Some(record) => Success(Classified(id.value == 0, record))
  }

  /** The non-blank lines, in file order. */
  function NonBlank(lines: seq<string>): seq<string>
  {
    if |lines| == 0 then []
    else
      var rest := NonBlank(lines[..|lines| - 1]);
      if IsBlank(lines[|lines| - 1]) then rest else rest + [lines[|lines| - 1]]
  }

  /** The classified records of the non-blank lines, or the error at the first
      line that is refused (its index among all lines). */
  function ClassifyAll(lines: seq<string>): Result<seq<Classified>, GenError>
  {
    if |lines| == 0 then Success([])
    else
      var last := lines[|lines| - 1];
      match ClassifyAll(lines[..|lines| - 1])
      case Failure(e) => Failure(e)
      case Success(cs) =>
        if IsBlank(last) then Success(cs)
        else match ClassifyLine(last)
          case Failure(f) => Failure(BadLine(|lines| - 1, f))
          case Success(c) => Success(cs + [c])
  }

  /** Line `k` is not blank and is refused. */
  predicate Refused(lines: seq<string>, k: int)
  {
    0 <= k < |lines| && !IsBlank(lines[k]) && ClassifyLine(lines[k]).Failure?
  }

  /** The classification succeeds exactly when no non-blank line is refused. */
  lemma {:induction false} ClassifyAllSucceeds(lines: seq<string>)
    ensures ClassifyAll(lines).Success? <==> forall k :: 0 <= k < |lines| ==> !Refused(lines, k)
  {
    if |lines| > 0 {
      var init := lines[..|lines| - 1];
      var last := |lines| - 1;
      ClassifyAllSucceeds(init);
      SameRefusals(lines);
      if ClassifyAll(init).Failure? {
        assert ClassifyAll(lines).Failure?;
        var k :| 0 <= k < |init| && Refused(init, k);
        assert Refused(lines, k);
      } else if IsBlank(lines[last]) {
        assert ClassifyAll(lines) == ClassifyAll(init);
        assert !Refused(lines, last);
      } else if ClassifyLine(lines[last]).Failure? {
        assert ClassifyAll(lines).Failure?;
        assert Refused(lines, last);
      } else {
        assert ClassifyAll(lines).Success?;
        assert !Refused(lines, last);
      }
    }
  }

  /** Dropping the last line changes no other line. */
  lemma SameRefusals(lines: seq<string>)
    requires |lines| > 0
    ensures forall k :: 0 <= k < |lines| - 1 ==> (Refused(lines[..|lines| - 1], k) <==> Refused(lines, k))
  {
    forall k | 0 <= k < |lines| - 1
      ensures Refused(lines[..|lines| - 1], k) <==> Refused(lines, k)
    {
      assert lines[..|lines| - 1][k] == lines[k];
    }
  }

  /** A successful classification holds one record per non-blank line, in
      order. */
  lemma {:induction false} ClassifyAllRecords(lines: seq<string>)
    requires ClassifyAll(lines).Success?
    ensures var cs := ClassifyAll(lines).value;
      && |cs| == |NonBlank(lines)|
      && forall k :: 0 <= k < |cs| ==> ClassifyLine(NonBlank(lines)[k]) == Success(cs[k])
  {
    if |lines| > 0 {
      var init := lines[..|lines| - 1];
      ClassifyAllRecords(init);
    }
  }

  /** A failed classification names the first refused line and why it was
      refused. */
  lemma {:induction false} ClassifyAllFirstError(lines: seq<string>)
    requires ClassifyAll(lines).Failure?
    ensures var e := ClassifyAll(lines).error;
      && e.BadLine?
      && Refused(lines, e.line)
      && ClassifyLine(lines[e.line]) == Failure(e.fault)
      && forall k :: 0 <= k < e.line ==> !Refused(lines, k)
  {
    var init := lines[..|lines| - 1];
    SameRefusals(lines);
    if ClassifyAll(init).Failure? {
      ClassifyAllFirstError(init);
    } else {
      ClassifyAllSucceeds(init);
    }
  }

  /** The records of the fillers (`filler` true) or of the experimental items,
      in input order. */
  function RecordsWhere(cs: seq<Classified>, filler: bool): seq<Stimulus>
  {
    if |cs| == 0 then []
    else
      var rest := RecordsWhere(cs[..|cs| - 1], filler);
      var last := cs[|cs| - 1];
      if last.filler == filler then rest + [last.record] else rest
  }

  /** All records of `cs`. */
  function Records(cs: seq<Classified>): seq<Stimulus>
  {
    if |cs| == 0 then [] else Records(cs[..|cs| - 1]) + [cs[|cs| - 1].record]
  }

  /** Fillers and experimental items together are all the records, each record
      going to exactly one of the two lists. */
  lemma {:induction false} RecordsPartitioned(cs: seq<Classified>)
    ensures |RecordsWhere(cs, true)| + |RecordsWhere(cs, false)| == |cs|
    ensures multiset(RecordsWhere(cs, true)) + multiset(RecordsWhere(cs, false)) == multiset(Records(cs))
  {
    if |cs| > 0 {
      RecordsPartitioned(cs[..|cs| - 1]);
    }
  }

  /** Every record in the list for `filler` is the record of an entry of `cs`
      with that mark. */
  lemma {:induction false} RecordsWhereMarked(cs: seq<Classified>, filler: bool, r: Stimulus)
    requires r in RecordsWhere(cs, filler)
    ensures exists k :: 0 <= k < |cs| && cs[k] == Classified(filler, r)
  {
    var init := cs[..|cs| - 1];
    if r in RecordsWhere(init, filler) {
      RecordsWhereMarked(init, filler, r);
      var k :| 0 <= k < |init| && init[k] == Classified(filler, r);
      assert cs[k] == init[k];
    } else {
      assert cs[|cs| - 1] == Classified(filler, r);
    }
  }

  /** A successful classification sends every record whose sentence reads as 0
      to the fillers and every other record to the experimental items. */
  lemma FillersReadAsZero(lines: seq<string>, r: Stimulus)
    requires ClassifyAll(lines).Success?
    ensures r in RecordsWhere(ClassifyAll(lines).value, true) ==> ParseInt(r.sentence) == Some(0)
    ensures r in RecordsWhere(ClassifyAll(lines).value, false) ==>
      ParseInt(r.sentence).Some? && ParseInt(r.sentence) != Some(0)
  {
    var cs := ClassifyAll(lines).value;
    ClassifyAllRecords(lines);
    forall filler: bool | r in RecordsWhere(cs, filler)
      ensures ParseInt(r.sentence).Some? && (filler <==> ParseInt(r.sentence) == Some(0))
    {
      RecordsWhereMarked(cs, filler, r);
      var k :| 0 <= k < |cs| && cs[k] == Classified(filler, r);
      assert ClassifyLine(NonBlank(lines)[k]) == Success(cs[k]);
    }
  }

  /** The partition loop of the generator: the fillers and the experimental
      items, in input order, or the error at the first refused line. */
  method Partition(lines: seq<string>) returns (r: Result<(seq<Stimulus>, seq<Stimulus>), GenError>)
    ensures ClassifyAll(lines).Failure? ==> r == Failure(ClassifyAll(lines).error)
    ensures ClassifyAll(lines).Success? ==>
      r == Success((RecordsWhere(ClassifyAll(lines).value, true), RecordsWhere(ClassifyAll(lines).value, false)))
  {
    var fillers: seq<Stimulus> := [];
    var stimuli: seq<Stimulus> := [];
    ghost var classified: seq<Classified> := [];
    for i := 0 to |lines|
      invariant ClassifyAll(lines[..i]) == Success(classified)
      invariant fillers == RecordsWhere(classified, true)
      invariant stimuli == RecordsWhere(classified, false)
    {
      assert lines[..i + 1][..i] == lines[..i];
      if lines[i] != "\n" {
        var fields := Fields(lines[i]);
        var id := ParseInt(fields[0]);
        if id.None? {
          Prefixes(lines, i);
          return Failure(BadLine(i, BadSentenceId));
        }
        if |fields| < 3 {
          Prefixes(lines, i);
          return Failure(BadLine(i, MissingFields));
        }
        var record := Stimulus(fields[0], fields[1], fields[2]);
        if id.value == 0 {
          fillers := fillers + [record];
        } else {
          stimuli := stimuli + [record];
        }
        var c := Classified(id.value == 0, record);
        assert (classified + [c])[..|classified|] == classified;
        classified := classified + [c];
      }
    }
    assert lines[..|lines|] == lines;
    return Success((fillers, stimuli));
  }

  /** Once a prefix of the lines fails, the whole input fails the same way. */
  lemma {:induction false} Prefixes(lines: seq<string>, i: nat)
    requires i < |lines| && !IsBlank(lines[i]) && ClassifyLine(lines[i]).Failure?
    requires ClassifyAll(lines[..i]).Success?
    ensures ClassifyAll(lines) == Failure(BadLine(i, ClassifyLine(lines[i]).error))
  {
    assert lines[..i + 1][..i] == lines[..i];
    FailureExtends(lines, i + 1);
  }

  lemma {:induction false} FailureExtends(lines: seq<string>, j: nat)
    requires 0 < j <= |lines|
    requires ClassifyAll(lines[..j]).Failure?
    ensures ClassifyAll(lines) == ClassifyAll(lines[..j])
    decreases |lines| - j
  {
    if j < |lines| {
      assert lines[..j + 1][..j] == lines[..j];
      FailureExtends(lines, j + 1);
    } else {
      assert lines[..j] == lines;
    }
  }

  /** The distinct sentence identifiers of the experimental items. */
  function Sentences(stimuli: seq<Stimulus>): set<string>
  {
    set r | r in stimuli :: r.sentence
  }

  lemma {:induction false} SentencesAtMost(stimuli: seq<Stimulus>)
    ensures |Sentences(stimuli)| <= |stimuli|
  {
    if |stimuli| > 0 {
      var init := stimuli[..|stimuli| - 1];
      SentencesAtMost(init);
      assert stimuli == init + [stimuli[|stimuli| - 1]];
      assert Sentences(stimuli) == Sentences(init) + {stimuli[|stimuli| - 1].sentence};
    }
  }

  /** `amount_sentences`: how many different sentence identifiers the
      experimental items carry. */
  function AmountSentences(stimuli: seq<Stimulus>): (m: nat)
    ensures m <= |stimuli|
    ensures m == 0 <==> |stimuli| == 0
  {
    SentencesAtMost(stimuli);
    assert |stimuli| > 0 ==> stimuli[0].sentence in Sentences(stimuli);
    |Sentences(stimuli)|
  }

  /** How many experimental items carry the sentence identifier `sentence`. */
  function CountOfSentence(stimuli: seq<Stimulus>, sentence: string): (c: nat)
    ensures c <= |stimuli|
    ensures c == 0 <==> forall k :: 0 <= k < |stimuli| ==> stimuli[k].sentence != sentence
  {
    if |stimuli| == 0 then 0
    else
      var init := stimuli[..|stimuli| - 1];
      assert forall k :: 0 <= k < |init| ==> init[k] == stimuli[k];
      CountOfSentence(init, sentence) + (if stimuli[|stimuli| - 1].sentence == sentence then 1 else 0)
  }

  /** `amount_versions`: the number of experimental items of sentence "1" (all
      of them, not the number of distinct versions among them). */
  function AmountVersions(stimuli: seq<Stimulus>): (n: nat)
    ensures n <= |stimuli|
    ensures n == 0 <==> forall k :: 0 <= k < |stimuli| ==> stimuli[k].sentence != "1"
  {
    CountOfSentence(stimuli, "1")
  }

  predicate Matches(r: Stimulus, sentence: string, version: string)
  {
    r.sentence == sentence && r.version == version
  }

  /** The index of the first record with that sentence and version: the
      element `[0]` of the filtering comprehension, `None` where it is empty. */
  function FirstMatch(stimuli: seq<Stimulus>, sentence: string, version: string): (k: Option<nat>)
    ensures k.Some? ==>
      && k.value < |stimuli| && Matches(stimuli[k.value], sentence, version)
      && forall j :: 0 <= j < k.value ==> !Matches(stimuli[j], sentence, version)
    ensures k.None? <==> forall j :: 0 <= j < |stimuli| ==> !Matches(stimuli[j], sentence, version)
  {
    if |stimuli| == 0 then None
    else if Matches(stimuli[0], sentence, version) then Some(0)
    else match FirstMatch(stimuli[1..], sentence, version)
      case None => None
      case Some(k) => Some(k + 1)
  }

  /** The version list `i` shows for the sentence at position `j`: the entry of
      row `i` in column `j mod n` of the latin square. */
  function VersionFor(n: nat, i: nat, j: nat): (v: nat)
    requires n >= 1
    ensures 1 <= v <= n
  {
    Entry(n, i, j % n)
  }

  /** The record list `i` shows at position `j` (sentence `j + 1`). */
  function Chosen(stimuli: seq<Stimulus>, n: nat, i: nat, j: nat): Option<Stimulus>
    requires n >= 1
  {
    match FirstMatch(stimuli, NatToString(j + 1), NatToString(VersionFor(n, i, j)))
    case None => None
    case Some(k) => Some(stimuli[k])
  }

  /** Every list finds a record for every sentence. */
  ghost predicate AllChosen(stimuli: seq<Stimulus>, n: nat, m: nat)
    requires n >= 1
  {
    forall i, j :: 0 <= i < n && 0 <= j < m ==> Chosen(stimuli, n, i, j).Some?
  }

  /** Experimental list `i`: the chosen record of every sentence, in order. */
  ghost function ExperimentalList(stimuli: seq<Stimulus>, n: nat, m: nat, i: nat): (list: seq<Stimulus>)
    requires n >= 1 && AllChosen(stimuli, n, m) && i < n
    ensures |list| == m
    ensures forall j :: 0 <= j < m ==> Chosen(stimuli, n, i, j) == Some(list[j])
  {
    seq(m, (j: int) requires 0 <= j < m => Chosen(stimuli, n, i, j).value)
  }

  /** The next value of the wrapping position counter of lines 83-85. */
  lemma NextPosition(j: nat, n: nat)
    requires n >= 1
    ensures (if j % n + 1 > n - 1 then 0 else j % n + 1) == (j + 1) % n
  {
    var q := j / n;
    assert j == q * n + j % n;
    if j % n + 1 > n - 1 {
      assert j + 1 == (q + 1) * n;
      CongruentToSmall(j + 1, 0, q + 1, n);
    } else {
      CongruentToSmall(j + 1, j % n + 1, q, n);
    }
  }

  /** The list-building loops of the generator: one list per row of the latin
      square of order `amountVersions`, each holding for sentences 1 to `amountSentences` the
      first record of the version its row gives; the latin square of order 0
      cannot be built, and a missing record stops the whole run. */
  method BuildExperimentalLists(stimuli: seq<Stimulus>, amountSentences: nat, amountVersions: nat)
    returns (r: Result<seq<seq<Stimulus>>, GenError>)
    ensures amountVersions == 0 ==> r == Failure(NoVersions)
    ensures amountVersions >= 1 ==> (r.Success? <==> AllChosen(stimuli, amountVersions, amountSentences))
    ensures r.Success? ==>
      && amountVersions >= 1
      && |r.value| == amountVersions
      && forall i :: 0 <= i < amountVersions ==>
           r.value[i] == ExperimentalList(stimuli, amountVersions, amountSentences, i)
    ensures r.Failure? && amountVersions >= 1 ==>
      exists i, j :: 0 <= i < amountVersions && 0 <= j < amountSentences
        && Chosen(stimuli, amountVersions, i, j).None?
        && r.error == MissingStimulus(NatToString(j + 1), NatToString(VersionFor(amountVersions, i, j)))
  {
    if amountVersions == 0 {
      return Failure(NoVersions);
    }
    var n := amountVersions;
    var square := LatinSquare(n);
    var lists: seq<seq<Stimulus>> := [];
    for i := 0 to n
      invariant |lists| == i
      invariant forall i' :: 0 <= i' < i ==> |lists[i']| == amountSentences
      invariant forall a, c :: 0 <= a < n && 0 <= c < n ==> square[a, c] == Entry(n, a, c)
      invariant forall i', j :: 0 <= i' < i && 0 <= j < amountSentences ==>
        Chosen(stimuli, n, i', j) == Some(lists[i'][j])
    {
      var single: seq<Stimulus> := [];
      var counter := 0;
      for j := 1 to amountSentences + 1
        invariant counter == (j - 1) % n
        invariant forall a, c :: 0 <= a < n && 0 <= c < n ==> square[a, c] == Entry(n, a, c)
        invariant |single| == j - 1
        invariant forall j' :: 0 <= j' < j - 1 ==> Chosen(stimuli, n, i, j') == Some(single[j'])
      {
        var version := square[i, counter];
        assert version == VersionFor(n, i, j - 1);
        var k := FirstMatch(stimuli, NatToString(j), NatToString(version));
        if k.None? {
          assert Chosen(stimuli, n, i, j - 1).None?;
          return Failure(MissingStimulus(NatToString(j), NatToString(version)));
        }
        single := single + [stimuli[k.value]];
        NextPosition(j - 1, n);
        counter := counter + 1;
        if counter > n - 1 {
          counter := 0;
        }
      }
      lists := lists + [single];
    }
    assert AllChosen(stimuli, n, amountSentences);
    forall i | 0 <= i < n
      ensures lists[i] == ExperimentalList(stimuli, n, amountSentences, i)
    {
      var expected := ExperimentalList(stimuli, n, amountSentences, i);
      assert forall j :: 0 <= j < amountSentences ==> Chosen(stimuli, n, i, j) == Some(expected[j]);
      assert |lists[i]| == |expected|;
    }
    return Success(lists);
  }

  /** For every sentence, different lists show different versions of it (the
      counterbalancing the latin square is there for); with `ListShowing`,
      each version 1 to n is shown by exactly one list. */
  lemma Counterbalanced(stimuli: seq<Stimulus>, n: nat, m: nat, j: nat)
    requires n >= 1 && AllChosen(stimuli, n, m) && j < m
    ensures forall i :: 0 <= i < n ==> ExperimentalList(stimuli, n, m, i)[j].sentence == NatToString(j + 1)
    ensures forall i1, i2 :: 0 <= i1 < n && 0 <= i2 < n && i1 != i2 ==>
      ExperimentalList(stimuli, n, m, i1)[j].version != ExperimentalList(stimuli, n, m, i2)[j].version
  {
    ColumnIsPermutation(n, j % n);
    forall i | 0 <= i < n
      ensures ExperimentalList(stimuli, n, m, i)[j].sentence == NatToString(j + 1)
    {
      ChosenRecord(stimuli, n, m, i, j);
    }
    forall i1, i2 | 0 <= i1 < n && 0 <= i2 < n && i1 != i2
      ensures ExperimentalList(stimuli, n, m, i1)[j].version != ExperimentalList(stimuli, n, m, i2)[j].version
    {
      ChosenRecord(stimuli, n, m, i1, j);
      ChosenRecord(stimuli, n, m, i2, j);
      if i1 < i2 {
        assert Column(n, j % n)[i1] != Column(n, j % n)[i2];
      } else {
        assert Column(n, j % n)[i2] != Column(n, j % n)[i1];
      }
      if NatToString(VersionFor(n, i1, j)) == NatToString(VersionFor(n, i2, j)) {
        NatToStringInjective(VersionFor(n, i1, j), VersionFor(n, i2, j));
      }
    }
  }

  /** Every version 1 to n of a sentence is shown by some list. */
  lemma ListShowing(stimuli: seq<Stimulus>, n: nat, m: nat, j: nat, v: int) returns (i: nat)
    requires n >= 1 && AllChosen(stimuli, n, m) && j < m && 1 <= v <= n
    ensures i < n && ExperimentalList(stimuli, n, m, i)[j].version == NatToString(v)
  {
    i := RowOfValue(n, j % n, v);
    ChosenRecord(stimuli, n, m, i, j);
  }

  /** The record list `i` shows for sentence `j + 1` has that sentence and the
      version row `i` gives it. */
  lemma ChosenRecord(stimuli: seq<Stimulus>, n: nat, m: nat, i: nat, j: nat)
    requires n >= 1 && AllChosen(stimuli, n, m) && i < n && j < m
    ensures ExperimentalList(stimuli, n, m, i)[j].sentence == NatToString(j + 1)
    ensures ExperimentalList(stimuli, n, m, i)[j].version == NatToString(VersionFor(n, i, j))
  {
    assert Chosen(stimuli, n, i, j) == Some(ExperimentalList(stimuli, n, m, i)[j]);
  }

  /** One slot of the shuffled order: `'f'` takes the next filler, `'s'` the
      next experimental item. */
  datatype Slot = FillerSlot | StimulusSlot

  /** `n` copies of `x`. */
  function Repeat(x: Slot, n: nat): (r: seq<Slot>)
    ensures |r| == n
    ensures multiset(r)[x] == n
    ensures forall y :: y != x ==> multiset(r)[y] == 0
  {
    if n == 0 then [] else Repeat(x, n - 1) + [x]
  }

  /** The unshuffled slot order of the generator: one filler slot per filler,
      then one experimental slot per sentence. */
  function BaseSlots(fillers: nat, sentences: nat): (slots: seq<Slot>)
    ensures |slots| == fillers + sentences
    ensures multiset(slots)[FillerSlot] == fillers
    ensures multiset(slots)[StimulusSlot] == sentences
  {
    Repeat(FillerSlot, fillers) + Repeat(StimulusSlot, sentences)
  }

  /** The slots hold one experimental slot per item of `list` and one filler
      slot per filler. */
  predicate Fits(slots: seq<Slot>, list: seq<Stimulus>, fillers: seq<Stimulus>)
  {
    multiset(slots)[StimulusSlot] == |list| && multiset(slots)[FillerSlot] == |fillers|
  }

  /** How many slots of the kind of slot `k` come before it. */
  function Rank(slots: seq<Slot>, k: nat): nat
    requires k < |slots|
  {
    multiset(slots[..k])[slots[k]]
  }

  lemma RankBelowCount(slots: seq<Slot>, k: nat)
    requires k < |slots|
    ensures Rank(slots, k) < multiset(slots)[slots[k]]
  {
    assert slots == slots[..k] + [slots[k]] + slots[k + 1..];
  }

  /** The record written at slot `k`: the next experimental item or the next
      filler, by the kind of the slot. */
  function RecordAt(slots: seq<Slot>, list: seq<Stimulus>, fillers: seq<Stimulus>, k: nat): Stimulus
    requires Fits(slots, list, fillers) && k < |slots|
  {
    RankBelowCount(slots, k);
    match slots[k]
    case StimulusSlot => list[Rank(slots, k)]
    case FillerSlot => fillers[Rank(slots, k)]
  }

  /** The records of one output file, slot by slot. */
  function Interleaved(slots: seq<Slot>, list: seq<Stimulus>, fillers: seq<Stimulus>): (out: seq<Stimulus>)
    requires Fits(slots, list, fillers)
    ensures |out| == |slots|
  {
    seq(|slots|, (k: int) requires 0 <= k < |slots| => RecordAt(slots, list, fillers, k))
  }

  /** The entries of `out` at the slots of kind `kind`, in order. */
  function SelectBy(slots: seq<Slot>, out: seq<Stimulus>, kind: Slot): seq<Stimulus>
    requires |out| == |slots|
  {
    if |slots| == 0 then []
    else
      var rest := SelectBy(slots[..|slots| - 1], out[..|out| - 1], kind);
      if slots[|slots| - 1] == kind then rest + [out[|out| - 1]] else rest
  }

  /** The records that fill the slots of kind `kind`. */
  function Source(kind: Slot, list: seq<Stimulus>, fillers: seq<Stimulus>): seq<Stimulus>
  {
    if kind == StimulusSlot then list else fillers
  }

  /** Reading back the experimental slots of a written file gives the list in
      order, and reading back its filler slots gives the fillers in order. */
  lemma InterleavedSelect(slots: seq<Slot>, list: seq<Stimulus>, fillers: seq<Stimulus>)
    requires Fits(slots, list, fillers)
    ensures SelectBy(slots, Interleaved(slots, list, fillers), StimulusSlot) == list
    ensures SelectBy(slots, Interleaved(slots, list, fillers), FillerSlot) == fillers
  {
    var out := Interleaved(slots, list, fillers);
    SelectPrefix(slots, list, fillers, |slots|, StimulusSlot);
    SelectPrefix(slots, list, fillers, |slots|, FillerSlot);
    assert slots[..|slots|] == slots && out[..|slots|] == out;
  }

  /** Reading a written file back with the experiment's line reader: every
      line parses, the records read are the slot-by-slot records of the file,
      and those at item slots are the list in order, those at filler slots the
      fillers in order. `read` is any sequence the reader can produce
      (`Stimuli.ExtractStimuli` states that its result is one). */
  lemma ReadBack(slots: seq<Slot>, list: seq<Stimulus>, fillers: seq<Stimulus>, file: seq<string>, read: seq<Stimulus>)
    requires Fits(slots, list, fillers)
    requires forall r :: r in list ==> WellFormed(r)
    requires forall r :: r in fillers ==> WellFormed(r)
    requires |file| == |slots|
    requires forall k :: 0 <= k < |slots| ==> file[k] == FormatLine(Interleaved(slots, list, fillers)[k])
    ensures forall k :: 0 <= k < |file| ==> ParseLine(file[k]).Some?
    ensures |read| == |file| && (forall k :: 0 <= k < |file| ==> ParseLine(file[k]) == Some(read[k])) ==>
      && read == Interleaved(slots, list, fillers)
      && SelectBy(slots, read, StimulusSlot) == list
      && SelectBy(slots, read, FillerSlot) == fillers
  {
    var out := Interleaved(slots, list, fillers);
    forall k | 0 <= k < |file|
      ensures ParseLine(file[k]) == Some(out[k])
    {
      WrittenRecordWellFormed(slots, list, fillers, k);
      ParseOfFormat(out[k]);
    }
    InterleavedSelect(slots, list, fillers);
  }

  lemma WrittenRecordWellFormed(slots: seq<Slot>, list: seq<Stimulus>, fillers: seq<Stimulus>, k: nat)
    requires Fits(slots, list, fillers) && k < |slots|
    requires forall r :: r in list ==> WellFormed(r)
    requires forall r :: r in fillers ==> WellFormed(r)
    ensures WellFormed(Interleaved(slots, list, fillers)[k])
  {
    InterleavedAt(slots, list, fillers, k);
    var source := Source(slots[k], list, fillers);
    assert source[Rank(slots, k)] in source;
  }

  lemma {:induction false} SelectPrefix(slots: seq<Slot>, list: seq<Stimulus>, fillers: seq<Stimulus>, p: nat, kind: Slot)
    requires Fits(slots, list, fillers) && p <= |slots|
    ensures multiset(slots[..p])[kind] <= |Source(kind, list, fillers)|
    ensures SelectBy(slots[..p], Interleaved(slots, list, fillers)[..p], kind)
      == Source(kind, list, fillers)[..multiset(slots[..p])[kind]]
  {
    PrefixCountBound(slots, p, kind);
    if p > 0 {
      SelectPrefix(slots, list, fillers, p - 1, kind);
      SelectPrefixStep(slots, list, fillers, p, kind);
    }
  }

  lemma PrefixCountBound(slots: seq<Slot>, p: nat, kind: Slot)
    requires p <= |slots|
    ensures multiset(slots[..p])[kind] <= multiset(slots)[kind]
  {
    assert slots == slots[..p] + slots[p..];
  }

  lemma PrefixCountStep(slots: seq<Slot>, p: nat, kind: Slot)
    requires 0 < p <= |slots|
    ensures multiset(slots[..p])[kind] == multiset(slots[..p - 1])[kind] + (if slots[p - 1] == kind then 1 else 0)
  {
    assert slots[..p] == slots[..p - 1] + [slots[p - 1]];
  }

  lemma InterleavedAt(slots: seq<Slot>, list: seq<Stimulus>, fillers: seq<Stimulus>, k: nat)
    requires Fits(slots, list, fillers) && k < |slots|
    ensures Rank(slots, k) < |Source(slots[k], list, fillers)|
    ensures Interleaved(slots, list, fillers)[k] == Source(slots[k], list, fillers)[Rank(slots, k)]
  {
    RankBelowCount(slots, k);
  }

  lemma SelectPrefixStep(slots: seq<Slot>, list: seq<Stimulus>, fillers: seq<Stimulus>, p: nat, kind: Slot)
    requires Fits(slots, list, fillers) && 0 < p <= |slots|
    requires multiset(slots[..p - 1])[kind] <= |Source(kind, list, fillers)|
    requires SelectBy(slots[..p - 1], Interleaved(slots, list, fillers)[..p - 1], kind)
      == Source(kind, list, fillers)[..multiset(slots[..p - 1])[kind]]
    ensures multiset(slots[..p])[kind] <= |Source(kind, list, fillers)| ==>
      SelectBy(slots[..p], Interleaved(slots, list, fillers)[..p], kind)
        == Source(kind, list, fillers)[..multiset(slots[..p])[kind]]
  {
    var out := Interleaved(slots, list, fillers);
    var source := Source(kind, list, fillers);
    var c := multiset(slots[..p - 1])[kind];
    SelectStep(slots, out, p, kind);
    PrefixCountStep(slots, p, kind);
    if slots[p - 1] == kind {
      InterleavedAt(slots, list, fillers, p - 1);
      assert source[..c] + [source[c]] == source[..c + 1];
    }
  }

  /** `SelectBy` on a prefix one slot longer. */
  lemma SelectStep(slots: seq<Slot>, out: seq<Stimulus>, p: nat, kind: Slot)
    requires |out| == |slots| && 0 < p <= |slots|
    ensures SelectBy(slots[..p], out[..p], kind) ==
      SelectBy(slots[..p - 1], out[..p - 1], kind) + (if slots[p - 1] == kind then [out[p - 1]] else [])
  {
    assert slots[..p][..p - 1] == slots[..p - 1];
    assert out[..p][..p - 1] == out[..p - 1];
  }

  /** The writing loops of the generator: the contents of one file per list,
      written slot by slot; both counters start again at 0 for every list. */
  method WriteLists(lists: seq<seq<Stimulus>>, fillers: seq<Stimulus>, slots: seq<Slot>)
    returns (files: seq<seq<string>>)
    requires forall i :: 0 <= i < |lists| ==> Fits(slots, lists[i], fillers)
    ensures |files| == |lists|
    ensures forall i :: 0 <= i < |lists| ==>
      && |files[i]| == |slots|
      && forall k :: 0 <= k < |slots| ==> files[i][k] == FormatLine(Interleaved(slots, lists[i], fillers)[k])
  {
    files := [];
    var counterStimuli := 0;
    var counterFiller := 0;
    for i := 0 to |lists|
      invariant |files| == i
      invariant counterStimuli == 0 && counterFiller == 0
      invariant forall i' :: 0 <= i' < i ==>
        && |files[i']| == |slots|
        && forall k :: 0 <= k < |slots| ==> files[i'][k] == FormatLine(Interleaved(slots, lists[i'], fillers)[k])
    {
      var list := lists[i];
      var file: seq<string> := [];
      for k := 0 to |slots|
        invariant |file| == k
        invariant counterStimuli == multiset(slots[..k])[StimulusSlot]
        invariant counterFiller == multiset(slots[..k])[FillerSlot]
        invariant forall k' :: 0 <= k' < k ==> file[k'] == FormatLine(Interleaved(slots, list, fillers)[k'])
      {
        RankBelowCount(slots, k);
        assert slots[..k + 1] == slots[..k] + [slots[k]];
        if slots[k] == StimulusSlot {
          file := file + [FormatLine(list[counterStimuli])];
          counterStimuli := counterStimuli + 1;
        } else {
          file := file + [FormatLine(fillers[counterFiller])];
          counterFiller := counterFiller + 1;
        }
      }
      counterStimuli := 0;
      counterFiller := 0;
      files := files + [file];
    }
  }

  /** `save_filename_with_lists_according_to_latin_square` on the lines of the
      input file: the contents of the output files, one per version, or the
      first error. `shuffle` stands for `random.shuffle`: any rearrangement. */
  method SaveListsAccordingToLatinSquare(lines: seq<string>, shuffle: seq<Slot> -> seq<Slot>)
    returns (r: Result<seq<seq<string>>, GenError>)
    requires forall s :: multiset(shuffle(s)) == multiset(s)
    ensures ClassifyAll(lines).Failure? ==> r == Failure(ClassifyAll(lines).error)
    ensures ClassifyAll(lines).Success? ==>
      var cs := ClassifyAll(lines).value;
      var fillers := RecordsWhere(cs, true);
      var stimuli := RecordsWhere(cs, false);
      var m := AmountSentences(stimuli);
      var n := AmountVersions(stimuli);
      && (r.Success? <==> n >= 1 && AllChosen(stimuli, n, m))
      && (r.Failure? ==> (n == 0 <==> r.error == NoVersions) && (n >= 1 ==> r.error.MissingStimulus?))
      && (r.Success? ==>
            var slots := shuffle(BaseSlots(|fillers|, m));
            && |r.value| == n
            && forall i :: 0 <= i < n ==>
                 && |r.value[i]| == |fillers| + m
                 && forall k :: 0 <= k < |slots| ==>
                      r.value[i][k] == FormatLine(Interleaved(slots, ExperimentalList(stimuli, n, m, i), fillers)[k]))
  {
    var parts := Partition(lines);
    if parts.Failure? {
      return Failure(parts.error);
    }
    var (fillers, stimuli) := parts.value;
    var m := AmountSentences(stimuli);
    var n := AmountVersions(stimuli);
    var lists := BuildExperimentalLists(stimuli, m, n);
    if lists.Failure? {
      return Failure(lists.error);
    }
    var base := BaseSlots(|fillers|, m);
    var slots := shuffle(base);
    assert multiset(slots) == multiset(base);
    assert |slots| == |base| by {
      assert |multiset(slots)| == |multiset(base)|;
    }
    var files := WriteLists(lists.value, fillers, slots);
    return Success(files);
  }
}
