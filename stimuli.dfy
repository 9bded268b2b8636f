/** Stimulus records and their one-line text form `sentence\tversion\ttext`:
    the reader `extract_stimuli_from_txt` (the same code in both experiment
    scripts) and the writer in the list generator. */
module Stimuli {
  import opened Text

  /** One line of a stimulus file; for the list generator a sentence that
      reads as 0 marks a filler. */
  datatype Stimulus = Stimulus(sentence: string, version: string, text: string)

  /** The reader indexes the third field of a line that has fewer than three. */
  datatype ParseError = TooFewFields(line: nat)

  /** `line.strip('\n').split('\t')` */
  function Fields(line: string): seq<string>
  {
    Split(Strip(line, {'\n'}), '\t')
  }

  /** The record of one line: the first three tab-separated fields of the line
      with surrounding newlines stripped; `None` when Python's indexing of the
      third field fails. */
  function ParseLine(line: string): Option<Stimulus>
  {
    var fields := Fields(line);
    if |fields| < 3 then None else Some(Stimulus(fields[0], fields[1], fields[2]))
  }

  /** What `ParseLine` reads: it fails exactly when the stripped line has fewer
      than two tabs; otherwise its three fields are tab-free and, joined by
      tabs, form the stripped line up to its end or up to a third tab. */
  lemma ParseLineMeaning(line: string)
    ensures ParseLine(line).None? <==> multiset(Strip(line, {'\n'}))['\t'] < 2
    ensures ParseLine(line).Some? ==>
      var r := ParseLine(line).value;
      && '\t' !in r.sentence && '\t' !in r.version && '\t' !in r.text
      && var t := Strip(line, {'\n'});
         var body := r.sentence + "\t" + r.version + "\t" + r.text;
         body <= t && (|t| == |body| || t[|body|] == '\t')
  {
    var fields := Fields(line);
    SplitMeaning(Strip(line, {'\n'}), '\t');
    if |fields| >= 3 {
      JoinOfThree(fields, '\t');
    }
  }

  /** The joined pieces start with the first three joined, followed by the end
      of the string or a separator. */
  lemma JoinOfThree(pieces: seq<string>, sep: char)
    requires |pieces| >= 3
    ensures var head := pieces[0] + [sep] + pieces[1] + [sep] + pieces[2];
      var whole := Join(pieces, sep);
      && head <= whole && (|whole| == |head| || whole[|head|] == sep)
      && (|pieces| == 3 ==> whole == head)
  {
    var head := pieces[0] + [sep] + pieces[1] + [sep] + pieces[2];
    assert pieces[1..][1..] == pieces[2..];
    assert Join(pieces, sep) == pieces[0] + [sep] + (pieces[1] + [sep] + Join(pieces[2..], sep));
    if |pieces| > 3 {
      assert pieces[2..][1..] == pieces[3..];
      var tail := Join(pieces[3..], sep);
      assert Join(pieces[2..], sep) == pieces[2] + [sep] + tail;
      assert Join(pieces, sep) == head + ([sep] + tail);
    } else {
      assert Join(pieces[2..], sep) == pieces[2];
      assert Join(pieces, sep) == head;
    }
  }

  /** The line the list generator writes for a record. */
  function FormatLine(r: Stimulus): string
  {
    r.sentence + "\t" + r.version + "\t" + r.text + "\n"
  }

  /** A record whose fields hold no tab and no newline. */
  predicate WellFormed(r: Stimulus)
  {
    && '\t' !in r.sentence && '\n' !in r.sentence
    && '\t' !in r.version && '\n' !in r.version
    && '\t' !in r.text && '\n' !in r.text
  }

  /** Reading a written line gives the record back. */
  lemma ParseOfFormat(r: Stimulus)
    requires WellFormed(r)
    ensures ParseLine(FormatLine(r)) == Some(r)
  {
    var body := r.sentence + "\t" + r.version + "\t" + r.text;
    var pieces := [r.sentence, r.version, r.text];
    assert Strip(FormatLine(r), {'\n'}) == body by {
      StripOfFormat(r);
    }
    assert Split(body, '\t') == pieces by {
      SplitOfFields(r);
    }
    assert Fields(FormatLine(r)) == pieces;
  }

  /** Splitting the joined fields of a well-formed record gives the fields. */
  lemma SplitOfFields(r: Stimulus)
    requires WellFormed(r)
    ensures Split(r.sentence + "\t" + r.version + "\t" + r.text, '\t') == [r.sentence, r.version, r.text]
  {
    var pieces := [r.sentence, r.version, r.text];
    assert forall k :: 0 <= k < |pieces| ==> '\t' !in pieces[k] by {
      assert pieces[0] == r.sentence && pieces[1] == r.version && pieces[2] == r.text;
    }
    JoinOfFields(r);
    SplitOfJoin(pieces, '\t');
  }

  /** Stripping the newline off a written line leaves the joined fields. */
  lemma StripOfFormat(r: Stimulus)
    requires WellFormed(r)
    ensures Strip(FormatLine(r), {'\n'}) == r.sentence + "\t" + r.version + "\t" + r.text
  {
    var body := r.sentence + "\t" + r.version + "\t" + r.text;
    assert body[|r.sentence|] == '\t';
    assert body[0] != '\n' && body[|body| - 1] != '\n';
    StripTrailing(body, '\n', {'\n'});
    assert FormatLine(r) == body + "\n";
  }

  lemma JoinOfFields(r: Stimulus)
    ensures Join([r.sentence, r.version, r.text], '\t') == r.sentence + "\t" + r.version + "\t" + r.text
  {
    var pieces := [r.sentence, r.version, r.text];
    assert pieces[1..][1..] == [r.text];
    assert Join(pieces[1..], '\t') == r.version + "\t" + r.text;
  }

  /** Writing what was read from a canonical line (three fields, one
      terminating newline) gives the line back. */
  lemma FormatOfParse(line: string, body: string)
    requires line == body + "\n" && '\n' !in body
    requires multiset(body)['\t'] == 2
    ensures ParseLine(line).Some?
    ensures FormatLine(ParseLine(line).value) == line
  {
    assert body[0] != '\n' by { assert body[0] in body; }
    assert body[|body| - 1] != '\n' by { assert body[|body| - 1] in body; }
    StripTrailing(body, '\n', {'\n'});
    assert Strip(line, {'\n'}) == body;
    SplitMeaning(body, '\t');
    JoinOfThree(Split(body, '\t'), '\t');
  }

  /** `extract_stimuli_from_txt`: one record per line, in file order; the
      first line with fewer than three fields stops it. */
  method ExtractStimuli(lines: seq<string>) returns (r: Result<seq<Stimulus>, ParseError>)
    ensures r.Success? <==> forall k :: 0 <= k < |lines| ==> ParseLine(lines[k]).Some?
    ensures r.Success? ==>
      && |r.value| == |lines|
      && forall k :: 0 <= k < |lines| ==> ParseLine(lines[k]) == Some(r.value[k])
    ensures r.Failure? ==>
      && r.error.line < |lines|
      && ParseLine(lines[r.error.line]).None?
      && forall k :: 0 <= k < r.error.line ==> ParseLine(lines[k]).Some?
  {
    var stimuli: seq<Stimulus> := [];
    var i := 0;
    while i < |lines|
      invariant 0 <= i <= |lines| && |stimuli| == i
      invariant forall k :: 0 <= k < i ==> ParseLine(lines[k]) == Some(stimuli[k])
    {
      var record := ParseLine(lines[i]);
      if record.None? {
        return Failure(TooFewFields(i));
      }
      stimuli := stimuli + [record.value];
      i := i + 1;
    }
    return Success(stimuli);
  }
}
