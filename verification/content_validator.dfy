/** The post-hoc check of extracted resolution texts: a two-rule check of
    one text, accumulating its errors, and a scan of a directory's `*.txt`
    files into a map from file name to result.

    The script defines `validate_resolution_content` twice; the second
    definition (the directory scan) replaces the first (the text check), so
    the scan's own call on a file's text reaches the directory scan with a
    `str`, which raises. The scan is therefore parameterised by the check it
    calls: `IntendedCheck` is the text check, `AsWrittenCheck` what the call
    resolves to. */
module ContentValidator {
  import opened Outcomes
  import opened PyStr
  import opened Files

  /** Shortest acceptable text. */
  const MinimumLength: nat := 100

  const TooShort := "Resolution content too short (minimum 100 characters)"
  const Blank := "Resolution file is empty or contains only whitespace"
  const ReadFailurePrefix := "Error reading resolution file: "

  /** `str(e)` of the `AttributeError` raised when the directory scan is
      handed a `str` and calls `.glob` on it. */
  const NoGlobOnStr := "'str' object has no attribute 'glob'"

  /** `ResolutionValidationResult` */
  datatype ValidationResult = ValidationResult(fileName: string, isValid: bool, validationErrors: seq<string>)

  /** The text check: errors accumulate, the length rule first. */
  function ContentErrors(content: string): (errors: seq<string>)
    ensures TooShort in errors <==> |content| < MinimumLength
    ensures Blank in errors <==> AllSpace(content)
    ensures errors == [] <==> |content| >= MinimumLength && !AllSpace(content)
    ensures |errors| == 2 ==> errors == [TooShort, Blank]
    ensures |errors| <= 2
  {
    (if |content| < MinimumLength then [TooShort] else [])
      + (if Strip(content) == [] then [Blank] else [])
  }

  /** The errors of a text follow from its length and from whether it is all
      whitespace alone. */
  lemma ErrorsByRule(content: string)
    ensures ContentErrors(content) ==
      (if |content| < MinimumLength then [TooShort] else []) + (if AllSpace(content) then [Blank] else [])
  {
  }

  /** The boundaries: 99 characters are too short, 100 pass, whitespace of
      any length is blank, and the empty text fails both rules in order. */
  lemma ContentBoundaries()
    ensures ContentErrors(seq(99, _ => 'a')) == [TooShort]
    ensures ContentErrors(seq(100, _ => 'a')) == []
    ensures ContentErrors(seq(150, _ => ' ')) == [Blank]
    ensures ContentErrors("") == [TooShort, Blank]
  {
    var short, enough, spaces := seq(99, _ => 'a'), seq(100, _ => 'a'), seq(150, _ => ' ');
    assert !AllSpace(short) by { assert short[0] == 'a'; }
    assert !AllSpace(enough) by { assert enough[0] == 'a'; }
    ErrorsByRule(short);
    ErrorsByRule(enough);
    ErrorsByRule(spaces);
    ErrorsByRule("");
  }

  /** What the call on a file's text does: return errors or raise. */
  type Check = string -> Attempt<seq<string>>

  /** The text check the scan was written to call. */
  const IntendedCheck: Check := content => Returned(ContentErrors(content))

  /** What the call resolves to: the directory scan, which raises on a `str`. */
  const AsWrittenCheck: Check := content => Raised(NoGlobOnStr)

  /** One file's result: a failure to read it, or an exception raised by the
      check, is reported as a single read error. */
  function ResultFor(e: DirEntry, check: Check): (r: ValidationResult)
    ensures r.fileName == e.name
    ensures r.isValid <==> r.validationErrors == []
    ensures e.contents.Unreadable? ==> !r.isValid && r.validationErrors == [ReadFailurePrefix + e.contents.reason]
    ensures e.contents.Text? && check(e.contents.text).Returned? ==>
      r.validationErrors == check(e.contents.text).value
    ensures e.contents.Text? && check(e.contents.text).Raised? ==>
      !r.isValid && r.validationErrors == [ReadFailurePrefix + check(e.contents.text).message]
  {
    match e.contents
    case Unreadable(reason) => ValidationResult(e.name, false, [ReadFailurePrefix + reason])
    case Text(text) =>
      match check(text)
      case Raised(message) => ValidationResult(e.name, false, [ReadFailurePrefix + message])
      case Returned(errors) => ValidationResult(e.name, |errors| == 0, errors)
  }

  /** The names of the `*.txt` entries. */
  function TextNames(entries: seq<DirEntry>): set<string> {
    set i | 0 <= i < |entries| && IsTextFile(entries[i]) :: entries[i].name
  }

  /** The loop body for one entry: a `*.txt` file's result is stored under
      its name, replacing any earlier one. */
  function AddEntry(results: map<string, ValidationResult>, e: DirEntry, check: Check): map<string, ValidationResult> {
    if IsTextFile(e) then results[e.name := ResultFor(e, check)] else results
  }

  /** `validate_resolution_content(resolutions_dir)` over the directory's
      entries in listing order; a later entry of the same name replaces an
      earlier one, as assigning to a dict key does. */
  function ValidateDirectory(entries: seq<DirEntry>, check: Check): (results: map<string, ValidationResult>)
    ensures results.Keys == TextNames(entries)
    ensures forall name :: name in results ==> results[name].fileName == name
    ensures forall name :: name in results ==> (results[name].isValid <==> results[name].validationErrors == [])
    ensures forall i :: 0 <= i < |entries| && IsTextFile(entries[i]) && LastWithName(entries, i) ==>
      entries[i].name in results && results[entries[i].name] == ResultFor(entries[i], check)
  {
    if entries == [] then map[]
    else
      var prior := entries[..|entries| - 1];
      var earlier := ValidateDirectory(prior, check);
      TextNamesOfLast(entries);
      LastEntryDecides(entries, check, earlier);
      AddEntry(earlier, entries[|entries| - 1], check)
  }

  /** The `*.txt` names of a listing are those before its last entry, plus
      that entry's name when it is a `*.txt` file. */
  lemma TextNamesOfLast(entries: seq<DirEntry>)
    requires entries != []
    ensures var e := entries[|entries| - 1];
      TextNames(entries) == TextNames(entries[..|entries| - 1]) + (if IsTextFile(e) then {e.name} else {})
  {
    var prior := entries[..|entries| - 1];
    assert forall i :: 0 <= i < |prior| ==> prior[i] == entries[i];
  }

  /** Adding the last entry keeps, for every other name, the result of that
      name's last entry before it. */
  lemma LastEntryDecides(entries: seq<DirEntry>, check: Check, earlier: map<string, ValidationResult>)
    requires entries != []
    requires var prior := entries[..|entries| - 1];
      forall i :: 0 <= i < |prior| && IsTextFile(prior[i]) && LastWithName(prior, i) ==>
        prior[i].name in earlier && earlier[prior[i].name] == ResultFor(prior[i], check)
    ensures var results := AddEntry(earlier, entries[|entries| - 1], check);
      forall i :: 0 <= i < |entries| && IsTextFile(entries[i]) && LastWithName(entries, i) ==>
        entries[i].name in results && results[entries[i].name] == ResultFor(entries[i], check)
  {
    var prior := entries[..|entries| - 1];
    var last := |entries| - 1;
    var results := AddEntry(earlier, entries[last], check);
    forall i | 0 <= i < |entries| && IsTextFile(entries[i]) && LastWithName(entries, i)
      ensures entries[i].name in results && results[entries[i].name] == ResultFor(entries[i], check)
    {
      if i < last {
        assert prior[i] == entries[i];
        forall j | i < j < |prior|
          ensures prior[j].name != prior[i].name
        {
          assert prior[j] == entries[j];
        }
        assert entries[last].name != entries[i].name;
      }
    }
  }

  /** No later entry carries the same name as entry `i`. */
  predicate LastWithName(entries: seq<DirEntry>, i: int)
    requires 0 <= i < |entries|
  {
    forall j :: i < j < |entries| ==> entries[j].name != entries[i].name
  }

  /** With the intended check, a readable file is valid exactly when it has
      at least 100 characters and one that is not whitespace, and its errors
      are those of the text check. */
  lemma IntendedVerdict(entries: seq<DirEntry>, i: nat)
    requires i < |entries| && IsTextFile(entries[i]) && LastWithName(entries, i)
    requires entries[i].contents.Text?
    ensures var r := ValidateDirectory(entries, IntendedCheck)[entries[i].name];
      && r.validationErrors == ContentErrors(entries[i].contents.text)
      && (r.isValid <==> |entries[i].contents.text| >= MinimumLength && !AllSpace(entries[i].contents.text))
  {
  }

  /** As written, every readable `*.txt` file is reported invalid, with the
      single read error naming the `AttributeError`. */
  lemma AsWrittenReportsEveryFileUnreadable(entries: seq<DirEntry>, i: nat)
    requires i < |entries| && IsTextFile(entries[i]) && LastWithName(entries, i)
    requires entries[i].contents.Text?
    ensures var r := ValidateDirectory(entries, AsWrittenCheck)[entries[i].name];
      !r.isValid && r.validationErrors == [ReadFailurePrefix + NoGlobOnStr]
  {
  }

  /** A concrete directory showing the difference: one file of 200 letters. */
  lemma AsWrittenRejectsGoodFile()
    ensures
      var entries := [DirEntry("resolution.txt", Text(seq(200, _ => 'a')))];
      && ValidateDirectory(entries, IntendedCheck)["resolution.txt"].isValid
      && !ValidateDirectory(entries, AsWrittenCheck)["resolution.txt"].isValid
  {
    var entries := [DirEntry("resolution.txt", Text(seq(200, _ => 'a')))];
    assert !AllSpace(seq(200, _ => 'a')) by {
      assert seq(200, _ => 'a')[0] == 'a';
    }
    IntendedVerdict(entries, 0);
    AsWrittenReportsEveryFileUnreadable(entries, 0);
  }
}
