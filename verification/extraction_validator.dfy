/** The legacy check of extracted texts: every listed name ending in ".txt"
    is read and judged on its length alone. A file that cannot be read
    raises out of the loop, so the files after it are never judged. */
module ExtractionValidator {
  import opened Outcomes
  import opened Files
  import Seqs
  import ContentValidator

  /** The printed verdict for one file. */
  datatype Verdict = TooSmall(fileName: string) | Validated(fileName: string)

  /** How `validate_extraction` ends: every ".txt" file judged, or a read
      raised on `failedOn` after the verdicts printed so far. */
  datatype Report =
    | Finished(verdicts: seq<Verdict>)
    | Interrupted(verdicts: seq<Verdict>, failedOn: string, reason: string)

  /** The verdict on one text: length only, with no whitespace rule. */
  function VerdictFor(name: string, text: string): (v: Verdict)
    ensures v.fileName == name
    ensures v.TooSmall? <==> |text| < ContentValidator.MinimumLength
  {
    if |text| < ContentValidator.MinimumLength then TooSmall(name) else Validated(name)
  }

  /** Entry `j` of the ".txt" files was read and judged as `v`. */
  predicate JudgedAs(txt: seq<DirEntry>, j: int, v: Verdict)
    requires 0 <= j < |txt|
  {
    txt[j].contents.Text? && v == VerdictFor(txt[j].name, txt[j].contents.text)
  }

  /** `validate_extraction` over a directory listing, in listing order. */
  method ValidateExtraction(listing: seq<DirEntry>) returns (report: Report)
    ensures var txt := Seqs.Filter(listing, IsTextFile);
      && |report.verdicts| <= |txt|
      && (forall j :: 0 <= j < |report.verdicts| ==> JudgedAs(txt, j, report.verdicts[j]))
      && (report.Finished? <==> forall j :: 0 <= j < |txt| ==> txt[j].contents.Text?)
      && (report.Finished? ==> |report.verdicts| == |txt|)
      && (report.Interrupted? ==>
            && |report.verdicts| < |txt|
            && txt[|report.verdicts|].contents == Unreadable(report.reason)
            && report.failedOn == txt[|report.verdicts|].name)
  {
    var txt := Seqs.Filter(listing, IsTextFile);
    var verdicts: seq<Verdict> := [];
    var i := 0;
    while i < |txt|
      invariant 0 <= i <= |txt|
      invariant |verdicts| == i
      invariant forall j :: 0 <= j < i ==> JudgedAs(txt, j, verdicts[j])
    {
      match txt[i].contents
      case Unreadable(reason) =>
        return Interrupted(verdicts, txt[i].name, reason);
      case Text(text) =>
        verdicts := verdicts + [VerdictFor(txt[i].name, text)];
      i := i + 1;
    }
    forall j | 0 <= j < |txt|
      ensures txt[j].contents.Text?
    {
      assert JudgedAs(txt, j, verdicts[j]);
    }
    return Finished(verdicts);
  }

  /** The length-only verdict accepts a text the content validator rejects:
      100 spaces pass here but are reported blank there. */
  lemma BlankTextPassesLengthOnlyCheck()
    ensures VerdictFor("blank.txt", seq(100, _ => ' ')).Validated?
    ensures ContentValidator.Blank in ContentValidator.ContentErrors(seq(100, _ => ' '))
  {
  }
}
