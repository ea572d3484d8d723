/** The legacy PDF-to-text step: every listed name ending in ".pdf" is
    converted, the output named by replacing ".pdf" with ".txt", and a
    failure on one file is reported and the loop moves on. */
module Extractor {
  import opened PyStr
  import opened Files
  import Seqs

  /** `pdf_file.replace(".pdf", ".txt")`, which replaces every occurrence. */
  function OutputName(name: string): (out: string)
    ensures |out| == |name|
  {
    Replace(name, Pdf, Txt)
  }

  /** A name without ".pdf" is kept as it is. */
  lemma OutputOfPlainName(name: string)
    requires forall i :: !OccursAt(name, Pdf, i)
    ensures OutputName(name) == name
  {
    ReplaceAbsent(name, Pdf, Txt);
  }

  /** The first ".pdf" in a name becomes ".txt", the text before it is
      kept, and the rest of the name is renamed in the same way. */
  lemma OutputAtFirstPdf(before: string, after: string)
    requires forall i :: 0 <= i < |before| ==> !OccursAt(before + Pdf + after, Pdf, i)
    ensures OutputName(before + Pdf + after) == before + Txt + OutputName(after)
  {
    ReplaceFirst(before, Pdf, after, Txt);
  }

  /** A name ending in ".pdf" yields one ending in ".txt": the trailing
      ".pdf" is always among the occurrences replaced. */
  lemma OutputNameEndsInTxt(name: string)
    requires IsPdfName(name)
    ensures EndsWith(OutputName(name), Txt)
  {
    var stem := name[..|name| - |Pdf|];
    assert name == stem + Pdf;
    assert Pdf[0] !in Pdf[1..];
    ReplaceTrailing(stem, Pdf, Txt);
    assert OutputName(name) == Replace(stem, Pdf, Txt) + Txt;
  }

  /** An input starting with ".pdf" gives an output starting with '.'. */
  lemma OutputOfLeadingPdf(t: string)
    ensures |t| >= |Pdf| && t[..|Pdf|] == Pdf ==> |OutputName(t)| > 0 && OutputName(t)[0] == '.'
  {
  }

  /** A word without '.' at the front of the output was already at the front
      of the input: replacement only ever writes text beginning with '.'. */
  lemma {:induction false} PrefixWithoutDotComesFromInput(t: string, w: string)
    requires '.' !in w
    requires StartsWith(OutputName(t), w)
    ensures StartsWith(t, w)
    decreases |t|
  {
    var out := OutputName(t);
    if |t| < |Pdf| {
      assert out == t;
    } else if w == [] {
    } else {
      OutputOfLeadingPdf(t);
      assert out[0] == w[0];
      assert t[..|Pdf|] != Pdf;
      assert out == [t[0]] + OutputName(t[1..]);
      assert forall k :: 0 <= k < |w| - 1 ==> OutputName(t[1..])[k] == out[k + 1] == w[k + 1];
      assert StartsWith(OutputName(t[1..]), w[1..]);
      PrefixWithoutDotComesFromInput(t[1..], w[1..]);
      assert t[..|w|] == [t[0]] + t[1..][..|w| - 1];
    }
  }

  /** An occurrence lying wholly after a prefix is an occurrence in the rest. */
  lemma OccursAfterPrefix(p: string, rest: string, w: string, i: int)
    ensures i >= |p| && OccursAt(p + rest, w, i) ==> OccursAt(rest, w, i - |p|)
  {
    if i >= |p| && OccursAt(p + rest, w, i) {
      assert forall k :: 0 <= k < |w| ==> rest[i - |p| + k] == (p + rest)[i + k] == w[k];
    }
  }

  /** No ".pdf" is left anywhere in an output name. */
  lemma {:induction false} NoPdfRemains(name: string)
    ensures forall i :: !OccursAt(OutputName(name), Pdf, i)
    decreases |name|
  {
    var out := OutputName(name);
    if |name| >= |Pdf| {
      if name[..|Pdf|] == Pdf {
        var rest := OutputName(name[|Pdf|..]);
        NoPdfRemains(name[|Pdf|..]);
        assert out == Txt + rest;
        forall i | 0 <= i < |Txt|
          ensures !OccursAt(out, Pdf, i)
        {
          assert out[i] == Txt[i];
        }
        forall i | i >= |Txt|
          ensures !OccursAt(out, Pdf, i)
        {
          OccursAfterPrefix(Txt, rest, Pdf, i);
        }
      } else {
        var rest := OutputName(name[1..]);
        NoPdfRemains(name[1..]);
        assert out == [name[0]] + rest;
        forall i | i >= 1
          ensures !OccursAt(out, Pdf, i)
        {
          OccursAfterPrefix([name[0]], rest, Pdf, i);
        }
        assert OccursAt(out, Pdf, 0) ==> StartsWith(rest, "pdf") by {
          if OccursAt(out, Pdf, 0) {
            assert forall k :: 0 <= k < 3 ==> rest[k] == out[k + 1] == Pdf[k + 1];
          }
        }
        if StartsWith(rest, "pdf") {
          PrefixWithoutDotComesFromInput(name[1..], "pdf");
        }
        assert !OccursAt(out, Pdf, 0);
      }
    }
  }

  /** "a.txt" holds no ".pdf" and is left as it is. */
  lemma PlainNameUnchanged()
    ensures Replace("a.txt", Pdf, Txt) == "a.txt"
  {
    assert Replace("txt", Pdf, Txt) == "txt";
    assert Replace(".txt", Pdf, Txt) == ".txt";
  }

  lemma OutputOfTxtPdf()
    ensures OutputName("a.txt.pdf") == "a.txt.txt"
  {
    assert Pdf[0] !in Pdf[1..];
    PlainNameUnchanged();
    assert "a.txt.pdf" == "a.txt" + Pdf;
    ReplaceTrailing("a.txt", Pdf, Txt);
    assert OutputName("a.txt.pdf") == "a.txt" + Txt;
  }

  lemma OutputOfPdfPdf()
    ensures OutputName("a.pdf.pdf") == "a.txt.txt"
  {
    assert Pdf[0] !in Pdf[1..];
    assert Replace("a", Pdf, Txt) == "a";
    assert "a.pdf" == "a" + Pdf;
    ReplaceTrailing("a", Pdf, Txt);
    assert "a.pdf.pdf" == "a.pdf" + Pdf;
    ReplaceTrailing("a.pdf", Pdf, Txt);
  }

  /** Two different inputs can share an output name, so the later conversion
      overwrites the earlier one's text. */
  lemma OutputNamesCanCollide()
    ensures OutputName("a.txt.pdf") == OutputName("a.pdf.pdf") == "a.txt.txt"
  {
    OutputOfTxtPdf();
    OutputOfPdfPdf();
  }

  /** What happened to one ".pdf" name: its text was written to the output
      name, or the exception from extraction or writing was printed. */
  datatype Step = Written(source: string, output: string) | Reported(source: string)

  /** `extract_text_from_pdfs` over a directory listing; `converts(name)`
      says whether extracting and writing that file succeed. */
  function ExtractTexts(listing: seq<string>, converts: string -> bool): (steps: seq<Step>)
    ensures |steps| == |Seqs.Filter(listing, IsPdfName)|
    ensures forall i :: 0 <= i < |steps| ==> steps[i].source == Seqs.Filter(listing, IsPdfName)[i]
    ensures forall i :: 0 <= i < |steps| ==> (steps[i].Written? <==> converts(steps[i].source))
    ensures forall i :: 0 <= i < |steps| && steps[i].Written? ==>
      && steps[i].output == OutputName(steps[i].source)
      && EndsWith(steps[i].output, Txt)
      && |steps[i].output| == |steps[i].source|
  {
    var pdfs := Seqs.Filter(listing, IsPdfName);
    seq(|pdfs|, i requires 0 <= i < |pdfs| => StepFor(pdfs[i], converts))
  }

  /** The loop body for one ".pdf" name. */
  function StepFor(name: string, converts: string -> bool): (step: Step)
    requires IsPdfName(name)
    ensures step.source == name
    ensures step.Written? <==> converts(name)
    ensures step.Written? ==> EndsWith(step.output, Txt) && |step.output| == |name|
  {
    OutputNameEndsInTxt(name);
    if converts(name) then Written(name, OutputName(name)) else Reported(name)
  }
}
