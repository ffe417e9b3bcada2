/** The OCR tab: the digit runs `re.findall(r'\d+', text)` finds in the text
    the recognition service returns for each image, the `name;runs` row built
    from them, the loop over the uploads and the CSV download. */
module Ocr {
  import opened Wrappers
  import opened Text

  /** Length of the run of digits at the front of `s`. */
  function LeadingDigits(s: string): (k: nat)
    ensures k <= |s| && AllDigits(s[..k]) && (k < |s| ==> !IsDigit(s[k]))
  {
    if s != [] && IsDigit(s[0]) then 1 + LeadingDigits(s[1..]) else 0
  }

  /** `re.findall(r'\d+', s)`: a greedy left-to-right scan for runs of digits. */
  function DigitRuns(s: string): (runs: seq<string>)
    ensures forall j :: 0 <= j < |runs| ==> runs[j] != "" && AllDigits(runs[j])
    decreases |s|
  {
    if s == [] then []
    else if !IsDigit(s[0]) then DigitRuns(s[1..])
    else
      var k := LeadingDigits(s);
      [s[..k]] + DigitRuns(s[k..])
  }

  /** The text between the runs `DigitRuns` finds: before the first, between
      each two, and after the last. */
  function Gaps(s: string): (gaps: seq<string>)
    ensures |gaps| == |DigitRuns(s)| + 1
    ensures forall j :: 0 <= j < |gaps| ==> NoDigits(gaps[j])
    decreases |s|
  {
    if s == [] then [""]
    else if !IsDigit(s[0]) then
      var rest := Gaps(s[1..]);
      [[s[0]] + rest[0]] + rest[1..]
    else
      [""] + Gaps(s[LeadingDigits(s)..])
  }

  /** `gaps[0] + runs[0] + gaps[1] + ... + runs[n-1] + gaps[n]`. */
  function Interleave(gaps: seq<string>, runs: seq<string>): string
    requires |gaps| == |runs| + 1
    decreases |runs|
  {
    if runs == [] then gaps[0] else gaps[0] + runs[0] + Interleave(gaps[1..], runs[1..])
  }

  /** A cut of a text into maximal digit runs and the non-digit text around
      them: every run is non-empty and all digits, no gap holds a digit, and
      two runs are always parted by at least one non-digit. */
  ghost predicate IsTokenization(gaps: seq<string>, runs: seq<string>) {
    && |gaps| == |runs| + 1
    && (forall j :: 0 <= j < |runs| ==> runs[j] != "" && AllDigits(runs[j]))
    && (forall j :: 0 <= j < |gaps| ==> NoDigits(gaps[j]))
    && (forall j :: 0 < j < |runs| ==> gaps[j] != "")
  }

  lemma InterleaveGrowGap(x: string, gaps: seq<string>, runs: seq<string>)
    requires |gaps| == |runs| + 1
    ensures Interleave([x + gaps[0]] + gaps[1..], runs) == x + Interleave(gaps, runs)
  {
    var grown := [x + gaps[0]] + gaps[1..];
    assert grown[1..] == gaps[1..];
  }

  /** The runs and gaps cut the text into pieces that spell it out again, and
      the runs are maximal. */
  lemma {:induction false} Tokenize(s: string)
    ensures IsTokenization(Gaps(s), DigitRuns(s))
    ensures Interleave(Gaps(s), DigitRuns(s)) == s
    decreases |s|
  {
    if s == [] {
    } else if !IsDigit(s[0]) {
      Tokenize(s[1..]);
      InterleaveGrowGap([s[0]], Gaps(s[1..]), DigitRuns(s[1..]));
      assert s == [s[0]] + s[1..];
    } else {
      var k := LeadingDigits(s);
      var t := s[k..];
      Tokenize(t);
      var gaps, runs := Gaps(s), DigitRuns(s);
      assert gaps == [""] + Gaps(t) && runs == [s[..k]] + DigitRuns(t);
      assert gaps[1..] == Gaps(t) && runs[1..] == DigitRuns(t);
      if |runs| > 1 {
        assert t != [] && !IsDigit(t[0]);
        assert gaps[1] == Gaps(t)[0] != "";
      }
      assert s == s[..k] + t;
    }
  }

  lemma {:induction false} SkipGap(g: string, t: string)
    requires NoDigits(g)
    ensures DigitRuns(g + t) == DigitRuns(t)
    ensures Gaps(g + t) == [g + Gaps(t)[0]] + Gaps(t)[1..]
    decreases |g|
  {
    if g == [] {
      assert g + t == t && g + Gaps(t)[0] == Gaps(t)[0];
      assert Gaps(t) == [Gaps(t)[0]] + Gaps(t)[1..];
    } else {
      assert (g + t)[1..] == g[1..] + t;
      SkipGap(g[1..], t);
      assert [g[0]] + (g[1..] + Gaps(t)[0]) == g + Gaps(t)[0];
    }
  }

  lemma {:induction false} LeadingRun(d: string, t: string)
    requires AllDigits(d) && (t == [] || !IsDigit(t[0]))
    ensures LeadingDigits(d + t) == |d|
    decreases |d|
  {
    if d != [] {
      assert (d + t)[1..] == d[1..] + t;
      LeadingRun(d[1..], t);
    }
  }

  lemma TakeRun(d: string, t: string)
    requires d != [] && AllDigits(d) && (t == [] || !IsDigit(t[0]))
    ensures DigitRuns(d + t) == [d] + DigitRuns(t)
    ensures Gaps(d + t) == [""] + Gaps(t)
  {
    LeadingRun(d, t);
    assert (d + t)[..|d|] == d && (d + t)[|d|..] == t;
  }

  lemma {:induction false} InterleaveStart(gaps: seq<string>, runs: seq<string>)
    requires IsTokenization(gaps, runs)
    ensures var s := Interleave(gaps, runs); s == [] || (gaps[0] != [] && s[0] == gaps[0][0]) || (gaps[0] == [] && runs != [] && IsDigit(s[0]))
  {
    if runs != [] && gaps[0] == [] {
      assert runs[0][0] == Interleave(gaps, runs)[0];
    }
  }

  /** What follows the first run of a tokenization is again a tokenization,
      and its text does not start with a digit. */
  lemma TokenizationRest(gaps: seq<string>, runs: seq<string>)
    requires IsTokenization(gaps, runs) && runs != []
    ensures IsTokenization(gaps[1..], runs[1..])
    ensures var rest := Interleave(gaps[1..], runs[1..]); rest == [] || !IsDigit(rest[0])
  {
    assert IsTokenization(gaps[1..], runs[1..]);
    InterleaveStart(gaps[1..], runs[1..]);
    if |runs| > 1 {
      assert gaps[1] != [];
    }
  }

  /** A tokenization is unique: any cut of a text into maximal digit runs is
      the one `DigitRuns` and `Gaps` compute. */
  lemma {:induction false} TokenizationUnique(gaps: seq<string>, runs: seq<string>)
    requires IsTokenization(gaps, runs)
    ensures DigitRuns(Interleave(gaps, runs)) == runs
    ensures Gaps(Interleave(gaps, runs)) == gaps
    decreases |runs|
  {
    if runs == [] {
      SkipGap(gaps[0], "");
      assert gaps[0] + "" == gaps[0];
    } else {
      var rest := Interleave(gaps[1..], runs[1..]);
      TokenizationRest(gaps, runs);
      TokenizationUnique(gaps[1..], runs[1..]);
      TakeRun(runs[0], rest);
      SkipGap(gaps[0], runs[0] + rest);
      assert Interleave(gaps, runs) == gaps[0] + (runs[0] + rest);
      assert runs == [runs[0]] + runs[1..];
      assert gaps[0] + "" == gaps[0];
      assert gaps == [gaps[0]] + gaps[1..];
    }
  }

  /** `s` with every non-digit removed. */
  function DigitsOf(s: string): (d: string)
    ensures AllDigits(d) && |d| <= |s|
    decreases |s|
  {
    if s == [] then []
    else (if IsDigit(s[0]) then [s[0]] else []) + DigitsOf(s[1..])
  }

  lemma {:induction false} DigitsOfRun(d: string, t: string)
    requires AllDigits(d)
    ensures DigitsOf(d + t) == d + DigitsOf(t)
    decreases |d|
  {
    if d == [] {
      assert d + t == t;
    } else {
      assert (d + t)[1..] == d[1..] + t;
      DigitsOfRun(d[1..], t);
    }
  }

  /** The runs, put together, are exactly the digits of the text. */
  lemma {:induction false} RunsSpellDigits(s: string)
    ensures Concat(DigitRuns(s)) == DigitsOf(s)
    decreases |s|
  {
    if s != [] {
      if !IsDigit(s[0]) {
        RunsSpellDigits(s[1..]);
      } else {
        var k := LeadingDigits(s);
        RunsSpellDigits(s[k..]);
        assert s == s[..k] + s[k..];
        DigitsOfRun(s[..k], s[k..]);
        assert ([s[..k]] + DigitRuns(s[k..]))[1..] == DigitRuns(s[k..]);
      }
    }
  }

  /** There are no runs exactly when the text holds no digit. */
  lemma {:induction false} NoRunsIffNoDigits(s: string)
    ensures DigitRuns(s) == [] <==> NoDigits(s)
    decreases |s|
  {
    if s != [] && !IsDigit(s[0]) {
      NoRunsIffNoDigits(s[1..]);
      assert forall i :: 1 <= i < |s| ==> s[i] == s[1..][i - 1];
    }
  }

  /** The text `"Bib #042 Lane3"` gives the runs `042` and `3`. */
  lemma DigitRunsExample()
    ensures DigitRuns("Bib #042 Lane3") == ["042", "3"]
  {
    var gaps, runs := ["Bib #", " Lane", ""], ["042", "3"];
    assert IsTokenization(gaps, runs);
    assert Interleave(gaps, runs) == "Bib #042 Lane3" by {
      assert gaps[1..][1..] == [""] && runs[1..][1..] == [];
    }
    TokenizationUnique(gaps, runs);
  }

  /** One uploaded image as the OCR tab sees it: its file name and the
      description of the first text annotation the service returned, if any. */
  datatype Upload = Upload(name: string, annotation: Option<string>)

  /** `numeros`: the runs of the annotation, or none without an annotation. */
  function Numbers(annotation: Option<string>): (runs: seq<string>)
    ensures forall j :: 0 <= j < |runs| ==> runs[j] != "" && AllDigits(runs[j])
    ensures runs == [] <==> annotation.None? || NoDigits(annotation.value)
  {
    match annotation
    case None => []
    case Some(text) =>
      var found := DigitRuns(text);
      NoRunsIffNoDigits(text);
      if found != [] then found else []
  }

  /** `linha`: the file name, a semicolon and the runs joined by spaces; a
      name and a bare semicolon when there are none. */
  function OcrLine(u: Upload): string {
    var numbers := Numbers(u.annotation);
    if numbers != [] then Line(u.name, Join(' ', numbers)) else u.name + ";"
  }

  /** Both branches of the row agree: it is always the name, `;`, and the runs
      joined by single spaces, so a row without runs ends in `;`. */
  lemma OcrLineShape(u: Upload)
    ensures OcrLine(u) == Line(u.name, Join(' ', Numbers(u.annotation)))
    ensures Numbers(u.annotation) == [] ==> OcrLine(u) == u.name + ";"
  {
  }

  /** A row starts with the file name and `;`; its value is empty when there
      are no runs and otherwise splits at spaces into exactly the runs. */
  lemma OcrLineFields(u: Upload)
    ensures OcrLine(u)[..|u.name|] == u.name && OcrLine(u)[|u.name|] == ';'
    ensures Numbers(u.annotation) == [] ==> OcrLine(u)[|u.name| + 1..] == ""
    ensures Numbers(u.annotation) != [] ==> Split(OcrLine(u)[|u.name| + 1..], ' ') == Numbers(u.annotation)
  {
    OcrLineShape(u);
    var runs := Numbers(u.annotation);
    if runs != [] {
      forall j | 0 <= j < |runs|
        ensures ' ' !in runs[j]
      {
        assert AllDigits(runs[j]);
      }
      SplitJoin(' ', runs);
    }
  }

  /** A row holds no newline when the file name holds none. */
  lemma OcrLineSingle(u: Upload)
    requires '\n' !in u.name
    ensures '\n' !in OcrLine(u)
  {
    var runs := Numbers(u.annotation);
    forall j | 0 <= j < |runs|
      ensures '\n' !in runs[j]
    {
      assert AllDigits(runs[j]);
    }
    JoinAvoids(' ', runs, '\n');
    OcrLineShape(u);
    assert OcrLine(u) == u.name + (";" + Join(' ', runs));
  }

  /** The loop over the uploads: one row per image, in upload order. */
  method RunOcr(uploads: seq<Upload>) returns (results: seq<string>)
    ensures |results| == |uploads|
    ensures forall i :: 0 <= i < |uploads| ==> results[i] == OcrLine(uploads[i])
  {
    results := [];
    var i := 0;
    while i < |uploads|
      invariant 0 <= i <= |uploads|
      invariant |results| == i
      invariant forall j :: 0 <= j < i ==> results[j] == OcrLine(uploads[j])
    {
      results := results + [OcrLine(uploads[i])];
      i := i + 1;
    }
  }

  /** The OCR download: all rows joined by newlines, offered when there is at
      least one row. */
  function OcrCsv(results: seq<string>): (csv: Option<string>)
    ensures csv.Some? <==> results != []
  {
    if results != [] then Some(Join('\n', results)) else None
  }

  /** The downloaded file has exactly one line per image, in upload order,
      rows without runs included, when no file name holds a newline. */
  lemma OcrCsvRows(uploads: seq<Upload>, results: seq<string>)
    requires |results| == |uploads| > 0
    requires forall i :: 0 <= i < |uploads| ==> results[i] == OcrLine(uploads[i])
    requires forall i :: 0 <= i < |uploads| ==> '\n' !in uploads[i].name
    ensures OcrCsv(results).Some?
    ensures Split(OcrCsv(results).value, '\n') == results
  {
    forall i | 0 <= i < |results|
      ensures '\n' !in results[i]
    {
      OcrLineSingle(uploads[i]);
    }
    SplitJoin('\n', results);
  }
}
