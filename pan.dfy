/** The tax-ID (PAN) card: filter_lines and create_dataframe, which read a
    list of OCR lines, and extract_information, which reads the OCR text. */
module PanCard {
  import opened Text
  import opened Dates
  import opened Tokenizer

  const DepartmentLabel := "INCOME TAX DEPARTMENT"
  const SignatureLabel := "Signature"
  const NumberLabel := "Permanent Account Number"

  predicate HasDepartmentLabel(line: string) { Contains(line, DepartmentLabel) }
  predicate HasSignatureLabel(line: string) { Contains(line, SignatureLabel) }
  predicate HasNumberLabel(line: string) { Contains(line, NumberLabel) }

  /** What filter_lines returns: nothing unless a department line comes at
      or before the first signature line; otherwise the long stripped lines
      from the first department line to the first signature line, both
      included, in order. */
  function FilteredWindow(lines: seq<string>): seq<string> {
    var s := FindFirst(lines, HasDepartmentLabel);
    var e := FindFirst(lines, HasSignatureLabel);
    if e >= 0 && 0 <= s <= e then KeepLong(lines[s..e + 1]) else []
  }

  /** The second loop of filter_lines: the stripped long lines of a window,
      appended one by one. */
  method CollectLong(window: seq<string>) returns (kept: seq<string>)
    ensures kept == KeepLong(window)
  {
    kept := [];
    var j := 0;
    while j < |window|
      invariant 0 <= j <= |window|
      invariant kept == KeepLong(window[..j])
    {
      KeepLongExtend(window, 0, j);
      if IsLong(window[j]) {
        kept := kept + [Strip(window[j])];
      }
      j := j + 1;
    }
    assert window[..|window|] == window;
  }

  /** filter_lines: one pass that records the first department line and
      stops at the first signature line, then a pass over that window. */
  method FilterLines(lines: seq<string>) returns (filtered: seq<string>)
    ensures filtered == FilteredWindow(lines)
  {
    var start := -1;
    var end := -1;
    var i := 0;
    while i < |lines|
      invariant 0 <= i <= |lines|
      invariant forall k :: 0 <= k < i ==> !HasSignatureLabel(lines[k])
      invariant start == -1 ==> forall k :: 0 <= k < i ==> !HasDepartmentLabel(lines[k])
      invariant start != -1 ==> start < i && IsFirst(lines, HasDepartmentLabel, start)
    {
      if HasDepartmentLabel(lines[i]) && start == -1 {
        start := i;
      }
      if HasSignatureLabel(lines[i]) {
        end := i;
        break;
      }
      i := i + 1;
    }
    if end != -1 {
      FindFirstIs(lines, HasSignatureLabel, end);
    }
    filtered := [];
    if start != -1 && end != -1 {
      FindFirstIs(lines, HasDepartmentLabel, start);
      filtered := CollectLong(lines[start..end + 1]);
    } else if end != -1 {
      var s := FindFirst(lines, HasDepartmentLabel);
      assert s == -1 || s > end;
    }
  }

  /** The exceptions create_dataframe can raise. */
  datatype PyError = IndexError | UnboundLocalError

  datatype Result<T> = Ok(value: T) | Err(error: PyError)

  /** The one row create_dataframe puts in its data frame. */
  datatype PanRow = PanRow(id: string, name: string, fatherName: string, dob: string, idType: string)

  /** The loop of create_dataframe over the filtered lines: `pan` is
      reassigned at every number label, so the line after the LAST label
      wins; a label on the last line raises IndexError at once, and no
      label leaves `pan` unbound. */
  method ScanNumberLabels(lines: seq<string>) returns (r: Result<string>)
    ensures var last := FindLast(lines, HasNumberLabel);
      if last == -1 then r == Err(UnboundLocalError)
      else if last == |lines| - 1 then r == Err(IndexError)
      else r == Ok(Strip(lines[last + 1]))
  {
    assert FindLast(lines, HasNumberLabel) == LastBefore(lines, HasNumberLabel, |lines|);
    var pan: Option<string> := None;
    var i := 0;
    while i < |lines|
      invariant 0 <= i <= |lines|
      invariant var l := LastBefore(lines, HasNumberLabel, i);
        (l == -1 && pan == None) || (0 <= l && l + 1 < |lines| && pan == Some(Strip(lines[l + 1])))
    {
      if HasNumberLabel(lines[i]) {
        if i + 1 >= |lines| {
          assert LastBefore(lines, HasNumberLabel, |lines|) == i;
          return Err(IndexError);
        }
        pan := Some(Strip(lines[i + 1]));
      }
      i := i + 1;
    }
    if pan == None {
      return Err(UnboundLocalError);
    }
    r := Ok(pan.value);
  }

  /** create_dataframe: name, father's name and date of birth are filtered
      lines 2, 3 and 4 as they stand (not parsed); the number is the line
      after the LAST number label, because the loop has no break. Fewer than
      five lines is an IndexError, no label leaves `pan` unbound, and a label
      on the last line is an IndexError even when an earlier label exists. */
  method CreateDataframe(texts: seq<string>) returns (r: Result<PanRow>)
    ensures var lines := FilteredWindow(texts);
      var last := FindLast(lines, HasNumberLabel);
      if |lines| < 5 then r == Err(IndexError)
      else if last == -1 then r == Err(UnboundLocalError)
      else if last == |lines| - 1 then r == Err(IndexError)
      else r == Ok(PanRow(lines[last + 1], lines[2], lines[3], lines[4], "PAN"))
  {
    var lines := FilterLines(texts);
    if |lines| < 5 {
      return Err(IndexError);
    }
    var name := Strip(lines[2]);
    var fatherName := Strip(lines[3]);
    var dob := Strip(lines[4]);
    StripOfStripped(lines[2]);
    StripOfStripped(lines[3]);
    StripOfStripped(lines[4]);
    var pan := ScanNumberLabels(lines);
    if pan.Err? {
      return Err(pan.error);
    }
    var last := FindLast(lines, HasNumberLabel);
    StripOfStripped(lines[last + 1]);
    r := Ok(PanRow(pan.value, name, fatherName, dob, "PAN"));
  }

  /** The record extract_information fills. */
  datatype PanInfo = PanInfo(id: string, name: string, fatherName: string, dob: string, idType: string)

  /** strptime(w, "%d/%m/%Y") does not raise. */
  predicate IsDate(w: string) {
    ParseDate(w, DayMonthYear).Some?
  }

  /** The first token that strptime reads as "%d/%m/%Y", printed as
      "%Y-%m-%d"; later dates are ignored, and "" when no token is a date. */
  function FirstDate(words: seq<string>): (dob: string)
    ensures dob == "" <==> forall k :: 0 <= k < |words| ==> !IsDate(words[k])
    ensures dob != "" ==> exists k :: IsFirst(words, IsDate, k) && dob == FormatIso(ParseDate(words[k], DayMonthYear).value)
    ensures forall k :: IsFirst(words, IsDate, k) ==> dob == FormatIso(ParseDate(words[k], DayMonthYear).value)
  {
    var k := FindFirst(words, IsDate);
    if k == -1 then "" else FormatIso(ParseDate(words[k], DayMonthYear).value)
  }

  /** The for/break loop of extract_information over the tokens. */
  method FindBirthDate(words: seq<string>) returns (dob: string)
    ensures dob == FirstDate(words)
  {
    dob := "";
    var i := 0;
    while i < |words|
      invariant 0 <= i <= |words|
      invariant forall k :: 0 <= k < i ==> !IsDate(words[k])
    {
      var parsed := ParseDate(words[i], DayMonthYear);
      if parsed.Some? {
        FindFirstIs(words, IsDate, i);
        dob := FormatIso(parsed.value);
        return;
      }
      i := i + 1;
    }
  }

  /** extract_information on the tokens. It never raises; the number is the
      token after the FIRST token holding the label; name and father's
      name are the tokens at the fixed offsets 6 and 7 when there are more
      than seven tokens, whatever the layout. */
  function PanFromTokens(words: seq<string>): (info: PanInfo)
    ensures info.idType == "PAN"
    ensures info.id != "" ==> exists k :: IsFirst(words, HasNumberLabel, k) && k + 1 < |words| && info.id == words[k + 1]
    ensures forall k :: IsFirst(words, HasNumberLabel, k) ==> info.id == if k + 1 < |words| then words[k + 1] else ""
    ensures (forall k :: 0 <= k < |words| ==> !HasNumberLabel(words[k])) ==> info.id == ""
    ensures |words| > 7 ==> info.name == words[6] && info.fatherName == words[7]
    ensures |words| <= 7 ==> info.name == "" && info.fatherName == ""
    ensures info.dob == FirstDate(words)
    ensures info.dob == "" <==> forall k :: 0 <= k < |words| ==> !IsDate(words[k])
  {
    var idIndex := FindFirst(words, HasNumberLabel);
    var id := if idIndex != -1 && idIndex + 1 < |words| then words[idIndex + 1] else "";
    assert idIndex != -1 ==> IsFirst(words, HasNumberLabel, idIndex);
    var name := if |words| > 7 then words[6] else "";
    var fatherName := if |words| > 7 then words[7] else "";
    PanInfo(id, name, fatherName, FirstDate(words), "PAN")
  }

  /** extract_information. Number and names are whole tokens of the text,
      so they hold no '.' and no '|'. */
  function ExtractPan(text: string): (info: PanInfo)
    ensures info.idType == "PAN"
    ensures info.id == "" || info.id in Tokenize(text)
    ensures info.name == "" || info.name in Tokenize(text)
    ensures info.fatherName == "" || info.fatherName in Tokenize(text)
    ensures '.' !in info.id && '.' !in info.name && '.' !in info.fatherName
  {
    PanFromTokens(Tokenize(text))
  }

  /** A token with no '/' is not a "%d/%m/%Y" date. */
  lemma NoSlashNoDate(w: string)
    requires '/' !in w
    ensures ParseDate(w, DayMonthYear) == None
  {
  }

  /** The tokens of a tax-ID card read top to bottom: department, issuer,
      holder, father, date of birth, number label, number, signature. */
  const SampleTokens: seq<string> := ["INCOME TAX DEPARTMENT", "GOVT OF X", "JOHN DOE", "RICHARD DOE",
    "01/02/1990", "Permanent Account Number", "ABCDE1234F", "Signature"]

  lemma SampleNumberLabel(words: seq<string>)
    requires words == SampleTokens
    ensures FindFirst(words, HasNumberLabel) == 5
  {
    ContainsTooLong(words[0], NumberLabel);
    ContainsTooLong(words[1], NumberLabel);
    ContainsTooLong(words[2], NumberLabel);
    ContainsTooLong(words[3], NumberLabel);
    ContainsTooLong(words[4], NumberLabel);
    assert OccursAt(words[5], NumberLabel, 0);
    FindFirstIs(words, HasNumberLabel, 5);
  }

  lemma SampleDateToken(w: string)
    requires w == "01/02/1990"
    ensures ParseDate(w, DayMonthYear) == Some(Date(1990, 2, 1))
  {
    var d := Date(1990, 2, 1);
    FourDigitYearText(1990);
    assert w == Pad2(1) + "/" + Pad2(2) + "/" + NatToDecimal(1990);
    ParseDayMonthYearPadded(d);
  }

  /** On that card layout the number comes out right, but the fixed
      offsets 6 and 7 give the number and the signature label as the
      holder's and the father's names. */
  lemma SampleLayout(words: seq<string>)
    requires words == SampleTokens
    ensures var info := PanFromTokens(words);
      info.id == "ABCDE1234F" && info.name == "ABCDE1234F" && info.fatherName == "Signature"
  {
    SampleNumberLabel(words);
  }
}
