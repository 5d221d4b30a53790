/** The national-ID (Aadhar) card: extract_information1, which reads name,
    gender, number and date of birth from the OCR text. */
module AadharCard {
  import opened Text
  import opened Dates
  import opened Tokenizer

  /** The record extract_information1 fills. */
  datatype AadharInfo = AadharInfo(id: string, name: string, gender: string, dob: string, idType: string)

  predicate HasDobLabel(w: string) { Contains(w, "DOB") }

  /** The gender test on a token: "male" or "female" in its lower-cased text. */
  predicate MentionsGender(w: string) {
    Contains(Lower(w), "male") || Contains(Lower(w), "female")
  }

  /** re.match(r'\d{4} \d{4} \d{4}', w): the token starts with three groups
      of four digits separated by single blanks; anything may follow. */
  predicate HasNumberShape(w: string) {
    |w| >= 14 && AllDigits(w[0..4]) && w[4] == ' ' && AllDigits(w[5..9]) && w[9] == ' ' && AllDigits(w[10..14])
  }

  /** re.match(r'\d{2}/\d{2}/\d{4}', w): the token starts with a date shape. */
  predicate HasDateShape(w: string) {
    |w| >= 10 && AllDigits(w[0..2]) && w[2] == '/' && AllDigits(w[3..5]) && w[5] == '/' && AllDigits(w[6..10])
  }

  /** The test that picks the date-of-birth token. */
  predicate IsDobCandidate(w: string) {
    Contains(w, "DOB:") || HasDateShape(w)
  }

  /** A match of (male|female): where it starts and how long it is. */
  datatype Match = Match(start: nat, len: nat)

  /** The leftmost match of (male|female) in lw at or after p, trying "male"
      before "female" at each position, as the regular expression does. */
  function MatchFrom(lw: string, p: nat): (r: Option<Match>)
    requires p <= |lw|
    ensures r.Some? ==> p <= r.value.start
    ensures r.Some? ==> (r.value.len == 4 && OccursAt(lw, "male", r.value.start)) ||
                        (r.value.len == 6 && OccursAt(lw, "female", r.value.start) && !OccursAt(lw, "male", r.value.start))
    ensures r.Some? ==> forall k :: p <= k < r.value.start ==> !OccursAt(lw, "male", k) && !OccursAt(lw, "female", k)
    ensures r.None? ==> forall k :: p <= k ==> !OccursAt(lw, "male", k) && !OccursAt(lw, "female", k)
    decreases |lw| - p
  {
    if OccursAt(lw, "male", p) then Some(Match(p, 4))
    else if OccursAt(lw, "female", p) then Some(Match(p, 6))
    else if p == |lw| then None
    else MatchFrom(lw, p + 1)
  }

  /** re.search(r"(male|female)", w, re.IGNORECASE).group(0), capitalized;
      "" when there is no match. */
  function GenderOf(w: string): (g: string)
    ensures g == "" || g == "Male" || g == "Female"
  {
    var lw := Lower(w);
    match MatchFrom(lw, 0)
    case None => ""
    case Some(m) =>
      var word := w[m.start..m.start + m.len];
      LowerSlice(w, m.start, m.start + m.len);
      if m.len == 4 then
        CapitalizeLetters(word, "male");
        "Male"
      else
        CapitalizeLetters(word, "female");
        "Female"
  }

  /** The first "male" in the lower-cased token is the tail of a "female". */
  predicate FemaleFirst(lw: string) {
    var m := IndexOfText(lw, "male", 0);
    m >= 2 && lw[m - 2..m] == "fe"
  }

  /** Lower-casing commutes with slicing. */
  lemma LowerSlice(s: string, a: nat, b: nat)
    requires a <= b <= |s|
    ensures Lower(s[a..b]) == Lower(s)[a..b]
  {
  }

  /** A text whose lower case is the lower-case word `lit` capitalizes to
      `lit` with an upper-case first letter. */
  lemma CapitalizeLetters(x: string, lit: string)
    requires |lit| > 0 && Lower(x) == lit && forall i :: 0 <= i < |lit| ==> 'a' <= lit[i] <= 'z'
    ensures Capitalize(x) == [UpperChar(lit[0])] + lit[1..]
  {
    assert LowerChar(x[0]) == lit[0];
    assert Lower(x[1..]) == Lower(x)[1..];
  }

  lemma FemaleHoldsMale()
    ensures OccursAt("female", "male", 2)
  {
  }

  /** "female" holds "male", so the gender test is the test for "male". */
  lemma MentionsGenderIsMale(w: string)
    ensures MentionsGender(w) <==> Contains(Lower(w), "male")
  {
    var lw := Lower(w);
    if Contains(lw, "female") {
      var i :| 0 <= i <= |lw| - 6 && OccursAt(lw, "female", i);
      FemaleHoldsMale();
      OccursWithin(lw, "female", "male", i, 2);
    }
  }

  /** A token that passes the gender test always yields a match, so the
      gender is never "" for it. */
  lemma GenderFound(w: string)
    requires MentionsGender(w)
    ensures GenderOf(w) != ""
  {
    var lw := Lower(w);
    if Contains(lw, "male") {
      var i :| 0 <= i <= |lw| - 4 && OccursAt(lw, "male", i);
    } else {
      var i :| 0 <= i <= |lw| - 6 && OccursAt(lw, "female", i);
    }
  }

  /** A leftmost match of "female" puts the first "male" two places later. */
  lemma FemaleMatchFemaleFirst(lw: string, p: nat)
    requires OccursAt(lw, "female", p) && !OccursAt(lw, "male", p)
    requires forall k :: 0 <= k < p ==> !OccursAt(lw, "male", k)
    ensures FemaleFirst(lw)
  {
    FemaleHoldsMale();
    OccursWithin(lw, "female", "male", p, 2);
    assert lw[p + 1] == "female"[1];
    assert "female"[1] != "male"[0];
    IndexOfTextAt(lw, "male", 0, p + 2);
    assert lw[p + 0] == "female"[0];
    assert lw[p..p + 2] == [lw[p], lw[p + 1]] == "fe";
  }

  /** A leftmost match of "male" is not the tail of a "female". */
  lemma MaleMatchNotFemaleFirst(lw: string, p: nat)
    requires OccursAt(lw, "male", p)
    requires forall k :: 0 <= k < p ==> !OccursAt(lw, "male", k) && !OccursAt(lw, "female", k)
    ensures !FemaleFirst(lw)
  {
    IndexOfTextAt(lw, "male", 0, p);
    assert "fe" + "male" == "female";
    if p >= 2 && lw[p - 2..p] == "fe" {
      SliceOccurs(lw, p - 2, p);
      OccursConcat(lw, "fe", "male", p - 2);
      assert false;
    }
  }

  /** The gender is "Female" exactly when the first "male" of the token is
      the tail of a "female", and "Male" otherwise. */
  lemma GenderIsFemaleIff(w: string)
    requires MentionsGender(w)
    ensures GenderOf(w) == "Female" <==> FemaleFirst(Lower(w))
    ensures GenderOf(w) == "Male" <==> !FemaleFirst(Lower(w))
  {
    GenderFound(w);
    var lw := Lower(w);
    var m := MatchFrom(lw, 0).value;
    if m.len == 6 {
      FemaleMatchFemaleFirst(lw, m.start);
    } else {
      MaleMatchNotFemaleFirst(lw, m.start);
    }
  }

  /** The name: the token just before the first token holding "DOB"; ""
      when no token holds it or the first one is the first token. */
  function NameOf(words: seq<string>): (name: string)
    ensures (exists k :: 1 <= k && IsFirst(words, HasDobLabel, k) && name == words[k - 1]) ||
            (name == "" && forall k :: 1 <= k ==> !IsFirst(words, HasDobLabel, k))
    ensures forall k :: IsFirst(words, HasDobLabel, k) ==> name == if k >= 1 then words[k - 1] else ""
  {
    var nameIndex := FindFirst(words, HasDobLabel) - 1;
    if nameIndex >= 0 then
      assert IsFirst(words, HasDobLabel, nameIndex + 1);
      words[nameIndex]
    else
      assert forall k :: 1 <= k ==> !IsFirst(words, HasDobLabel, k) by {
        forall k | 1 <= k && IsFirst(words, HasDobLabel, k) ensures false {
          FindFirstIs(words, HasDobLabel, k);
        }
      }
      ""
  }

  /** The gender: read from the first token that passes the gender test;
      "" when none does. */
  function GenderField(words: seq<string>): (g: string)
    ensures g == "" || g == "Male" || g == "Female"
    ensures g == "" <==> forall k :: 0 <= k < |words| ==> !MentionsGender(words[k])
    ensures g != "" ==> exists k :: IsFirst(words, MentionsGender, k) && g == GenderOf(words[k])
    ensures forall k :: IsFirst(words, MentionsGender, k) ==> g == GenderOf(words[k])
  {
    var i := FindFirst(words, MentionsGender);
    if i != -1 then
      GenderFound(words[i]);
      GenderOf(words[i])
    else ""
  }

  /** The number: the whole first token that starts with the number shape,
      digits and anything after them included; "" when none does. */
  function NumberOf(words: seq<string>): (id: string)
    ensures id == "" <==> forall k :: 0 <= k < |words| ==> !HasNumberShape(words[k])
    ensures id != "" ==> exists k :: IsFirst(words, HasNumberShape, k) && id == words[k]
    ensures forall k :: IsFirst(words, HasNumberShape, k) ==> id == words[k]
  {
    var i := FindFirst(words, HasNumberShape);
    if i != -1 then words[i] else ""
  }

  /** The first "DOB:" of w starts at p, and q is where the next one starts,
      or the end of w. */
  predicate DobBounds(w: string, p: int, q: int) {
    && OccursAt(w, "DOB:", p) && (forall k :: 0 <= k < p ==> !OccursAt(w, "DOB:", k))
    && p + 4 <= q <= |w| && (q == |w| || OccursAt(w, "DOB:", q))
    && (forall k :: p + 4 <= k < q ==> !OccursAt(w, "DOB:", k))
  }

  /** The text strptime is given for a chosen token: the part between the
      first "DOB:" and the next one, stripped, when the token holds "DOB:";
      the token itself otherwise. */
  function DobText(w: string): (t: string)
    ensures !Contains(w, "DOB:") ==> t == w
    ensures forall p, q :: DobBounds(w, p, q) ==> t == Strip(w[p + 4..q])
  {
    if Contains(w, "DOB:") then
      SplitAtLeastTwo(w, "DOB:");
      assert forall p, q :: DobBounds(w, p, q) ==> Split(w, "DOB:")[1] == w[p + 4..q] by {
        forall p, q | DobBounds(w, p, q) ensures Split(w, "DOB:")[1] == w[p + 4..q] {
          SplitSecondPiece(w, "DOB:", p, q);
        }
      }
      Strip(Split(w, "DOB:")[1])
    else w
  }

  /** A token that holds "DOB:" has its bounds, so DobText always reads
      the text after the first label. */
  lemma DobBoundsExist(w: string)
    requires Contains(w, "DOB:")
    ensures exists p, q :: DobBounds(w, p, q)
  {
    ContainsIndexOf(w, "DOB:");
    var p := IndexOfText(w, "DOB:", 0);
    var q0 := IndexOfText(w, "DOB:", p + 4);
    var q := if q0 == -1 then |w| else q0;
    assert DobBounds(w, p, q);
  }

  /** The date of birth: the first token that holds "DOB:" or starts with a
      date shape is read as "%d/%m/%Y" (after "DOB:" when it holds one) and
      printed as "%Y-%m-%d"; "" when there is no such token or it does not
      read as a date. */
  function DobOf(words: seq<string>): (dob: string)
    ensures (forall k :: 0 <= k < |words| ==> !IsDobCandidate(words[k])) ==> dob == ""
    ensures dob != "" ==> exists k ::
      && IsFirst(words, IsDobCandidate, k)
      && ParseDate(DobText(words[k]), DayMonthYear).Some?
      && dob == FormatIso(ParseDate(DobText(words[k]), DayMonthYear).value)
    ensures forall k :: IsFirst(words, IsDobCandidate, k) ==>
      dob == (if ParseDate(DobText(words[k]), DayMonthYear).Some?
        then FormatIso(ParseDate(DobText(words[k]), DayMonthYear).value) else "")
  {
    var i := FindFirst(words, IsDobCandidate);
    var chosen := if i != -1 then words[i] else "";
    EmptyIsNotADate(DayMonthYear);
    match ParseDate(DobText(chosen), DayMonthYear)
    case Some(d) => FormatIso(d)
    case None => ""
  }

  /** extract_information1 on the tokens. Nothing in it can raise, so the
      record always comes back with "AADHAR" as its type. */
  function AadharFromTokens(words: seq<string>): (info: AadharInfo)
    ensures info.idType == "AADHAR"
    ensures info.gender == "" || info.gender == "Male" || info.gender == "Female"
    ensures info.id == "" || HasNumberShape(info.id)
    ensures info.dob == "" || '/' !in info.dob
    ensures forall k :: IsFirst(words, HasNumberShape, k) ==> info.id == words[k]
    ensures (forall k :: 0 <= k < |words| ==> !HasNumberShape(words[k])) ==> info.id == ""
    ensures forall k :: IsFirst(words, HasDobLabel, k) ==> info.name == if k >= 1 then words[k - 1] else ""
    ensures (forall k :: 0 <= k < |words| ==> !HasDobLabel(words[k])) ==> info.name == ""
    ensures forall k :: IsFirst(words, MentionsGender, k) ==> info.gender == GenderOf(words[k]) && info.gender != ""
    ensures (forall k :: 0 <= k < |words| ==> !MentionsGender(words[k])) ==> info.gender == ""
    ensures info.dob == DobOf(words)
  {
    var dob := DobOf(words);
    assert dob != "" ==> '/' !in dob;
    AadharInfo(NumberOf(words), NameOf(words), GenderField(words), dob, "AADHAR")
  }

  /** extract_information1. Number and name are whole tokens of the text,
      so they hold no '.' and no '|'. */
  function ExtractAadhar(text: string): (info: AadharInfo)
    ensures info.idType == "AADHAR"
    ensures info.id == "" || info.id in Tokenize(text)
    ensures info.name == "" || info.name in Tokenize(text)
    ensures '.' !in info.id && '.' !in info.name
  {
    AadharFromTokens(Tokenize(text))
  }

  /** A token that holds "DOB:" once gives strptime the stripped text after
      the label. */
  lemma DobTextAfterLabel(w: string, p: nat)
    requires OccursAt(w, "DOB:", p)
    requires forall k :: 0 <= k < p ==> !OccursAt(w, "DOB:", k)
    requires forall k :: p + 4 <= k ==> !OccursAt(w, "DOB:", k)
    ensures DobText(w) == Strip(w[p + 4..])
  {
    assert Contains(w, "DOB:");
    IndexOfTextAt(w, "DOB:", 0, p);
    var pieces := Split(w, "DOB:");
    assert pieces == [w[..p]] + SplitFrom(w, "DOB:", p + 4);
    assert SplitFrom(w, "DOB:", p + 4) == [w[p + 4..]];
  }
}
