/** The college identity card: extract_college_info, which reads name,
    course, department, contact number, validity, address and father's name
    from the OCR text by looking for labels. */
module CollegeCard {
  import opened Text
  import opened Dates
  import opened Tokenizer

  /** The record extract_college_info fills. */
  datatype CollegeInfo = CollegeInfo(
    name: string, course: string, department: string, contactNo: string,
    validity: string, address: string, fatherName: string, idType: string)

  predicate HasNameLabel(w: string) { Contains(w, "Name") }
  predicate HasCourseLabel(w: string) { Contains(w, "B.Tech") || Contains(w, "Course") }
  predicate HasDepartmentLabel(w: string) { Contains(w, "Department") || Contains(w, "Dept") }
  predicate HasContactLabel(w: string) { Contains(w, "Contact No") || Contains(w, "Phone") }
  predicate HasValidityLabel(w: string) { Contains(w, "Validity") }
  predicate HasAddressLabel(w: string) { Contains(w, "Address") }

  /** The token after the name does not continue the name when its lower
      case holds one of these words. */
  predicate EndsName(w: string) {
    var lw := Lower(w);
    Contains(lw, "course") || Contains(lw, "department") || Contains(lw, "b.tech")
  }

  /** The address stops before a token whose lower case holds one of these. */
  predicate EndsAddress(w: string) {
    var lw := Lower(w);
    Contains(lw, "proctor") || Contains(lw, "signature") || Contains(lw, "validity")
  }

  /** The token after the first name label, followed by a blank and the
      next token unless that one ends the name; "" when there is no label or
      it is the last token. */
  function NameField(words: seq<string>): (name: string)
    ensures (forall k :: 0 <= k < |words| - 1 ==> !IsFirst(words, HasNameLabel, k)) ==> name == ""
    ensures forall k :: IsFirst(words, HasNameLabel, k) ==>
      name == (if k + 1 == |words| then ""
        else if k + 2 < |words| && !EndsName(words[k + 2]) then words[k + 1] + " " + words[k + 2]
        else words[k + 1])
    ensures name != "" ==> exists k ::
      && IsFirst(words, HasNameLabel, k) && k + 1 < |words|
      && name == if k + 2 < |words| && !EndsName(words[k + 2]) then words[k + 1] + " " + words[k + 2] else words[k + 1]
  {
    var i := FindFirst(words, HasNameLabel);
    if i != -1 && i + 1 < |words| then
      if i + 2 < |words| && !EndsName(words[i + 2]) then words[i + 1] + " " + words[i + 2]
      else words[i + 1]
    else
      assert forall k :: 0 <= k < |words| - 1 ==> !IsFirst(words, HasNameLabel, k) by {
        forall k | 0 <= k < |words| - 1 && IsFirst(words, HasNameLabel, k) ensures false {
          FindFirstIs(words, HasNameLabel, k);
        }
      }
      ""
  }

  /** The course: the first token holding "B.Tech" itself, or else the token
      after the first token holding "Course". */
  function CourseField(words: seq<string>): (c: string)
    ensures (forall k :: 0 <= k < |words| ==> !HasCourseLabel(words[k])) ==> c == ""
    ensures forall k :: IsFirst(words, HasCourseLabel, k) ==>
      c == (if Contains(words[k], "B.Tech") then words[k] else if k + 1 < |words| then words[k + 1] else "")
  {
    var i := FindFirst(words, HasCourseLabel);
    assert forall k :: IsFirst(words, HasCourseLabel, k) ==> k == i by {
      forall k | IsFirst(words, HasCourseLabel, k) ensures k == i {
        FindFirstIs(words, HasCourseLabel, k);
      }
    }
    if i == -1 then ""
    else if Contains(words[i], "B.Tech") then words[i]
    else if i + 1 < |words| then words[i + 1]
    else ""
  }

  /** The field after a label: the token following the first token that
      satisfies the label test, or "" when there is none. */
  function AfterLabel(words: seq<string>, isLabel: string -> bool): (r: string)
    ensures (forall k :: 0 <= k < |words| - 1 ==> !IsFirst(words, isLabel, k)) ==> r == ""
    ensures r != "" ==> exists k :: IsFirst(words, isLabel, k) && k + 1 < |words| && r == words[k + 1]
    ensures forall k :: IsFirst(words, isLabel, k) ==> r == if k + 1 < |words| then words[k + 1] else ""
  {
    var i := FindFirst(words, isLabel);
    if i != -1 && i + 1 < |words| then words[i + 1]
    else
      assert forall k :: 0 <= k < |words| - 1 ==> !IsFirst(words, isLabel, k) by {
        forall k | 0 <= k < |words| - 1 && IsFirst(words, isLabel, k) ensures false {
          FindFirstIs(words, isLabel, k);
        }
      }
      ""
  }

  /** The contact number: the digits of the token after the first contact
      label; DigitsOnlyPicks gives their order and number. */
  function ContactField(words: seq<string>): (contact: string)
    ensures AllDigits(contact)
    ensures |contact| <= |AfterLabel(words, HasContactLabel)|
    ensures forall c :: c in contact <==> c in AfterLabel(words, HasContactLabel) && IsDigit(c)
  {
    DigitsOnly(AfterLabel(words, HasContactLabel))
  }

  /** The validity: the token after the first "Validity" label, read as
      "%m/%d/%Y" when it holds a '/' and printed as "%Y-%m-%d"; "" when
      there is no such token, it has no '/', or it is not a date. */
  function ValidityField(words: seq<string>): (v: string)
    ensures v == "" || '/' !in v
    ensures v != "" ==> var t := AfterLabel(words, HasValidityLabel);
      ParseDate(t, MonthDayYear).Some? && v == FormatIso(ParseDate(t, MonthDayYear).value)
    ensures forall k ::
      (IsFirst(words, HasValidityLabel, k) && k + 1 < |words| && '/' in words[k + 1] && ParseDate(words[k + 1], MonthDayYear).Some?) ==>
      v == FormatIso(ParseDate(words[k + 1], MonthDayYear).value)
    ensures var t := AfterLabel(words, HasValidityLabel); v == "" <==> '/' !in t || ParseDate(t, MonthDayYear).None?
  {
    var t := AfterLabel(words, HasValidityLabel);
    if '/' in t then
      match ParseDate(t, MonthDayYear)
      case Some(d) => FormatIso(d)
      case None => ""
    else ""
  }

  /** The run of tokens from i up to, not including, the first token that
      ends the address. */
  function AddressParts(words: seq<string>, i: nat): (parts: seq<string>)
    requires i <= |words|
    ensures i + |parts| <= |words|
    ensures forall k :: 0 <= k < |parts| ==> parts[k] == words[i + k] && !EndsAddress(parts[k])
    ensures i + |parts| == |words| || EndsAddress(words[i + |parts|])
    decreases |words| - i
  {
    if i == |words| || EndsAddress(words[i]) then []
    else [words[i]] + AddressParts(words, i + 1)
  }

  /** The while loop of extract_college_info that collects the address
      tokens after the label. */
  method ScanAddress(words: seq<string>, start: nat) returns (parts: seq<string>)
    requires start <= |words|
    ensures parts == AddressParts(words, start)
  {
    parts := [];
    var current := start;
    while current < |words| && !EndsAddress(words[current])
      invariant start <= current <= |words|
      invariant AddressParts(words, start) == parts + AddressParts(words, current)
      decreases |words| - current
    {
      parts := parts + [words[current]];
      current := current + 1;
    }
  }

  /** The address: the tokens after the first "Address" label, joined with
      blanks; "" when there is no label. */
  function AddressField(words: seq<string>): (a: string)
    ensures (forall k :: 0 <= k < |words| ==> !HasAddressLabel(words[k])) ==> a == ""
    ensures forall k :: IsFirst(words, HasAddressLabel, k) ==> a == Join(AddressParts(words, k + 1), " ")
  {
    var i := FindFirst(words, HasAddressLabel);
    assert forall k :: IsFirst(words, HasAddressLabel, k) ==> k == i by {
      forall k | IsFirst(words, HasAddressLabel, k) ensures k == i {
        FindFirstIs(words, HasAddressLabel, k);
      }
    }
    if i == -1 then "" else Join(AddressParts(words, i + 1), " ")
  }

  /** One of the two relation markers of (S/o|D/o) starts at p. */
  predicate MarkerAt(s: string, p: int) {
    OccursAt(s, "S/o", p) || OccursAt(s, "D/o", p)
  }

  /** ",\s*Vill-" matches at j: a comma, then the longest whitespace run,
      then "Vill-". A shorter run cannot be followed by "Vill-", whose
      first letter is not whitespace. */
  predicate CommaVillAt(s: string, j: int) {
    0 <= j < |s| && s[j] == ',' && OccursAt(s, "Vill-", SpaceRunEnd(s, j + 1))
  }

  /** The lazy group (.*?) started at e: the first position j at or after
      from where ",\s*Vill-" matches, with no line break before it, since
      '.' does not match a line break. */
  function LazyEnd(s: string, from: nat): (r: Option<nat>)
    requires from <= |s|
    ensures r.Some? ==> from <= r.value && CommaVillAt(s, r.value)
    ensures r.Some? ==> forall k :: from <= k < r.value ==> !CommaVillAt(s, k) && s[k] != '\n'
    decreases |s| - from
  {
    if from == |s| then None
    else if CommaVillAt(s, from) then Some(from)
    else if s[from] == '\n' then None
    else LazyEnd(s, from + 1)
  }

  /** What the pattern captures as group 2 when its match starts at p: the
      marker, the longest whitespace run after it (at least one character),
      then the shortest group that ",\s*Vill-" follows. */
  function GroupAt(s: string, p: int): Option<string> {
    if 0 <= p && MarkerAt(s, p) then
      var e := SpaceRunEnd(s, p + 3);
      if e == p + 3 then None
      else match LazyEnd(s, e)
        case Some(j) => Some(s[e..j])
        case None => None
    else None
  }

  /** The first position from p to n, both included, that satisfies hit,
      or -1. */
  function FirstHit(hit: nat -> bool, p: nat, n: nat): (q: int)
    requires p <= n
    ensures q == -1 || (p <= q <= n && hit(q))
    decreases n - p
  {
    if hit(p) then p
    else if p == n then -1
    else FirstHit(hit, p + 1, n)
  }

  /** No position that FirstHit passes over satisfies hit. */
  lemma {:induction false} FirstHitSkips(hit: nat -> bool, p: nat, n: nat, k: nat)
    requires p <= k <= n
    requires FirstHit(hit, p, n) == -1 || k < FirstHit(hit, p, n)
    ensures !hit(k)
    decreases k - p
  {
    if p < k {
      FirstHitSkips(hit, p + 1, n, k);
    }
  }

  /** re.search: the leftmost position at or after p where the pattern
      matches, or -1. */
  function SearchFrom(s: string, p: nat): (q: int)
    requires p <= |s|
    ensures q == -1 || (p <= q <= |s| && GroupAt(s, q).Some?)
  {
    FirstHit(k => GroupAt(s, k).Some?, p, |s|)
  }

  /** No position that SearchFrom passes over has a match. */
  lemma SearchFromSkips(s: string, p: nat, k: nat)
    requires p <= k <= |s|
    requires SearchFrom(s, p) == -1 || k < SearchFrom(s, p)
    ensures GroupAt(s, k).None?
  {
    FirstHitSkips(k => GroupAt(s, k).Some?, p, |s|, k);
  }

  /** The father's name: group 2 of the first match of
      (S/o|D/o)\s+(.*?),\s*Vill- in the address, or "". */
  function FatherField(address: string): (f: string)
    ensures (forall q :: 0 <= q <= |address| ==> GroupAt(address, q).None?) ==> f == ""
    ensures f != "" ==> exists q :: 0 <= q <= |address| && GroupAt(address, q) == Some(f)
  {
    if Contains(address, "S/o") || Contains(address, "D/o") then
      var q := SearchFrom(address, 0);
      if q == -1 then "" else GroupAt(address, q).value
    else ""
  }

  /** extract_college_info on the tokens. Nothing in it can raise. */
  function CollegeFromTokens(words: seq<string>): (info: CollegeInfo)
    ensures info.idType == "COLLEGE ID"
    ensures AllDigits(info.contactNo)
    ensures info.validity == "" || '/' !in info.validity
    ensures info.name == NameField(words) && info.course == CourseField(words)
    ensures info.contactNo == ContactField(words) && info.validity == ValidityField(words)
    ensures forall k :: IsFirst(words, HasDepartmentLabel, k) ==>
      info.department == if k + 1 < |words| then words[k + 1] else ""
    ensures (forall k :: 0 <= k < |words| ==> !HasDepartmentLabel(words[k])) ==> info.department == ""
    ensures forall k :: IsFirst(words, HasAddressLabel, k) ==> info.address == Join(AddressParts(words, k + 1), " ")
    ensures info.fatherName == FatherField(info.address)
  {
    var address := AddressField(words);
    CollegeInfo(NameField(words), CourseField(words), AfterLabel(words, HasDepartmentLabel),
      ContactField(words), ValidityField(words), address, FatherField(address), "COLLEGE ID")
  }

  /** extract_college_info. The text loses its periods before the labels
      are looked up, so "B.Tech" is never seen: the course is always the
      token after the first "Course" token. */
  function ExtractCollege(text: string): (info: CollegeInfo)
    ensures info.idType == "COLLEGE ID"
    ensures info.course == AfterLabel(Tokenize(text), HasCourseWord)
  {
    var words := Tokenize(text);
    CourseOnlyViaCourseLabel(words);
    CollegeFromTokens(words)
  }

  // Properties

  /** A text with no '.' holds no "B.Tech" and no "b.tech". */
  lemma NoPeriodNoBTech(w: string)
    requires '.' !in w
    ensures !Contains(w, "B.Tech") && !Contains(Lower(w), "b.tech")
  {
    ContainsHolds(w, "B.Tech", 1);
    var lw := Lower(w);
    assert '.' !in lw;
    ContainsHolds(lw, "b.tech", 1);
  }

  predicate HasCourseWord(w: string) { Contains(w, "Course") }

  /** On tokens, which hold no '.', the course always comes from the token
      after the first "Course" token: the "B.Tech" tests never fire. */
  lemma CourseOnlyViaCourseLabel(words: seq<string>)
    requires forall k :: 0 <= k < |words| ==> '.' !in words[k]
    ensures CourseField(words) == AfterLabel(words, HasCourseWord)
  {
    forall k | 0 <= k < |words| ensures HasCourseLabel(words[k]) == HasCourseWord(words[k]) {
      NoPeriodNoBTech(words[k]);
    }
    var i := FindFirst(words, HasCourseLabel);
    if i != -1 {
      FindFirstIs(words, HasCourseWord, i);
      NoPeriodNoBTech(words[i]);
    } else {
      assert FindFirst(words, HasCourseWord) == -1;
    }
  }

  /** On tokens, the name goes on to the next token unless that token holds
      "course" or "department" in lower case. */
  lemma NameStopsOnlyAtCourseOrDepartment(w: string)
    requires '.' !in w
    ensures EndsName(w) <==> Contains(Lower(w), "course") || Contains(Lower(w), "department")
  {
    NoPeriodNoBTech(w);
  }

  /** A validity printed by the extractor never reads back as "%m/%d/%Y". */
  lemma ValidityDoesNotReparse(words: seq<string>)
    ensures ValidityField(words) != "" ==> ParseDate(ValidityField(words), MonthDayYear) == None
  {
  }

  /** The pattern, spelled out as the set of its matches: a marker at p,
      a non-empty whitespace run up to e, a group s[e..j] with no line break,
      a comma at j, a whitespace run up to w and "Vill-" at w. */
  predicate PatternMatch(s: string, p: int, e: int, j: int, w: int) {
    && 0 <= p && MarkerAt(s, p) && p + 3 < e <= j < w <= |s|
    && (forall k :: p + 3 <= k < e ==> IsSpace(s[k]))
    && (forall k :: e <= k < j ==> s[k] != '\n')
    && s[j] == ','
    && (forall k :: j + 1 <= k < w ==> IsSpace(s[k]))
    && OccursAt(s, "Vill-", w)
  }

  /** The lazy group finds the first end that works when some later one does. */
  lemma {:induction false} LazyEndFinds(s: string, from: nat, j: nat)
    requires from <= j && CommaVillAt(s, j)
    requires forall k :: from <= k < j ==> s[k] != '\n'
    ensures LazyEnd(s, from).Some? && LazyEnd(s, from).value <= j
    decreases j - from
  {
    if !CommaVillAt(s, from) {
      LazyEndFinds(s, from + 1, j);
    }
  }

  /** What the group captures at p is a match of the pattern, with the
      longest leading whitespace run and the shortest group. */
  lemma GroupIsMatch(s: string, p: int)
    requires GroupAt(s, p).Some?
    ensures exists e, j, w :: PatternMatch(s, p, e, j, w) && GroupAt(s, p) == Some(s[e..j])
  {
    var e := SpaceRunEnd(s, p + 3);
    var j := LazyEnd(s, e).value;
    assert "Vill-"[0] == 'V';
    assert s[SpaceRunEnd(s, j + 1) + 0] == 'V';
    assert PatternMatch(s, p, e, j, SpaceRunEnd(s, j + 1));
  }

  /** Backtracking finds no match that the greedy whitespace run and the
      lazy group miss: wherever the pattern matches at p, GroupAt has a
      group at p. */
  lemma MatchIsFound(s: string, p: int, e: int, j: int, w: int)
    requires PatternMatch(s, p, e, j, w)
    ensures GroupAt(s, p).Some?
  {
    var e0 := SpaceRunEnd(s, p + 3);
    RunEndIsMax(s, p + 3, e);
    assert !IsSpace(',');
    assert j >= e0;
    assert s[w + 0] == "Vill-"[0];
    assert !IsSpace('V');
    RunEndAt(s, j + 1, w);
    LazyEndFinds(s, e0, j);
  }

  /** Wherever the pattern matches, the father's name is the group of the
      leftmost match, which is at or before that one. */
  lemma FatherIsLeftmostMatch(address: string, p: int, e: int, j: int, w: int)
    requires PatternMatch(address, p, e, j, w)
    ensures exists q ::
      && 0 <= q <= p && GroupAt(address, q) == Some(FatherField(address))
      && (forall k :: 0 <= k < q ==> GroupAt(address, k).None?)
  {
    MatchIsFound(address, p, e, j, w);
    assert OccursAt(address, "S/o", p) || OccursAt(address, "D/o", p);
    var q := SearchFrom(address, 0);
    if q == -1 || p < q {
      SearchFromSkips(address, 0, p);
    }
    forall k | 0 <= k < q
      ensures GroupAt(address, k).None?
    {
      SearchFromSkips(address, 0, k);
    }
  }

  /** Where the pattern matches nowhere, there is no father's name. */
  lemma NoMatchNoFather(address: string)
    requires forall p, e, j, w :: !PatternMatch(address, p, e, j, w)
    ensures FatherField(address) == ""
  {
    forall q | 0 <= q <= |address|
      ensures GroupAt(address, q).None?
    {
      if GroupAt(address, q).Some? {
        GroupIsMatch(address, q);
      }
    }
  }
}
