/** The request pipeline of app.py: main_content's gates (ID image, face
    image, face match), then process_pan_aadhar or process_college_id, which
    hash the identity, look it up, stop on a duplicate, normalise the dates,
    attach the face embedding and insert one row. Image reading, cropping,
    face detection and comparison, OCR and the embedding are outside the
    model: their results come in as parameters. */
module Pipeline {
  import opened Text
  import opened Dates
  import Tokenizer
  import PanCard
  import AadharCard
  import CollegeCard
  import opened Storage

  predicate IsLowerHex(c: char) {
    '0' <= c <= '9' || 'a' <= c <= 'f'
  }

  /** hexdigest() of SHA-256: 64 lower-case hexadecimal digits. */
  type Digest = s: string | |s| == 64 && forall i :: 0 <= i < |s| ==> IsLowerHex(s[i])
    witness seq(64, _ => '0')

  /** The identity of a college card: the contact number followed by the
      digest of the name, hashed again. */
  function CollegeKey(hashId: string -> Digest, contactNo: string, name: string): Digest {
    hashId(contactNo + hashId(name))
  }

  /** When neither hashing step collides on these two cards, the college
      identity determines both the contact number and the name: the name's
      digest has a fixed length, so the contact number cannot borrow
      characters from it. (No hash into 64 characters is collision-free on
      all strings, so the hypotheses are about the two cards only.) */
  lemma CollegeKeyInjective(hashId: string -> Digest, c1: string, n1: string, c2: string, n2: string)
    requires hashId(n1) == hashId(n2) ==> n1 == n2
    requires hashId(c1 + hashId(n1)) == hashId(c2 + hashId(n2)) ==> c1 + hashId(n1) == c2 + hashId(n2)
    ensures CollegeKey(hashId, c1, n1) == CollegeKey(hashId, c2, n2) ==> c1 == c2 && n1 == n2
  {
    if CollegeKey(hashId, c1, n1) == CollegeKey(hashId, c2, n2) {
      var t1 := c1 + hashId(n1);
      var t2 := c2 + hashId(n2);
      assert t1 == t2;
      assert |c1| == |c2|;
      assert c1 == t1[..|c1|];
      assert c2 == t2[..|c2|];
      assert hashId(n1) == t1[|c1|..];
      assert hashId(n2) == t2[|c2|..];
    }
  }

  /** The tables of the store. */
  datatype Table = UsersTable | AadharTable | CollegeTable

  /** What a lookup compares: the hashed id, or for a college card the
      contact number, or the name with the father's name. */
  datatype Key = ById(id: string) | ByContact(contactNo: string) | ByNameAndFather(name: string, fatherName: string)

  /** The calls the pipeline makes into the world outside the model, in order. */
  datatype Step =
    | ReadFaceImage | ReadIdImage | CropIdCard | DetectFace | SaveFace | CompareFaces | ExtractText
    | Fetch(table: Table, key: Key) | CheckDuplicate(table: Table, key: Key)
    | GetEmbedding | Insert(table: Table)

  /** The exceptions that escape the pipeline. */
  datatype AppError =
    | DobNotIsoDate        // strptime(DOB, "%Y-%m-%d") raises ValueError
    | CollegeAlreadyExists // insert_college_id raises ValueError on the unique key

  /** How a request ends. */
  datatype Outcome = NoIdImage | NoFaceImage | FaceMismatch | Duplicate | Stored | Raised(error: AppError)

  /** The table a step touches, if any. */
  function StepTable(s: Step): Option<Table> {
    match s
    case Fetch(t, _) => Some(t)
    case CheckDuplicate(t, _) => Some(t)
    case Insert(t) => Some(t)
    case _ => None
  }

  predicate OnlyTable(steps: seq<Step>, t: Table) {
    forall i :: 0 <= i < |steps| ==> StepTable(steps[i]).None? || StepTable(steps[i]) == Some(t)
  }

  predicate NoInsert(steps: seq<Step>) {
    forall i :: 0 <= i < |steps| ==> !steps[i].Insert?
  }

  /** Steps that touch no table put steps after them in front of the
      same table tests. */
  lemma GatedSteps(gates: seq<Step>, more: seq<Step>, t: Table)
    requires forall i :: 0 <= i < |gates| ==> StepTable(gates[i]).None?
    requires OnlyTable(more, t)
    ensures OnlyTable(gates + more, t)
    ensures NoInsert(gates + more) ==> NoInsert(more)
    ensures (gates + more)[..|gates|] == gates
  {
    if NoInsert(gates + more) {
      forall i | 0 <= i < |more| ensures !more[i].Insert? {
        assert (gates + more)[|gates| + i] == more[i];
      }
    }
  }

  /** The table process_pan_aadhar uses: users for "PAN", aadhar for any
      other option. */
  function PanAadharTable(option: string): Table {
    if option == "PAN" then UsersTable else AadharTable
  }

  /** The table a request selects: college_ids only for "COLLEGE ID". */
  function TableFor(option: string): Table {
    if option == "COLLEGE ID" then CollegeTable else PanAadharTable(option)
  }

  /** The fields process_pan_aadhar takes from an extracted record; the
      detail is the father's name of a tax-ID card or the gender of a
      national-ID card. */
  datatype Person = Person(id: string, name: string, detail: string, dob: string, idType: string)

  /** What the extractor for the option reads from the text. */
  function ExtractedPerson(option: string, text: string): Person {
    if option == "PAN" then
      var info := PanCard.ExtractPan(text);
      Person(info.id, info.name, info.fatherName, info.dob, info.idType)
    else
      var info := AadharCard.ExtractAadhar(text);
      Person(info.id, info.name, info.gender, info.dob, info.idType)
  }

  /** An empty DOB, what the extractors give when no date is found, makes
      strptime raise. */
  lemma EmptyDobRaises()
    ensures Reformat("") == None
  {
    EmptyIsNotADate(YearMonthDay);
  }

  /** A tax-ID DOB extracted from a date with a four-digit year is stored
      as it was extracted. */
  lemma PanDobKept(words: seq<string>, k: nat)
    requires IsFirst(words, PanCard.IsDate, k) && ParseDate(words[k], DayMonthYear).value.year >= 1000
    ensures Reformat(PanCard.FirstDate(words)) == Some(PanCard.FirstDate(words))
  {
    FindFirstIs(words, PanCard.IsDate, k);
    ReformatIff(ParseDate(words[k], DayMonthYear).value);
  }

  /** What process_college_id stores as validity: "" stays "" (the test
      skips it), other text is read as "%m/%d/%Y" and printed as
      "%Y-%m-%d", or becomes NULL when it does not read. */
  function StoredValidity(v: string): Option<string> {
    if v == "" then Some(v)
    else match ParseDate(v, MonthDayYear)
      case Some(d) => Some(FormatIso(d))
      case None => None
  }

  /** The validity the college extractor produces is already "%Y-%m-%d",
      so any non-empty one fails the second reading and is stored as NULL. */
  lemma ExtractedValidityStored(text: string)
    ensures var v := CollegeCard.ExtractCollege(text).validity;
      StoredValidity(v) == if v == "" then Some("") else None
  {
    CollegeCard.ValidityDoesNotReparse(Tokenizer.Tokenize(text));
  }

  /** The lookup key of a college card, as fetch_college_records builds it. */
  function CollegeLookupKey(info: CollegeCard.CollegeInfo): Key {
    if info.contactNo != "" then ByContact(info.contactNo) else ByNameAndFather(info.name, info.fatherName)
  }

  function CollegeRowOf(info: CollegeCard.CollegeInfo, embedding: string): CollegeRow {
    CollegeRow(info.name, info.course, info.department, info.contactNo, StoredValidity(info.validity),
      info.address, info.fatherName, info.idType, embedding)
  }

  /** The rows of the store are as they were. */
  twostate predicate RowsUnchanged(store: Store)
    reads store
  {
    store.users == old(store.users) && store.aadhar == old(store.aadhar) &&
    store.colleges == old(store.colleges) && store.inserts == old(store.inserts)
  }

  /** fetch_records and check_duplicacy (isPan), or their aadhar
      counterparts: whether the table already holds the hashed ID. */
  method IsRegistered(store: Store, isPan: bool, key: string) returns (dup: bool)
    ensures dup <==> if isPan then store.HasUser(key) else store.HasAadhar(key)
  {
    if isPan {
      var records := store.FetchRecords(key);
      dup := store.CheckDuplicacy(key);
    } else {
      var records := store.FetchRecordsAadhar(key);
      dup := store.CheckDuplicacyAadhar(key);
    }
  }

  /** insert_records (isPan) or insert_records_aadhar: one row with the
      given fields goes into the table, and nothing else changes. */
  method InsertPerson(store: Store, isPan: bool, key: string, name: string, detail: string,
                      dob: string, idType: string, embedding: string)
    requires store.Valid()
    modifies store
    ensures store.Valid()
    ensures store.inserts == old(store.inserts) + 1 && store.colleges == old(store.colleges)
    ensures isPan ==> store.users == old(store.users) + [UserRow(key, name, detail, dob, idType, embedding)]
                      && store.aadhar == old(store.aadhar)
    ensures !isPan ==> store.aadhar == old(store.aadhar) + [AadharRow(key, name, detail, dob, idType, embedding)]
                       && store.users == old(store.users)
  {
    if isPan {
      store.InsertRecords(UserRow(key, name, detail, dob, idType, embedding));
    } else {
      store.InsertRecordsAadhar(AadharRow(key, name, detail, dob, idType, embedding));
    }
  }

  /** The part of process_pan_aadhar after extraction, for the hashed ID
      `key`: look it up in the users table (isPan) or the aadhar table, stop
      on a duplicate; otherwise normalise the DOB (raising on one that is
      not "%Y-%m-%d"), attach the embedding and insert one row. `detail` is
      the father's name of a tax-ID card or the gender of a national-ID
      card. */
  method RegisterPerson(store: Store, isPan: bool, key: string, name: string, detail: string,
                        dobText: string, idType: string, embedding: string)
      returns (outcome: Outcome, steps: seq<Step>)
    requires store.Valid()
    modifies store
    ensures store.Valid()
    ensures |steps| == 2 || |steps| == 4
    ensures OnlyTable(steps, if isPan then UsersTable else AadharTable) && (NoInsert(steps) ==> RowsUnchanged(store))
    ensures outcome in {Duplicate, Stored, Raised(DobNotIsoDate)}
    ensures outcome == Stored <==> store.inserts == old(store.inserts) + 1
    ensures outcome != Stored ==> RowsUnchanged(store)
    ensures var t := if isPan then UsersTable else AadharTable;
      var lookup := [Fetch(t, ById(key)), CheckDuplicate(t, ById(key))];
      var dob := Reformat(dobText);
      var registered := if isPan then old(store.HasUser(key)) else old(store.HasAadhar(key));
      && (registered ==> outcome == Duplicate && steps == lookup && RowsUnchanged(store))
      && (!registered && dob == None ==> outcome == Raised(DobNotIsoDate) && steps == lookup && RowsUnchanged(store))
      && (!registered && dob.Some? ==>
            && outcome == Stored
            && steps == lookup + [GetEmbedding, Insert(t)]
            && store.inserts == old(store.inserts) + 1
            && store.colleges == old(store.colleges)
            && (isPan ==>
                  && store.users == old(store.users) + [UserRow(key, name, detail, dob.value, idType, embedding)]
                  && store.aadhar == old(store.aadhar))
            && (!isPan ==>
                  && store.aadhar == old(store.aadhar) + [AadharRow(key, name, detail, dob.value, idType, embedding)]
                  && store.users == old(store.users)))
  {
    var t := if isPan then UsersTable else AadharTable;
    var lookup := [Fetch(t, ById(key)), CheckDuplicate(t, ById(key))];
    var dup := IsRegistered(store, isPan, key);
    if dup {
      return Duplicate, lookup;
    }
    var dob := Reformat(dobText);
    if dob == None {
      return Raised(DobNotIsoDate), lookup;
    }
    InsertPerson(store, isPan, key, name, detail, dob.value, idType, embedding);
    outcome, steps := Stored, lookup + [GetEmbedding, Insert(t)];
    assert steps[3].Insert?;
  }

  /** process_pan_aadhar: the extractor the option selects ("PAN" or any
      other), then the ID replaced by its hash, then RegisterPerson. An
      empty ID is hashed like any other text. */
  method ProcessPanAadhar(store: Store, hashId: string -> Digest, option: string, text: string, embedding: string)
      returns (outcome: Outcome, steps: seq<Step>)
    requires store.Valid()
    modifies store
    ensures store.Valid()
    ensures |steps| == 2 || |steps| == 4
    ensures OnlyTable(steps, PanAadharTable(option)) && (NoInsert(steps) ==> RowsUnchanged(store))
    ensures outcome in {Duplicate, Stored, Raised(DobNotIsoDate)}
    ensures outcome == Stored <==> store.inserts == old(store.inserts) + 1
    ensures outcome != Stored ==> RowsUnchanged(store)
    ensures var t := PanAadharTable(option);
      var person := ExtractedPerson(option, text);
      var key := hashId(person.id);
      var lookup := [Fetch(t, ById(key)), CheckDuplicate(t, ById(key))];
      var dob := Reformat(person.dob);
      var registered := if option == "PAN" then old(store.HasUser(key)) else old(store.HasAadhar(key));
      && (registered ==> outcome == Duplicate && steps == lookup && RowsUnchanged(store))
      && (!registered && dob == None ==> outcome == Raised(DobNotIsoDate) && steps == lookup && RowsUnchanged(store))
      && (!registered && dob.Some? ==>
            && outcome == Stored
            && steps == lookup + [GetEmbedding, Insert(t)]
            && store.inserts == old(store.inserts) + 1
            && store.colleges == old(store.colleges)
            && (option == "PAN" ==>
                  && store.users == old(store.users) + [UserRow(key, person.name, person.detail, dob.value, person.idType, embedding)]
                  && store.aadhar == old(store.aadhar))
            && (option != "PAN" ==>
                  && store.aadhar == old(store.aadhar) + [AadharRow(key, person.name, person.detail, dob.value, person.idType, embedding)]
                  && store.users == old(store.users)))
  {
    var person := ExtractedPerson(option, text);
    outcome, steps := RegisterPerson(store, option == "PAN", hashId(person.id), person.name, person.detail,
      person.dob, person.idType, embedding);
  }

  /** The validity block of process_college_id: an empty validity is kept,
      one that reads as "%m/%d/%Y" is rewritten as "%Y-%m-%d", and any
      other becomes NULL (the ValueError is caught). */
  method NormalizeValidity(v: string) returns (r: Option<string>)
    ensures r == StoredValidity(v)
  {
    r := Some(v);
    if v != "" {
      match ParseDate(v, MonthDayYear)
      case Some(d) => r := Some(FormatIso(d));
      case None => r := None;
    }
  }

  /** The part of process_college_id after extraction: look the card up by
      contact number (or by name and father's name), stop on a duplicate;
      otherwise normalise the validity, attach the embedding and insert,
      which raises when the unique key (name, contact_no) clashes. */
  method RegisterCollege(store: Store, info: CollegeCard.CollegeInfo, embedding: string)
      returns (outcome: Outcome, steps: seq<Step>)
    requires store.Valid()
    modifies store
    ensures store.Valid()
    ensures |steps| == 2 || |steps| == 4
    ensures OnlyTable(steps, CollegeTable) && (NoInsert(steps) ==> RowsUnchanged(store))
    ensures outcome in {Duplicate, Stored, Raised(CollegeAlreadyExists)}
    ensures outcome == Stored <==> store.inserts == old(store.inserts) + 1
    ensures outcome != Stored ==> RowsUnchanged(store)
    ensures var lookup := [Fetch(CollegeTable, CollegeLookupKey(info)), CheckDuplicate(CollegeTable, CollegeLookupKey(info))];
      var row := CollegeRowOf(info, embedding);
      var registered := old(store.HasCollege(info.contactNo, info.name, info.fatherName));
      var clash := exists k :: 0 <= k < |old(store.colleges)| && SameCollegeKey(old(store.colleges)[k], row);
      && (registered ==> outcome == Duplicate && steps == lookup && RowsUnchanged(store))
      && (!registered ==> steps == lookup + [GetEmbedding, Insert(CollegeTable)])
      && (!registered && clash ==> outcome == Raised(CollegeAlreadyExists) && RowsUnchanged(store))
      && (!registered && !clash ==>
            && outcome == Stored
            && store.colleges == old(store.colleges) + [row]
            && store.inserts == old(store.inserts) + 1
            && store.users == old(store.users) && store.aadhar == old(store.aadhar))
  {
    var key := CollegeLookupKey(info);
    var lookup := [Fetch(CollegeTable, key), CheckDuplicate(CollegeTable, key)];
    var records := store.FetchCollegeRecords(info.contactNo, info.name, info.fatherName);
    var dup := store.CheckCollegeDuplicacy(info.contactNo, info.name, info.fatherName);
    if dup {
      return Duplicate, lookup;
    }
    var validity := NormalizeValidity(info.validity);
    var row := CollegeRow(info.name, info.course, info.department, info.contactNo, validity,
      info.address, info.fatherName, info.idType, embedding);
    assert row == CollegeRowOf(info, embedding);
    var ok := store.InsertCollegeId(row);
    outcome, steps := if ok then Stored else Raised(CollegeAlreadyExists), lookup + [GetEmbedding, Insert(CollegeTable)];
    assert steps[3].Insert?;
  }

  /** process_college_id: extract, compute the identity as the hash of the
      contact number followed by the hash of the name, then
      RegisterCollege. The identity is returned as `id`; no lookup and no
      insert uses it. */
  method ProcessCollegeId(store: Store, hashId: string -> Digest, text: string, embedding: string)
      returns (outcome: Outcome, steps: seq<Step>, id: Digest)
    requires store.Valid()
    modifies store
    ensures store.Valid()
    ensures |steps| == 2 || |steps| == 4
    ensures OnlyTable(steps, CollegeTable) && (NoInsert(steps) ==> RowsUnchanged(store))
    ensures outcome in {Duplicate, Stored, Raised(CollegeAlreadyExists)}
    ensures outcome == Stored <==> store.inserts == old(store.inserts) + 1
    ensures outcome != Stored ==> RowsUnchanged(store)
    ensures var info := CollegeCard.ExtractCollege(text);
      var lookup := [Fetch(CollegeTable, CollegeLookupKey(info)), CheckDuplicate(CollegeTable, CollegeLookupKey(info))];
      var row := CollegeRowOf(info, embedding);
      var registered := old(store.HasCollege(info.contactNo, info.name, info.fatherName));
      var clash := exists k :: 0 <= k < |old(store.colleges)| && SameCollegeKey(old(store.colleges)[k], row);
      && id == CollegeKey(hashId, info.contactNo, info.name)
      && (registered ==> outcome == Duplicate && steps == lookup && RowsUnchanged(store))
      && (!registered ==> steps == lookup + [GetEmbedding, Insert(CollegeTable)])
      && (!registered && clash ==> outcome == Raised(CollegeAlreadyExists) && RowsUnchanged(store))
      && (!registered && !clash ==>
            && outcome == Stored
            && store.colleges == old(store.colleges) + [row]
            && store.inserts == old(store.inserts) + 1
            && store.users == old(store.users) && store.aadhar == old(store.aadhar))
  {
    var info := CollegeCard.ExtractCollege(text);
    id := hashId(info.contactNo + hashId(info.name));
    outcome, steps := RegisterCollege(store, info, embedding);
  }

  /** The dispatch at the end of main_content: process_college_id for
      "COLLEGE ID", process_pan_aadhar for any other option. */
  method ProcessCard(store: Store, hashId: string -> Digest, option: string, text: string, embedding: string)
      returns (outcome: Outcome, steps: seq<Step>)
    requires store.Valid()
    modifies store
    ensures store.Valid()
    ensures (|steps| == 2 || |steps| == 4) && steps[0].Fetch? && steps[0].table == TableFor(option)
    ensures option != "COLLEGE ID" ==> steps[0].key == ById(hashId(ExtractedPerson(option, text).id))
    ensures OnlyTable(steps, TableFor(option)) && (NoInsert(steps) ==> RowsUnchanged(store))
    ensures outcome in {Duplicate, Stored, Raised(DobNotIsoDate), Raised(CollegeAlreadyExists)}
    ensures outcome == Stored <==> store.inserts == old(store.inserts) + 1
    ensures outcome != Stored ==> RowsUnchanged(store)
  {
    if option == "COLLEGE ID" {
      var id;
      outcome, steps, id := ProcessCollegeId(store, hashId, text, embedding);
    } else {
      outcome, steps := ProcessPanAadhar(store, hashId, option, text, embedding);
    }
  }

  /** The steps of main_content up to and including the face comparison. */
  const FaceGate: seq<Step> := [ReadFaceImage, ReadIdImage, CropIdCard, DetectFace, SaveFace, CompareFaces]

  /** main_content: no ID image stops before anything is read; an
      unreadable face image stops after reading it; a failed face match
      stops before OCR and before the store is touched. Only then is the
      text extracted and the card processed, by process_college_id for
      "COLLEGE ID" and by process_pan_aadhar for any other option. */
  method MainContent(store: Store, hashId: string -> Digest, option: string,
                     hasIdImage: bool, hasFaceImage: bool, facesMatch: bool, text: string, embedding: string)
      returns (outcome: Outcome, steps: seq<Step>)
    requires store.Valid()
    modifies store
    ensures store.Valid()
    ensures !hasIdImage ==> outcome == NoIdImage && steps == [] && RowsUnchanged(store)
    ensures hasIdImage && !hasFaceImage ==> outcome == NoFaceImage && steps == [ReadFaceImage] && RowsUnchanged(store)
    ensures hasIdImage && hasFaceImage && !facesMatch ==> outcome == FaceMismatch && steps == FaceGate && RowsUnchanged(store)
    ensures hasIdImage && hasFaceImage && facesMatch ==>
      && (|steps| == |FaceGate| + 3 || |steps| == |FaceGate| + 5)
      && steps[..|FaceGate| + 1] == FaceGate + [ExtractText]
      && OnlyTable(steps, TableFor(option))
      && steps[|FaceGate| + 1].Fetch? && steps[|FaceGate| + 1].table == TableFor(option)
      && (option != "COLLEGE ID" ==> steps[|FaceGate| + 1].key == ById(hashId(ExtractedPerson(option, text).id)))
      && outcome in {Duplicate, Stored, Raised(DobNotIsoDate), Raised(CollegeAlreadyExists)}
    ensures outcome == Stored <==> store.inserts == old(store.inserts) + 1
    ensures outcome != Stored ==> RowsUnchanged(store)
    ensures NoInsert(steps) ==> RowsUnchanged(store)
  {
    if !hasIdImage {
      return NoIdImage, [];
    }
    if !hasFaceImage {
      return NoFaceImage, [ReadFaceImage];
    }
    if !facesMatch {
      return FaceMismatch, FaceGate;
    }
    var verified := FaceGate + [ExtractText];
    var more;
    outcome, more := ProcessCard(store, hashId, option, text, embedding);
    GatedSteps(verified, more, TableFor(option));
    steps := verified + more;
    assert steps[|verified|] == more[0];
  }
}
