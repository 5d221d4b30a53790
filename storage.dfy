/** The record store behind the pipeline: the users (PAN), aadhar and
    college_ids tables, held in memory, with the lookups, duplicate checks
    and inserts the pipeline calls. */
module Storage {
  import opened Text

  /** A row of the users table. */
  datatype UserRow = UserRow(id: string, name: string, fatherName: string, dob: string, idType: string, embedding: string)

  /** A row of the aadhar table. */
  datatype AadharRow = AadharRow(id: string, name: string, gender: string, dob: string, idType: string, embedding: string)

  /** A row of the college_ids table; a validity of None is SQL NULL. */
  datatype CollegeRow = CollegeRow(
    name: string, course: string, department: string, contactNo: string, validity: Option<string>,
    address: string, fatherName: string, idType: string, embedding: string)

  /** SELECT * ... WHERE p: the rows that satisfy p, in table order. */
  function Select<T>(rows: seq<T>, p: T -> bool): (r: seq<T>)
    ensures |r| <= |rows|
    ensures forall x :: x in r ==> x in rows && p(x)
    ensures forall k :: 0 <= k < |rows| && p(rows[k]) ==> rows[k] in r
    decreases |rows|
  {
    if |rows| == 0 then []
    else
      var last := rows[|rows| - 1];
      Select(rows[..|rows| - 1], p) + (if p(last) then [last] else [])
  }

  /** mycursor.fetchall() over a table: one pass that keeps the matching rows. */
  method SelectRows<T>(rows: seq<T>, p: T -> bool) returns (r: seq<T>)
    ensures r == Select(rows, p)
  {
    r := [];
    var i := 0;
    while i < |rows|
      invariant 0 <= i <= |rows|
      invariant r == Select(rows[..i], p)
    {
      assert rows[..i + 1][..i] == rows[..i];
      if p(rows[i]) {
        r := r + [rows[i]];
      }
      i := i + 1;
    }
    assert rows[..|rows|] == rows;
  }

  /** WHERE id = %s on the users table. */
  function UserIdIs(id: string): UserRow -> bool {
    (u: UserRow) => u.id == id
  }

  /** WHERE id = %s on the aadhar table. */
  function AadharIdIs(id: string): AadharRow -> bool {
    (a: AadharRow) => a.id == id
  }

  /** The college lookup: by contact number when there is one, otherwise
      by name and father's name together. */
  function CollegeLookup(contactNo: string, name: string, fatherName: string): CollegeRow -> bool {
    if contactNo != "" then (c: CollegeRow) => c.contactNo == contactNo
    else (c: CollegeRow) => c.name == name && c.fatherName == fatherName
  }

  /** The UNIQUE KEY (name, contact_no) of college_ids. */
  predicate SameCollegeKey(a: CollegeRow, b: CollegeRow) {
    a.name == b.name && a.contactNo == b.contactNo
  }

  predicate CollegeKeysUnique(rows: seq<CollegeRow>) {
    forall i, j :: 0 <= i < j < |rows| ==> !SameCollegeKey(rows[i], rows[j])
  }

  /** A lookup by contact number finds every row that shares the new row's
      unique key, so with a contact number the duplicate check and the
      unique key agree. */
  lemma ContactLookupFindsKeyClash(rows: seq<CollegeRow>, row: CollegeRow, k: nat)
    requires row.contactNo != "" && k < |rows| && SameCollegeKey(rows[k], row)
    ensures |Select(rows, CollegeLookup(row.contactNo, row.name, row.fatherName))| > 0
  {
    assert CollegeLookup(row.contactNo, row.name, row.fatherName)(rows[k]);
  }

  /** Without a contact number the check compares name and father's name
      while the unique key compares name and contact number: a row with the
      same name, no contact number and another father's name passes the
      check and still clashes with the key. */
  lemma BlankContactClashMissed()
    ensures var prior := CollegeRow("Asha", "", "", "", Some(""), "", "Ravi", "COLLEGE ID", "");
      var incoming := CollegeRow("Asha", "", "", "", Some(""), "", "Mohan", "COLLEGE ID", "");
      |Select([prior], CollegeLookup(incoming.contactNo, incoming.name, incoming.fatherName))| == 0 && SameCollegeKey(prior, incoming)
  {
    var prior := CollegeRow("Asha", "", "", "", Some(""), "", "Ravi", "COLLEGE ID", "");
    var incoming := CollegeRow("Asha", "", "", "", Some(""), "", "Mohan", "COLLEGE ID", "");
    assert [prior][..0] == [];
    assert !CollegeLookup(incoming.contactNo, incoming.name, incoming.fatherName)(prior);
  }

  /** The three tables, and the number of rows ever inserted. */
  class Store {
    var users: seq<UserRow>
    var aadhar: seq<AadharRow>
    var colleges: seq<CollegeRow>
    var inserts: nat

    /** Every insert added one row, and college rows are unique on
        (name, contact_no). */
    ghost predicate Valid()
      reads this
    {
      inserts == |users| + |aadhar| + |colleges| && CollegeKeysUnique(colleges)
    }

    constructor ()
      ensures Valid()
      ensures users == [] && aadhar == [] && colleges == [] && inserts == 0
    {
      users := [];
      aadhar := [];
      colleges := [];
      inserts := 0;
    }

    predicate HasUser(id: string)
      reads this
    {
      exists k :: 0 <= k < |users| && users[k].id == id
    }

    predicate HasAadhar(id: string)
      reads this
    {
      exists k :: 0 <= k < |aadhar| && aadhar[k].id == id
    }

    predicate HasCollege(contactNo: string, name: string, fatherName: string)
      reads this
    {
      exists k :: 0 <= k < |colleges| && CollegeLookup(contactNo, name, fatherName)(colleges[k])
    }

    /** fetch_records. */
    method FetchRecords(id: string) returns (rows: seq<UserRow>)
      ensures rows == Select(users, UserIdIs(id))
    {
      rows := SelectRows(users, UserIdIs(id));
    }

    /** check_duplicacy: whether the users table already holds the id. */
    method CheckDuplicacy(id: string) returns (dup: bool)
      ensures dup <==> HasUser(id)
    {
      var rows := FetchRecords(id);
      dup := |rows| > 0;
      if HasUser(id) {
        var k :| 0 <= k < |users| && users[k].id == id;
        assert UserIdIs(id)(users[k]);
      }
      if dup {
        assert rows[0] in rows;
      }
    }

    /** fetch_records_aadhar. */
    method FetchRecordsAadhar(id: string) returns (rows: seq<AadharRow>)
      ensures rows == Select(aadhar, AadharIdIs(id))
    {
      rows := SelectRows(aadhar, AadharIdIs(id));
    }

    /** check_duplicacy_aadhar: whether the aadhar table already holds the id. */
    method CheckDuplicacyAadhar(id: string) returns (dup: bool)
      ensures dup <==> HasAadhar(id)
    {
      var rows := FetchRecordsAadhar(id);
      dup := |rows| > 0;
      if HasAadhar(id) {
        var k :| 0 <= k < |aadhar| && aadhar[k].id == id;
        assert AadharIdIs(id)(aadhar[k]);
      }
      if dup {
        assert rows[0] in rows;
      }
    }

    /** fetch_college_records. */
    method FetchCollegeRecords(contactNo: string, name: string, fatherName: string) returns (rows: seq<CollegeRow>)
      ensures rows == Select(colleges, CollegeLookup(contactNo, name, fatherName))
    {
      rows := SelectRows(colleges, CollegeLookup(contactNo, name, fatherName));
    }

    /** check_college_duplicacy. */
    method CheckCollegeDuplicacy(contactNo: string, name: string, fatherName: string) returns (dup: bool)
      ensures dup <==> HasCollege(contactNo, name, fatherName)
    {
      var rows := FetchCollegeRecords(contactNo, name, fatherName);
      dup := |rows| > 0;
      if dup {
        assert rows[0] in rows;
      }
    }

    /** insert_records. */
    method InsertRecords(row: UserRow)
      requires Valid()
      modifies this
      ensures Valid()
      ensures users == old(users) + [row] && inserts == old(inserts) + 1
      ensures aadhar == old(aadhar) && colleges == old(colleges)
    {
      users := users + [row];
      inserts := inserts + 1;
    }

    /** insert_records_aadhar. */
    method InsertRecordsAadhar(row: AadharRow)
      requires Valid()
      modifies this
      ensures Valid()
      ensures aadhar == old(aadhar) + [row] && inserts == old(inserts) + 1
      ensures users == old(users) && colleges == old(colleges)
    {
      aadhar := aadhar + [row];
      inserts := inserts + 1;
    }

    /** insert_college_id: the row goes in unless a row with the same name
        and contact number is there, in which case the insert fails (the
        ValueError of the unique key) and nothing changes. */
    method InsertCollegeId(row: CollegeRow) returns (ok: bool)
      requires Valid()
      modifies this
      ensures Valid()
      ensures ok <==> forall k :: 0 <= k < |old(colleges)| ==> !SameCollegeKey(old(colleges)[k], row)
      ensures ok ==> colleges == old(colleges) + [row] && inserts == old(inserts) + 1
      ensures !ok ==> colleges == old(colleges) && inserts == old(inserts)
      ensures users == old(users) && aadhar == old(aadhar)
    {
      var i := 0;
      while i < |colleges|
        invariant 0 <= i <= |colleges|
        invariant forall k :: 0 <= k < i ==> !SameCollegeKey(colleges[k], row)
      {
        if SameCollegeKey(colleges[i], row) {
          return false;
        }
        i := i + 1;
      }
      colleges := colleges + [row];
      inserts := inserts + 1;
      ok := true;
    }
  }
}
