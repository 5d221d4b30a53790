# eKYC card extraction and registration, modelled in Dafny

This project models the part of an identity-verification (eKYC) app that does the work itself, with the user interface and the device and library calls left out. There are two parts:

- **Text-to-record extraction** (`postprocess.py`). The OCR text of a card goes through these steps:
  1. A tokenizer deletes every `.`, splits on `|`, strips each piece and keeps the pieces longer than two characters.
  2. One of three extractors turns the tokens into a record:
     - the tax-ID (PAN) card: `extract_information`;
     - the national-ID (Aadhar) card: `extract_information1`;
     - the college ID card: `extract_college_info`.

  The line-based PAN path, `filter_lines` and `create_dataframe`, is modelled as well. The source code uses a few library routines, each written out for the cases the code uses, with ASCII digits only (see "## Left out"):
  - Python's `strptime` with `%d/%m/%Y`, `%m/%d/%Y` and `%Y-%m-%d`;
  - `strftime("%Y-%m-%d")`;
  - `str.strip`, `str.split`, `str.lower` and `str.capitalize`;
  - the regular expressions `\d{4} \d{4} \d{4}`, `(male|female)` and `(S/o|D/o)\s+(.*?),\s*Vill-`.
- **The request pipeline** (`app.py`). `main_content` runs three gates in order: an ID image must be present, a face image must be read, and the two faces must match. Only then is the text extracted. For a PAN or Aadhar card, `process_pan_aadhar` then:
  1. hashes the ID;
  2. looks it up and stops on a duplicate;
  3. re-reads the DOB as `%Y-%m-%d`, which raises on an empty or malformed DOB;
  4. attaches the face embedding;
  5. inserts exactly one row into the table the option selects.

  `process_college_id` builds its identity as `hash_id(contact_no + hash_id(name))`. It looks the card up by contact number, or by name and father's name when there is no contact number. It then normalises the validity and inserts one row. That insert fails when the unique key `(name, contact_no)` clashes.

The store (`sql_connection.py`) is the class `Storage.Store`. It holds three in-memory tables and an insert counter. Its invariant is that the counter equals the number of rows and that college rows are unique on `(name, contact_no)`.

The pipeline returns the list of outside calls it makes, as `Pipeline.Step` values. This makes order and "nothing happens on reject" provable:
- each gate stops before OCR and before any store call;
- a duplicate stops with zero inserts and unchanged tables;
- a success adds exactly one row, to the table the option selects;
- the store is only ever reached with the hashed ID, never the raw one.

Files:
- `text.dfy`: string primitives.
- `dates.dfy`: `strptime`/`strftime`.
- `tokenizer.dfy`: the tokenizer.
- `pan.dfy`, `aadhar.dfy` and `college.dfy`: the three extractors; `pan.dfy` also has `filter_lines` and `create_dataframe`.
- `storage.dfy`: the store.
- `pipeline.dfy`: `app.py`.

Three behaviours of the code are worth knowing, since a reader might expect otherwise:
- **The fixed PAN offsets.** On a PAN card read top to bottom (department, issuer, holder, father, date of birth, number label, number, signature), `extract_information` takes name and father's name from token offsets 6 and 7. They come out as the PAN number and the word "Signature" (`PanCard.SampleLayout`), not as the person's names.
- **A missing college validity** is stored as the empty string, not as an absent value.
- **An extracted college validity** is already `YYYY-MM-DD`. `app.py` re-reads it as `%m/%d/%Y`, so any non-empty extracted validity is stored as NULL (`Pipeline.ExtractedValidityStored`).

## Model

| member | source | states |
|---|---|---|
| Text.Strip | postprocess.py:20-21 | `str.strip()`: the result is the input with only whitespace (Python's `isspace` set) cut from its two ends, and no whitespace is left at either end |
| Text.StripIdempotent | postprocess.py:31-33 | stripping an already stripped line changes nothing, so the extra `.strip()` calls of `create_dataframe` are no-ops |
| Text.Split | postprocess.py:43 | `str.split(sep)` always yields at least one piece |
| Text.JoinSplit | postprocess.py:43 | joining the pieces of a split with the separator gives back the text |
| Text.SplitSecondPiece | postprocess.py:101 | `s.split(sep)[1]` is the text from the end of the first `sep` to the start of the next one, or to the end of `s` |
| Text.Join | postprocess.py:176 | `" ".join(parts)` starts with the first part and holds no character found in neither a part nor the separator |
| Text.RemoveChar | postprocess.py:42 | `replace(".", "")`: the result holds no `.`, every other character keeps its number of occurrences, and a text without `.` is unchanged |
| Text.RemoveCharAppend | postprocess.py:42 | deleting `.` from a concatenation deletes it from each part, so the characters that stay keep their order |
| Text.Lower | postprocess.py:90 | `str.lower()`: same length, every letter lower-cased position by position |
| Text.Capitalize | postprocess.py:93 | `str.capitalize()`: same length, first character upper-cased, every later character lower-cased |
| Text.DigitsOnly | postprocess.py:154 | `re.sub(r'\D', '', s)`: only digits remain, a character remains exactly when it is a digit of the input, and an all-digit text is unchanged |
| Text.DigitsOnlyCounts | postprocess.py:154 | each digit is kept as many times as it occurs in the input, and no other character is kept |
| Text.DigitsOnlyPicks | postprocess.py:154 | the k-th kept character is the input's character at its k-th digit position, so the digits keep their order |
| Text.FindFirst | postprocess.py:54 | `next((i for ...), -1)`: the index of the first token satisfying the test, or -1 when none does |
| Text.FindLast | postprocess.py:34-36 | a loop without `break` keeps the last matching index: that index satisfies the test and no later one does |
| Text.ContainsIndexOf | postprocess.py:180 | a text occurs in a string exactly when the leftmost-occurrence search finds it |
| Dates.DaysInMonth | postprocess.py:65 | the calendar's month length (28 to 31, with leap years) that `strptime` checks the day against |
| Dates.DirectiveValue | postprocess.py:65 | `%d`, `%m` and `%Y` each read only their own digit patterns; the values lie in 1..31, 1..12 and 0..9999 |
| Dates.DayValueIff | postprocess.py:65 | `%d` reads n from t exactly when t spells n in 1..31 as two digits, or, below 10, as one digit with or without a leading blank |
| Dates.MonthValueIff | postprocess.py:65 | `%m` reads n from t exactly when t spells n in 1..12 as two digits, or, below 10, as one digit |
| Dates.YearValueIff | postprocess.py:65 | `%Y` reads n from t exactly when t is the four decimal digits of n |
| Dates.ParseDate | postprocess.py:65 | `strptime` for the three formats: a result is always a valid calendar date, and the text holds the format's separator |
| Dates.CutShape | postprocess.py:65 | the three fields cut at the first two separators glue back, with the separators, to the whole text |
| Dates.AssembleIff | postprocess.py:65 | three fields make date d exactly when d is a valid date and the fields spell its parts in the format's order |
| Dates.ParseDateIff | postprocess.py:65 | `strptime(s, f)` gives d exactly when d is valid and s is three spellings of d's parts, in f's order, joined by f's separator, with nothing before or after |
| Dates.FormatIso | postprocess.py:66 | `strftime("%Y-%m-%d")` holds no `/` and has at least seven characters |
| Dates.FormatIsoLayout | postprocess.py:66 | with a four-digit year the print has ten characters: the year's four digits, `-`, the two-digit month, `-`, the two-digit day |
| Dates.ParseDayMonthYearPadded | postprocess.py:65-66 | every valid date with a four-digit year, written as two-digit day, two-digit month and year with `/`, is read back as itself |
| Dates.NoThirtyFirstOfFebruary | postprocess.py:103-106 | "31/02/2020" is not a date, so that DOB comes out as "" |
| Dates.NotAFebruaryDay | postprocess.py:103 | the fields "31", "02", "2020" do not make a valid day, month and year |
| Dates.EmptyIsNotADate | postprocess.py:102-106 | the empty text is not a date in any of the formats |
| Dates.IsoIsNotSlashDate | app.py:143 | a `YYYY-MM-DD` text never reads as a `/`-separated date |
| Dates.ParseFormatIso | app.py:112 | a date with a four-digit year, printed as `%Y-%m-%d`, reads back as the same date |
| Dates.ShortYearDoesNotReparse | app.py:112 | with a year below 1000 the printed year has fewer than four digits and the re-read fails |
| Dates.ReformatIff | app.py:111-114 | re-reading and re-printing a printed date gives it back unchanged exactly when the year has four digits, and raises otherwise |
| Dates.DayMonthYearNormalizes | app.py:111-114 | a DOB that the extractor read as `%d/%m/%Y` (four-digit year) and printed re-reads to the same date |
| Tokenizer.KeepLong | postprocess.py:43 | every kept piece is stripped and longer than two characters, and there are no more kept pieces than pieces |
| Tokenizer.KeepLongSelects | postprocess.py:43 | the kept pieces are exactly the stripped versions of the long pieces, each picked once, in their original order |
| Tokenizer.Tokenize | postprocess.py:42-43 | every token is stripped, has at least three characters and holds neither a period nor a vertical bar |
| Tokenizer.TokensInOrder | postprocess.py:75-76 | tokens are the stripped long pieces of the split text, in source order, and every long piece yields a token |
| Tokenizer.EmptyText | postprocess.py:114-115 | an empty text has no tokens |
| PanCard.CollectLong | postprocess.py:19-21 | the second loop of `filter_lines` appends exactly the stripped long lines of the window, in order |
| PanCard.FilterLines | postprocess.py:5-23 | `[]` unless an "INCOME TAX DEPARTMENT" line comes at or before the first "Signature" line; otherwise the stripped long lines of that inclusive window |
| PanCard.ScanNumberLabels | postprocess.py:34-36 | the PAN is the stripped line after the last "Permanent Account Number" line; no label leaves `pan` unbound, a label on the last line is an IndexError |
| PanCard.CreateDataframe | postprocess.py:25-39 | IndexError with fewer than 5 filtered lines; no label or a label on the last line fails; otherwise the row is (line after last label, lines 2, 3, 4, "PAN"), unparsed |
| PanCard.FirstDate | postprocess.py:62-69 | DOB is "" exactly when no token reads as `%d/%m/%Y`; otherwise it is the first such token printed as `%Y-%m-%d`, later ones ignored |
| PanCard.FindBirthDate | postprocess.py:63-69 | the `for`/`break` loop over the tokens computes that first date |
| PanCard.PanFromTokens | postprocess.py:41-72 | type "PAN"; for the first label token at k the ID is the token at k+1, or "" when k is last; no label gives ""; with more than 7 tokens the names are the tokens at 6 and 7, else ""; the DOB is the first date token's print |
| PanCard.ExtractPan | postprocess.py:41-72 | type "PAN"; ID, name and father's name are "" or whole tokens of the text, so none holds a `.` |
| PanCard.NoSlashNoDate | postprocess.py:65 | a token without `/` is never a DOB |
| PanCard.SampleNumberLabel | postprocess.py:54 | on a card laid out as department, issuer, holder, father, DOB, number label, number, signature the label token is at index 5 |
| PanCard.SampleDateToken | postprocess.py:65-66 | the DOB token "01/02/1990" reads as 1 February 1990 |
| PanCard.SampleLayout | postprocess.py:54-60 | on that layout the ID is the PAN, but the fixed offsets 6 and 7 give the PAN and "Signature" as name and father's name |
| AadharCard.MatchFrom | postprocess.py:92 | the leftmost match of "male" or "female", with "male" tried first at each position; no earlier position matches either word |
| AadharCard.GenderOf | postprocess.py:92-93 | the capitalized match is "", "Male" or "Female" |
| AadharCard.MentionsGenderIsMale | postprocess.py:90 | since "female" holds "male", the gender test is the test for "male" alone |
| AadharCard.GenderFound | postprocess.py:90-93 | a token that passes the gender test always yields a non-empty gender |
| AadharCard.GenderIsFemaleIff | postprocess.py:90-93 | the gender is "Female" exactly when the first "male" of the lower-cased token is the tail of a "female", and "Male" otherwise |
| AadharCard.NameOf | postprocess.py:87-88 | for the first token holding "DOB" at k, the token at k-1, or "" when k is 0; "" when no token holds it |
| AadharCard.GenderField | postprocess.py:90-93 | "" exactly when no token passes the gender test; otherwise the gender of the first token that does |
| AadharCard.NumberOf | postprocess.py:95-97 | the whole first token that starts with `\d{4} \d{4} \d{4}`, trailing text included; "" exactly when none does |
| AadharCard.DobText | postprocess.py:100-101 | a token without "DOB:" is passed on whole; one with it gives the stripped text between its first "DOB:" and the next one, or the end |
| AadharCard.DobBoundsExist | postprocess.py:100-101 | a token holding "DOB:" always has such a first label and following bound |
| AadharCard.DobOf | postprocess.py:99-106 | "" when no token holds "DOB:" or starts with `\d{2}/\d{2}/\d{4}`; otherwise the first such token's DobText read as `%d/%m/%Y` and printed as `%Y-%m-%d`, or "" when it does not read |
| AadharCard.DobTextAfterLabel | postprocess.py:100-101 | for a token with one "DOB:", strptime gets the stripped text after the label |
| AadharCard.AadharFromTokens | postprocess.py:74-111 | type "AADHAR"; ID, name and gender come from the first number-shaped token, the token before the first "DOB" token and the first gender token, each "" when there is none (the gender is then "Male" or "Female"); the DOB is DobOf's, "" or without `/` |
| AadharCard.ExtractAadhar | postprocess.py:74-111 | type "AADHAR"; ID and name are "" or whole tokens of the text, so neither holds a `.` |
| CollegeCard.NameField | postprocess.py:130-135 | for the first "Name" token at k: "" when k is last, else the token at k+1, followed by a blank and the token at k+2 when that one exists and holds none of "course", "department", "b.tech" in lower case; "" without a label |
| CollegeCard.CourseField | postprocess.py:138-143 | for the first token holding "B.Tech" or "Course" at k: that token when it holds "B.Tech", else the token at k+1, else ""; "" without such a token |
| CollegeCard.AfterLabel | postprocess.py:146-148 | for the first label token at k, the token at k+1, or "" when k is last; "" without a label |
| CollegeCard.ContactField | postprocess.py:151-154 | `contact_no` holds only digits, and a character occurs in it exactly when it is a digit of the token after the contact label (order and count: Text.DigitsOnlyPicks, Text.DigitsOnlyCounts) |
| CollegeCard.ValidityField | postprocess.py:157-166 | when the token after the first "Validity" token holds `/` and reads as `%m/%d/%Y`, its `%Y-%m-%d` print; "" exactly when there is no such token, it has no `/` or it does not read |
| CollegeCard.AddressParts | postprocess.py:171-175 | the tokens taken are consecutive, none holds a stop word, and the one after them holds a stop word or is past the end |
| CollegeCard.ScanAddress | postprocess.py:171-176 | the `while` loop collects exactly those tokens |
| CollegeCard.AddressField | postprocess.py:169-176 | for the first "Address" token at k, the AddressParts run from k+1 joined with blanks; "" without a label |
| CollegeCard.LazyEnd | postprocess.py:180 | `(.*?),\s*Vill-`: the first position with a comma, whitespace and "Vill-", with no line break before it |
| CollegeCard.FirstHit | postprocess.py:180 | the search for the leftmost start finds a position that matches, or -1 |
| CollegeCard.FirstHitSkips | postprocess.py:180 | no position the search passes over matches |
| CollegeCard.SearchFrom | postprocess.py:180 | `re.search` returns a position where the pattern matches, or -1 |
| CollegeCard.SearchFromSkips | postprocess.py:180 | `re.search` skips only positions where the pattern does not match |
| CollegeCard.FatherField | postprocess.py:178-182 | "" when the pattern matches nowhere in the address; a non-empty father's name is the group at some matching position |
| CollegeCard.CollegeFromTokens | postprocess.py:113-187 | type "COLLEGE ID"; name, course, contact number and validity are those of NameField, CourseField, ContactField and ValidityField; the department is the token after the first "Department"/"Dept" token, or ""; the address is the joined run after the first "Address" token; the father's name is read from that address; the contact holds only digits; the validity is "" or holds no `/` |
| CollegeCard.ExtractCollege | postprocess.py:113-187 | type "COLLEGE ID"; since periods are deleted first, the course is always the token after the first "Course" token |
| CollegeCard.NoPeriodNoBTech | postprocess.py:134 | a text without `.` holds neither "B.Tech" nor "b.tech" |
| CollegeCard.CourseOnlyViaCourseLabel | postprocess.py:138-143 | on tokens, the course is always the token after the first "Course" token: the "B.Tech" tests never fire |
| CollegeCard.NameStopsOnlyAtCourseOrDepartment | postprocess.py:134 | on tokens, the name stops only at a token holding "course" or "department" |
| CollegeCard.ValidityDoesNotReparse | postprocess.py:164 | a non-empty extracted validity never reads as `%m/%d/%Y` |
| CollegeCard.LazyEndFinds | postprocess.py:180 | when some later end fits, the lazy group finds one at or before it |
| CollegeCard.GroupIsMatch | postprocess.py:180-182 | a group found at a position is the middle of a real match of the whole pattern there |
| CollegeCard.MatchIsFound | postprocess.py:180 | every real match of the whole pattern at a position is found there |
| CollegeCard.FatherIsLeftmostMatch | postprocess.py:179-182 | wherever the pattern matches, `father_name` is group 2 of the leftmost match, which lies at or before it |
| CollegeCard.NoMatchNoFather | postprocess.py:179-182 | where the pattern matches nowhere, `father_name` stays "" |
| Storage.Select | sql_connection.py:138-141 | `SELECT ... WHERE`: the rows returned are table rows that satisfy the condition, and every such row is returned |
| Storage.SelectRows | sql_connection.py:140-141 | `fetchall()` computes exactly that selection, one row at a time |
| Storage.ContactLookupFindsKeyClash | sql_connection.py:173-175 | with a contact number, the duplicate lookup finds every row that clashes with the unique key |
| Storage.BlankContactClashMissed | sql_connection.py:176-178 | without a contact number, a row with the same name and another father's name passes the lookup yet clashes with the unique key |
| Storage.Store.constructor | sql_connection.py:44-57 | the tables start empty and the invariant holds |
| Storage.Store.FetchRecords | sql_connection.py:136-151 | the users rows whose id is the key |
| Storage.Store.CheckDuplicacy | sql_connection.py:193-204 | true exactly when the users table holds the id |
| Storage.Store.FetchRecordsAadhar | sql_connection.py:153-168 | the aadhar rows whose id is the key |
| Storage.Store.CheckDuplicacyAadhar | sql_connection.py:206-217 | true exactly when the aadhar table holds the id |
| Storage.Store.FetchCollegeRecords | sql_connection.py:170-191 | college rows by contact number when there is one, else by name and father's name |
| Storage.Store.CheckCollegeDuplicacy | sql_connection.py:219-230 | true exactly when that lookup finds a row |
| Storage.Store.InsertRecords | sql_connection.py:69-84 | one user row appended, the counter up by one, the other tables unchanged |
| Storage.Store.InsertRecordsAadhar | sql_connection.py:86-101 | one aadhar row appended, the counter up by one, the other tables unchanged |
| Storage.Store.InsertCollegeId | sql_connection.py:103-134 | succeeds exactly when no row shares (name, contact_no); on success one row is appended, otherwise nothing changes; uniqueness is kept |
| Pipeline.CollegeKeyInjective | app.py:128 | when neither hashing step collides on the two cards, equal college identities mean equal contact numbers and equal names, because the inner digest has a fixed length |
| Pipeline.GatedSteps | app.py:181-192 | calls that touch no table, placed before the processing calls, keep those calls' table discipline and prefix |
| Pipeline.EmptyDobRaises | app.py:111-114 | an empty DOB makes the `%Y-%m-%d` re-read fail |
| Pipeline.PanDobKept | app.py:111-114 | a PAN DOB taken from a date with a four-digit year is stored exactly as extracted |
| Pipeline.ExtractedValidityStored | app.py:141-145 | an extracted validity is stored as "" when empty and as NULL otherwise |
| Pipeline.IsRegistered | app.py:100-105 | the duplicate check on the table the option selects is true exactly when that table holds the hashed ID |
| Pipeline.InsertPerson | app.py:117-120 | one row with the given fields goes to the selected table, and nothing else changes |
| Pipeline.RegisterPerson | app.py:100-123 | duplicate: two lookup calls, no change; bad DOB: raises, no change; else embedding then exactly one insert into the selected table |
| Pipeline.ProcessPanAadhar | app.py:95-123 | the same, stated over the extracted record, with the store only ever seeing `hash_id(extracted ID)` |
| Pipeline.NormalizeValidity | app.py:140-145 | "" kept, a `%m/%d/%Y` text printed as `%Y-%m-%d`, anything else NULL |
| Pipeline.RegisterCollege | app.py:130-151 | duplicate: no change; otherwise embedding then one insert, which stores the row unless the unique key clashes, in which case it raises and nothing changes |
| Pipeline.ProcessCollegeId | app.py:125-151 | the identity is `hash_id(contact_no + hash_id(name))`, and the lookup, duplicate and insert behaviour are as above |
| Pipeline.ProcessCard | app.py:189-192 | the first store call is a lookup on the table the option selects (keyed by the hashed ID for PAN/Aadhar); the insert counter grows by one exactly when the outcome is Stored, and the tables are unchanged otherwise |
| Pipeline.MainContent | app.py:153-192 | no ID image: no call; no face image: only the face read; face mismatch: stops before OCR with no store call; otherwise OCR, then the processing of the selected table; the store changes only with an insert |

## Left out

- The Streamlit user interface, `main`, the page layout and every `st.*` output: presentation only.
- Image reading, ID cropping, face detection, saving, comparison, OCR and the face embedding: they are library calls. Their results enter as parameters: whether each image is there, whether the faces match, the OCR text, and the embedding as an opaque string.
- SHA-256 itself: `hash_id` is a parameter of type `string -> Digest`, where a digest is 64 lower-case hexadecimal characters. Determinism holds because it is a function.
- The MySQL connection, the configuration file, the `CREATE TABLE` statement, SQL text and pandas DataFrames. The store is an in-memory class.
- The fail-open `except` branches of the duplicate checks, which return False on a database error. The in-memory store does not fail.
- MySQL's own handling of values: converting a `""` validity to a DATE, collation, and NULL in a unique key (the model compares contact numbers as plain strings).
- Logging and `print`: no effect on values.
- Text.Lower: models ASCII case folding only. The code uses it only to test for ASCII keywords, and no non-ASCII letter lowers into one of those.
- Dates.DirectiveValue: reads ASCII digits only, not the other Unicode digits Python's `\d` accepts.
- Text.IsDigit: ASCII digits only, so `Text.DigitsOnly` and `CollegeCard.ContactField` drop non-ASCII decimal digits that `re.sub(r'\D', '', ...)` keeps.
- AadharCard.HasNumberShape: `\d` is read as an ASCII digit, so a number written with other Unicode decimal digits is not found.
- AadharCard.HasDateShape: `\d` is read as an ASCII digit, so a date candidate written with other Unicode decimal digits is not found.
- Dates.FormatIso: prints the year without zero padding, as glibc's `strftime` does for years below 1000.
- The college identity `text_info["ID"]` is computed and returned by `Pipeline.ProcessCollegeId`, but the modelled store does not keep it. `insert_college_id`'s INSERT (sql_connection.py:103-134) does not store it either.

