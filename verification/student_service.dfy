/** `StudentService`: enrolling a student in a class, looking a student up,
    and importing students from the rows of a spreadsheet. */
module StudentService {
  import opened Base
  import opened Query
  import opened Strings
  import opened Entities
  import opened Db

  // ---------------------------------------------------------------------------
  // Enrollment

  /** Student `studentId` is enrolled in class `classId`. */
  predicate IsEnrolled(s: Store, studentId: string, classId: int)
  {
    exists e :: e in s.enrollments && e.studentId == studentId && e.classId == classId
  }

  /** `EnrollStudentInClassAsync(studentId, classId)`: `false` when the pair is
      already enrolled; otherwise one new enrollment stamped `now`, and `true`
      once the database accepts it. */
  function EnrollStudentInClass(s: Store, studentId: string, classId: int, now: Ticks): (r: Transition<bool, DbError>)
    ensures IsEnrolled(s, studentId, classId) ==> r == Transition(s, Ok(false))
    ensures r.result.Err? ==> r.store == s
    ensures r.result == Ok(true) ==>
              && !IsEnrolled(s, studentId, classId)
              && |r.store.enrollments| == |s.enrollments| + 1
              && r.store == s.(enrollments := s.enrollments + [r.store.enrollments[|s.enrollments|]])
              && var e := r.store.enrollments[|s.enrollments|];
                 e.studentId == studentId && e.classId == classId && e.enrolledAt == now
                 && forall f :: f in s.enrollments ==> f.id != e.id
  {
    var same := (e: Enrollment) => e.studentId == studentId && e.classId == classId;
    if AnyWhere(s.enrollments, same) then
      Transition(s, Ok(false))
    else
      assert !IsEnrolled(s, studentId, classId) by {
        forall e | e in s.enrollments ensures !same(e) {
          var i :| 0 <= i < |s.enrollments| && s.enrollments[i] == e;
          assert !same(s.enrollments[i]);
        }
      }
      var e := Enrollment(NextKey(s.enrollments, EnrollmentKey), classId, studentId, now);
      assert forall f :: f in s.enrollments ==> f.id != e.id;
      match SaveChanges(s.(enrollments := s.enrollments + [e]))
      case Ok(next) => Transition(next, Ok(true))
      case Err(err) => Transition(s, Err(err))
  }

  /** On a valid store, a new enrollment is accepted exactly when the class and the
      student exist, and the store stays valid. */
  lemma EnrollOutcome(s: Store, studentId: string, classId: int, now: Ticks)
    requires Valid(s)
    ensures var r := EnrollStudentInClass(s, studentId, classId, now);
            && (r.result == Ok(true) <==> !IsEnrolled(s, studentId, classId) && HasClass(s.classes, classId) && HasUser(s.users, studentId))
            && (r.result.Err? <==> !IsEnrolled(s, studentId, classId) && !(HasClass(s.classes, classId) && HasUser(s.users, studentId)))
            && Valid(r.store)
  {
    if !IsEnrolled(s, studentId, classId) {
      var e := Enrollment(NextKey(s.enrollments, EnrollmentKey), classId, studentId, now);
      var next := s.(enrollments := s.enrollments + [e]);
      assert e in next.enrollments;
      if HasClass(s.classes, classId) && HasUser(s.users, studentId) {
        AppendKeepsDistinctBy(s.enrollments, e, EnrollmentKey);
        forall i | 0 <= i < |s.enrollments| ensures EnrollmentIndex(s.enrollments[i]) != EnrollmentIndex(e) {
          assert s.enrollments[i] in s.enrollments;
        }
        AppendKeepsDistinctBy(s.enrollments, e, EnrollmentIndex);
        assert ReferencesResolve(next);
      }
    }
  }

  /** Enrolling twice leaves the store as enrolling once does. */
  lemma EnrollTwiceIsOnce(s: Store, studentId: string, classId: int, now: Ticks, later: Ticks)
    requires Valid(s)
    ensures var t := EnrollStudentInClass(s, studentId, classId, now).store;
            EnrollStudentInClass(t, studentId, classId, later).store == t
  {
    var r := EnrollStudentInClass(s, studentId, classId, now);
    EnrollOutcome(s, studentId, classId, now);
    if r.result == Ok(true) {
      var e := r.store.enrollments[|s.enrollments|];
      assert e in r.store.enrollments;
      assert IsEnrolled(r.store, studentId, classId);
    }
  }

  // ---------------------------------------------------------------------------
  // Looking a student up

  datatype LookupError = StudentNotFound

  /** `GetStudentByIdAsync(studentId)`: the user with this key, or "Student not found.". */
  function GetStudentById(s: Store, studentId: string): (r: Result<User, LookupError>)
    ensures r.Ok? ==> r.value in s.users && r.value.id == studentId
    ensures r.Err? <==> !HasUser(s.users, studentId)
  {
    match FindUser(s, studentId)
    case None => Err(StudentNotFound)
    case Some(u) => Ok(u)
  }

  /** With unique user keys, the lookup finds the one user with that key. */
  lemma GetStudentByIdIsTheUser(s: Store, u: User)
    requires DistinctBy(s.users, UserKey) && u in s.users
    ensures GetStudentById(s, u.id) == Ok(u)
  {
    var r := GetStudentById(s, u.id);
    DistinctBySameKey(s.users, UserKey, u, r.value);
  }

  // ---------------------------------------------------------------------------
  // Importing students

  /** The fields a spreadsheet row contributes to a new student. */
  datatype ImportRow = ImportRow(email: string, firstName: string, lastName: string)

  /** Reading one row: skipped without an `Email` column or with a blank e-mail;
      otherwise the trimmed e-mail and names, with "Unknown" / "Student" for a
      missing `FirstName` / `LastName` column. */
  function NormalizeRow(row: map<string, string>): (r: Option<ImportRow>)
    ensures r.None? <==> "Email" !in row || AllWhiteSpace(row["Email"])
    ensures r.Some? ==> r.value.email != ""
  {
    if "Email" !in row || IsNullOrWhiteSpace(Some(row["Email"])) then None
    else
      WhiteSpaceIffTrimsToEmpty(row["Email"]);
      Some(ImportRow(
        Trim(row["Email"]),
        if "FirstName" in row then Trim(row["FirstName"]) else "Unknown",
        if "LastName" in row then Trim(row["LastName"]) else "Student"))
  }

  /** A kept row's e-mail is non-empty and already trimmed; its names are trimmed
      column values or the defaults, and a present but empty column gives "". */
  lemma NormalizedRowIsTrimmed(row: map<string, string>)
    requires NormalizeRow(row).Some?
    ensures var n := NormalizeRow(row).value;
            && n.email != "" && Trim(n.email) == n.email
            && n.firstName == (if "FirstName" in row then Trim(row["FirstName"]) else "Unknown")
            && n.lastName == (if "LastName" in row then Trim(row["LastName"]) else "Student")
            && ("FirstName" in row && row["FirstName"] == "" ==> n.firstName == "")
  {
    WhiteSpaceIffTrimsToEmpty(row["Email"]);
    TrimIdempotent(row["Email"]);
    if "FirstName" in row && row["FirstName"] == "" {
      WhiteSpaceIffTrimsToEmpty(row["FirstName"]);
    }
  }

  /** The e-mail addresses already registered. */
  function Emails(users: seq<User>): set<string>
  {
    set u | u in users :: u.email
  }

  /** Each row read on its own. */
  function NormalizeRows(rows: seq<map<string, string>>): (r: seq<Option<ImportRow>>)
    ensures |r| == |rows|
    ensures forall j :: 0 <= j < |rows| ==> r[j] == NormalizeRow(rows[j])
    ensures forall j :: 0 <= j < |r| && r[j].Some? ==> r[j].value.email != ""
  {
    seq(|rows|, j requires 0 <= j < |rows| => NormalizeRow(rows[j]))
  }

  /** The indexes, from `k` on, of the read rows the import keeps, in row order:
      rows that normalised and whose e-mail is not in `taken`. With `dedupe`, each
      kept e-mail joins `taken`, so a later row with the same e-mail is skipped. */
  function KeptRowsFrom(rows: seq<Option<ImportRow>>, k: nat, taken: set<string>, dedupe: bool): (idx: seq<nat>)
    requires k <= |rows|
    ensures |idx| <= |rows| - k
    ensures forall i :: 0 <= i < |idx| ==> k <= idx[i] < |rows|
    ensures forall i, j :: 0 <= i < j < |idx| ==> idx[i] < idx[j]
    ensures forall i :: 0 <= i < |idx| ==> rows[idx[i]].Some? && rows[idx[i]].value.email !in taken
    decreases |rows| - k
  {
    if k == |rows| then []
    else if rows[k].None? || rows[k].value.email in taken then
      KeptRowsFrom(rows, k + 1, taken, dedupe)
    else
      var rest := KeptRowsFrom(rows, k + 1, if dedupe then taken + {rows[k].value.email} else taken, dedupe);
      [k] + rest
  }

  /** The rows the import as written keeps are exactly the rows that normalised
      and whose e-mail was not registered before the import. */
  lemma {:induction false} KeptRowsAsWritten(rows: seq<Option<ImportRow>>, k: nat, taken: set<string>)
    requires k <= |rows|
    ensures forall j :: k <= j < |rows| ==>
              (j in KeptRowsFrom(rows, k, taken, false) <==> rows[j].Some? && rows[j].value.email !in taken)
    decreases |rows| - k
  {
    if k < |rows| {
      KeptRowsAsWritten(rows, k + 1, taken);
    }
  }

  /** The rows at `idx` carry pairwise different e-mails. */
  predicate DistinctEmailsAt(rows: seq<Option<ImportRow>>, idx: seq<nat>)
  {
    forall i, j :: 0 <= i < j < |idx| && idx[i] < |rows| && idx[j] < |rows| && rows[idx[i]].Some? && rows[idx[j]].Some? ==>
      rows[idx[i]].value.email != rows[idx[j]].value.email
  }

  /** With `dedupe`, the kept rows' e-mails are pairwise different. */
  lemma {:induction false} KeptRowsDistinctEmails(rows: seq<Option<ImportRow>>, k: nat, taken: set<string>)
    requires k <= |rows|
    ensures DistinctEmailsAt(rows, KeptRowsFrom(rows, k, taken, true))
    decreases |rows| - k
  {
    if k < |rows| {
      var idx := KeptRowsFrom(rows, k, taken, true);
      if rows[k].None? || rows[k].value.email in taken {
        KeptRowsDistinctEmails(rows, k + 1, taken);
        assert idx == KeptRowsFrom(rows, k + 1, taken, true);
      } else {
        var taken' := taken + {rows[k].value.email};
        KeptRowsDistinctEmails(rows, k + 1, taken');
        var rest := KeptRowsFrom(rows, k + 1, taken', true);
        assert idx == [k] + rest;
        forall i, j | 0 <= i < j < |idx| && idx[i] < |rows| && idx[j] < |rows| && rows[idx[i]].Some? && rows[idx[j]].Some?
          ensures rows[idx[i]].value.email != rows[idx[j]].value.email
        {
          assert idx[j] == rest[j - 1];
          assert rows[rest[j - 1]].value.email !in taken';
          if i == 0 {
            assert idx[0] == k;
            assert rows[k].value.email in taken';
          } else {
            assert idx[i] == rest[i - 1];
            assert 0 <= i - 1 < j - 1 < |rest|;
          }
        }
      }
    }
  }

  /** The student created for a kept row, with the GUID key `id`. The user is
      added to the context directly, not through the account manager, so it
      has no normalised user name. */
  function NewStudent(id: string, n: ImportRow): (u: User)
    ensures u.id == id && u.email == n.email && u.firstName == n.firstName && u.lastName == n.lastName
    ensures u.normalizedUserName.None?
  {
    User(id, n.email, n.firstName, n.lastName, None)
  }

  /** The students an import creates from the kept rows `idx`, the i-th one with key `ids[i]`. */
  function StudentsFor(rows: seq<Option<ImportRow>>, idx: seq<nat>, ids: seq<string>): (r: seq<User>)
    requires |ids| >= |idx|
    requires forall i :: 0 <= i < |idx| ==> idx[i] < |rows| && rows[idx[i]].Some?
    ensures |r| == |idx|
    ensures forall i :: 0 <= i < |idx| ==> r[i] == NewStudent(ids[i], rows[idx[i]].value)
  {
    seq(|idx|, i requires 0 <= i < |idx| => NewStudent(ids[i], rows[idx[i]].value))
  }

  /** Adding the created students; nothing is saved when there are none. */
  function SaveStudents(s: Store, students: seq<User>): (r: Transition<seq<User>, DbError>)
    ensures r.result.Err? ==> r.store == s
    ensures r.result.Ok? ==> r.result.value == students && r.store == s.(users := s.users + students)
  {
    if |students| == 0 then
      assert s.users + [] == s.users;
      Transition(s, Ok([]))
    else
      match SaveChanges(s.(users := s.users + students))
      case Ok(next) => Transition(next, Ok(students))
      case Err(e) => Transition(s, Err(e))
  }

  /** What the created students inherit from the kept rows: a registered-free,
      non-empty e-mail each, and pairwise different e-mails when the kept rows had them. */
  lemma StudentsForEmails(rows: seq<Option<ImportRow>>, idx: seq<nat>, ids: seq<string>, taken: set<string>)
    requires |ids| >= |idx|
    requires forall i :: 0 <= i < |idx| ==> idx[i] < |rows| && rows[idx[i]].Some?
    requires forall i :: 0 <= i < |idx| ==> rows[idx[i]].value.email !in taken && rows[idx[i]].value.email != ""
    ensures forall u :: u in StudentsFor(rows, idx, ids) ==> u.email !in taken && u.email != ""
  {
    var r := StudentsFor(rows, idx, ids);
    forall u | u in r ensures u.email !in taken && u.email != "" {
      var i :| 0 <= i < |r| && r[i] == u;
    }
  }

  /** A user's e-mail address. */
  function UserEmail(u: User): string { u.email }

  /** No two users share an e-mail address. The schema does not demand it: the
      user-name index holds only normalised names, and imported users have none.
      The account pages and the corrected import keep it. */
  predicate EmailsUnique(users: seq<User>)
  {
    DistinctBy(users, UserEmail)
  }

  /** Kept rows with pairwise different e-mails give students with pairwise different e-mails. */
  lemma StudentsForDistinct(rows: seq<Option<ImportRow>>, idx: seq<nat>, ids: seq<string>)
    requires |ids| >= |idx|
    requires forall i :: 0 <= i < |idx| ==> idx[i] < |rows| && rows[idx[i]].Some?
    requires DistinctEmailsAt(rows, idx)
    ensures EmailsUnique(StudentsFor(rows, idx, ids))
  {
  }

  /** The import over rows already read: keep the rows `KeptRowsFrom` selects,
      create one student per kept row and save them together. With `dedupe`, the
      new students' e-mails are pairwise different. */
  function ImportRead(s: Store, read: seq<Option<ImportRow>>, ids: seq<string>, dedupe: bool): (r: Transition<seq<User>, DbError>)
    requires |ids| >= |read|
    requires forall j :: 0 <= j < |read| && read[j].Some? ==> read[j].value.email != ""
    ensures r.result.Err? ==> r.store == s
    ensures r.result.Ok? ==>
              && r.store == s.(users := s.users + r.result.value)
              && |r.result.value| <= |read|
              && (forall u :: u in r.result.value ==> u.email !in Emails(s.users) && u.email != "")
    ensures r.result.Ok? && dedupe ==> EmailsUnique(r.result.value)
  {
    var idx := KeptRowsFrom(read, 0, Emails(s.users), dedupe);
    StudentsForEmails(read, idx, ids, Emails(s.users));
    if dedupe then
      KeptRowsDistinctEmails(read, 0, Emails(s.users));
      StudentsForDistinct(read, idx, ids);
      SaveStudents(s, StudentsFor(read, idx, ids))
    else
      SaveStudents(s, StudentsFor(read, idx, ids))
  }

  /** `ImportStudentsFromExcelAsync` as written: each row is checked against the
      users registered before the import, but not against the rows imported
      earlier in the same file. `ids` supplies one fresh GUID per row. */
  function ImportStudentsAsWritten(s: Store, rows: seq<map<string, string>>, ids: seq<string>): (r: Transition<seq<User>, DbError>)
    requires |ids| >= |rows|
    ensures r.result.Err? ==> r.store == s
    ensures r.result.Ok? ==>
              && r.store == s.(users := s.users + r.result.value)
              && |r.result.value| <= |rows|
              && forall u :: u in r.result.value ==> u.email !in Emails(s.users) && u.email != ""
  {
    ImportRead(s, NormalizeRows(rows), ids, false)
  }

  /** `ImportStudentsFromExcelAsync` as evidently intended: a row whose e-mail was
      already imported earlier in the same file is skipped too. */
  function ImportStudents(s: Store, rows: seq<map<string, string>>, ids: seq<string>): (r: Transition<seq<User>, DbError>)
    requires |ids| >= |rows|
    ensures r.result.Err? ==> r.store == s
    ensures r.result.Ok? ==>
              && r.store == s.(users := s.users + r.result.value)
              && |r.result.value| <= |rows|
              && (forall u :: u in r.result.value ==> u.email !in Emails(s.users) && u.email != "")
              && EmailsUnique(r.result.value)
  {
    ImportRead(s, NormalizeRows(rows), ids, true)
  }

  /** The import as written keeps exactly the rows that normalise and whose e-mail
      was not registered before, in row order, and makes the i-th kept row the
      i-th new student. */
  lemma ImportAsWrittenKeepsRowOrder(s: Store, rows: seq<map<string, string>>, ids: seq<string>)
    requires |ids| >= |rows|
    ensures var idx := KeptRowsFrom(NormalizeRows(rows), 0, Emails(s.users), false);
            var r := ImportStudentsAsWritten(s, rows, ids);
            && (forall i, j :: 0 <= i < j < |idx| ==> idx[i] < idx[j])
            && (forall j :: 0 <= j < |rows| ==>
                  (j in idx <==> NormalizeRow(rows[j]).Some? && NormalizeRow(rows[j]).value.email !in Emails(s.users)))
            && (r.result.Ok? ==>
                  && |r.result.value| == |idx|
                  && forall i :: 0 <= i < |idx| ==> r.result.value[i] == NewStudent(ids[i], NormalizeRow(rows[idx[i]]).value))
  {
    KeptRowsAsWritten(NormalizeRows(rows), 0, Emails(s.users));
  }

  /** On a valid store, an import with distinct, unused GUID keys is always
      accepted and keeps the store valid, whether or not it skips repeated
      addresses: the new users have no normalised name, so the user-name index
      never refuses them. */
  lemma ImportReadOutcome(s: Store, read: seq<Option<ImportRow>>, ids: seq<string>, dedupe: bool)
    requires Valid(s) && |ids| >= |read| && Distinct(ids)
    requires forall j :: 0 <= j < |read| && read[j].Some? ==> read[j].value.email != ""
    requires forall u, id :: u in s.users && id in ids ==> u.id != id
    ensures ImportRead(s, read, ids, dedupe).result.Ok?
    ensures Valid(ImportRead(s, read, ids, dedupe).store)
  {
    var idx := KeptRowsFrom(read, 0, Emails(s.users), dedupe);
    var students := StudentsFor(read, idx, ids);
    forall j | 0 <= j < |students| ensures students[j].id in ids && students[j].normalizedUserName.None? {
      assert students[j].id == ids[j];
    }
    forall i, j | 0 <= i < j < |students| ensures students[i].id != students[j].id {
      assert students[i].id == ids[i] && students[j].id == ids[j];
    }
    NewStudentsKeepValid(s, students, ids);
    assert SaveStudents(s, students).result.Ok?;
  }

  /** Adding users without a normalised name under pairwise different, unused
      keys keeps the store valid. */
  lemma NewStudentsKeepValid(s: Store, students: seq<User>, ids: seq<string>)
    requires Valid(s)
    requires forall j :: 0 <= j < |students| ==> students[j].id in ids && students[j].normalizedUserName.None?
    requires forall i, j :: 0 <= i < j < |students| ==> students[i].id != students[j].id
    requires forall u, id :: u in s.users && id in ids ==> u.id != id
    ensures Valid(s.(users := s.users + students))
  {
    var next := s.(users := s.users + students);
    forall i, j | 0 <= i < |s.users| && 0 <= j < |students| ensures UserKey(s.users[i]) != UserKey(students[j]) {
      assert s.users[i] in s.users;
    }
    ConcatKeepsDistinctBy(s.users, students, UserKey);
    AppendNullKeysKeepsDistinctByNonNull(s.users, students, UserNameIndex);
    forall c | c in next.classes ensures HasCourse(next.courses, c.courseId) && HasUser(next.users, c.teacherId) {
      var u :| u in s.users && u.id == c.teacherId;
      assert u in next.users;
    }
    forall e | e in next.enrollments ensures HasClass(next.classes, e.classId) && HasUser(next.users, e.studentId) {
      var u :| u in s.users && u.id == e.studentId;
      assert u in next.users;
    }
    forall a | a in next.attendances ensures HasSession(next.sessions, a.sessionId) && HasUser(next.users, a.studentId) {
      var u :| u in s.users && u.id == a.studentId;
      assert u in next.users;
    }
    assert ReferencesResolve(next);
  }

  /** On a valid store, an import with distinct, unused GUID keys is always
      accepted and keeps the store valid, as written and as corrected. */
  lemma ImportKeepsValid(s: Store, rows: seq<map<string, string>>, ids: seq<string>)
    requires Valid(s) && |ids| >= |rows| && Distinct(ids)
    requires forall u, id :: u in s.users && id in ids ==> u.id != id
    ensures ImportStudents(s, rows, ids).result.Ok?
    ensures Valid(ImportStudents(s, rows, ids).store)
    ensures ImportStudentsAsWritten(s, rows, ids).result.Ok?
    ensures Valid(ImportStudentsAsWritten(s, rows, ids).store)
  {
    ImportReadOutcome(s, NormalizeRows(rows), ids, true);
    ImportReadOutcome(s, NormalizeRows(rows), ids, false);
  }

  /** The corrected import never gives two users the same e-mail address. */
  lemma ImportKeepsEmailsUnique(s: Store, rows: seq<map<string, string>>, ids: seq<string>)
    requires EmailsUnique(s.users) && |ids| >= |rows|
    ensures EmailsUnique(ImportStudents(s, rows, ids).store.users)
  {
    var r := ImportStudents(s, rows, ids);
    if r.result.Ok? {
      var students := r.result.value;
      forall i, j | 0 <= i < |s.users| && 0 <= j < |students| ensures UserEmail(s.users[i]) != UserEmail(students[j]) {
        assert s.users[i] in s.users && students[j] in students;
      }
      ConcatKeepsDistinctBy(s.users, students, UserEmail);
    }
  }

  /** The import as written saves both rows of a file that carries the same new
      address twice: a file with the same non-blank e-mail, unknown to the
      store, on two rows creates two students with that address, and the
      store, still valid, no longer has one address per user. */
  lemma ImportAsWrittenDuplicatesEmail(s: Store, email: string, ids: seq<string>)
    requires Valid(s) && !AllWhiteSpace(email) && Trim(email) !in Emails(s.users)
    requires |ids| >= 2 && Distinct(ids) && forall u, id :: u in s.users && id in ids ==> u.id != id
    ensures var row := map["Email" := email];
            var n := ImportRow(Trim(email), "Unknown", "Student");
            var r := ImportStudentsAsWritten(s, [row, row], ids);
            && r.result.Ok?
            && r.result.value == [NewStudent(ids[0], n), NewStudent(ids[1], n)]
            && Valid(r.store)
            && !EmailsUnique(r.store.users)
  {
    var row := map["Email" := email];
    var n := ImportRow(Trim(email), "Unknown", "Student");
    RepeatedRowReads(email);
    var read := NormalizeRows([row, row]);
    assert read == [Some(n), Some(n)];
    KeepsBothCopies(n, Emails(s.users));
    ImportKeepsValid(s, [row, row], ids);
    var r := ImportStudentsAsWritten(s, [row, row], ids);
    assert r == ImportRead(s, read, ids, false);
    assert r.result.value == [NewStudent(ids[0], n), NewStudent(ids[1], n)];
    var k := |s.users|;
    assert r.store.users[k] == NewStudent(ids[0], n) && r.store.users[k + 1] == NewStudent(ids[1], n);
    assert UserEmail(r.store.users[k]) == UserEmail(r.store.users[k + 1]);
  }

  /** Two copies of a row holding only a non-blank e-mail read as two copies of
      the trimmed address with the default names. */
  lemma RepeatedRowReads(email: string)
    requires !AllWhiteSpace(email)
    ensures var row := map["Email" := email];
            NormalizeRows([row, row]) == [Some(ImportRow(Trim(email), "Unknown", "Student"))] + [Some(ImportRow(Trim(email), "Unknown", "Student"))]
  {
  }

  /** Without skipping repeats, both copies of an unregistered address are kept. */
  lemma KeepsBothCopies(n: ImportRow, taken: set<string>)
    requires n.email !in taken
    ensures KeptRowsFrom([Some(n), Some(n)], 0, taken, false) == [0, 1]
  {
    var read := [Some(n), Some(n)];
    assert KeptRowsFrom(read, 2, taken, false) == [];
    assert KeptRowsFrom(read, 1, taken, false) == [1];
  }

  /** The corrected import keeps only the first of those two rows. */
  lemma ImportSkipsRepeatedEmail(s: Store, email: string, ids: seq<string>)
    requires Valid(s) && !AllWhiteSpace(email) && Trim(email) !in Emails(s.users)
    requires |ids| >= 2 && Distinct(ids) && forall u, id :: u in s.users && id in ids ==> u.id != id
    ensures var row := map["Email" := email];
            var r := ImportStudents(s, [row, row], ids);
            && r.result.Ok?
            && r.result.value == [NewStudent(ids[0], ImportRow(Trim(email), "Unknown", "Student"))]
  {
    var row := map["Email" := email];
    var n := ImportRow(Trim(email), "Unknown", "Student");
    RepeatedRowReads(email);
    var read := NormalizeRows([row, row]);
    assert read == [Some(n), Some(n)];
    KeepsFirstCopy(n, Emails(s.users));
    ImportKeepsValid(s, [row, row], ids);
    assert ImportStudents(s, [row, row], ids) == ImportRead(s, read, ids, true);
  }

  /** Skipping repeats, only the first copy of an unregistered address is kept. */
  lemma KeepsFirstCopy(n: ImportRow, taken: set<string>)
    requires n.email !in taken
    ensures KeptRowsFrom([Some(n), Some(n)], 0, taken, true) == [0]
  {
    var read := [Some(n), Some(n)];
    assert KeptRowsFrom(read, 2, taken + {n.email}, true) == [];
    assert KeptRowsFrom(read, 1, taken + {n.email}, true) == [];
  }
}
