/** `AdminController`: the create, edit and delete actions on semesters,
    courses, classes, accounts and enrollments, and the active-semester figure
    of the reports page. Each action is a transition of the store with the
    outcome the page shows; the form's model-state validity and the account
    manager's verdict are arguments, and role assignment is not modelled. */
module AdminController {
  import opened Base
  import opened Strings
  import opened Query
  import opened Entities
  import opened Semesters
  import opened Db
  import opened CourseBuilders
  import opened StudentService
  import DeleteRules

  /** Why an action does not complete: a guard of the action, a builder
      exception, an exception the action catches and reports on its form
      (`SaveRejected`), or one it lets escape (`Unhandled`). */
  datatype AdminError =
    | NotFound
    | InvalidModel
    | InvalidSemester
    | InvalidCourseOrTeacher
    | EmailInUse
    | AccountRefused
    | BuilderRejected(error: BuilderError)
    | AlreadyEnrolled
    | TeacherHasClasses
    | SaveRejected(dbError: DbError)
    | Unhandled(dbError: DbError)

  /** A deletion whose exception the action does not catch. */
  function Uncaught(s: Store, r: Result<Store, DbError>): (t: Transition<(), AdminError>)
    ensures r.Ok? ==> t == Transition(r.value, Ok(()))
    ensures r.Err? ==> t == Transition(s, Err(Unhandled(r.error)))
  {
    match r
    case Ok(next) => Transition(next, Ok(()))
    case Err(e) => Transition(s, Err(Unhandled(e)))
  }

  // ---------------------------------------------------------------------------
  // Updating a tracked row

  /** `Update(x)` followed by saving: every row with key `id` becomes `x`. */
  function ReplaceById<T>(rows: seq<T>, key: T -> int, id: int, x: T): (r: seq<T>)
    ensures |r| == |rows|
    ensures forall i :: 0 <= i < |rows| ==> r[i] == if key(rows[i]) == id then x else rows[i]
  {
    seq(|rows|, i requires 0 <= i < |rows| => if key(rows[i]) == id then x else rows[i])
  }

  /** Replacing rows by a row with the same key keeps every key, so the primary
      key stays unique, and every key present before is present after. */
  lemma ReplaceKeepsKeys<T>(rows: seq<T>, key: T -> int, id: int, x: T)
    requires key(x) == id
    ensures forall i :: 0 <= i < |rows| ==> key(ReplaceById(rows, key, id, x)[i]) == key(rows[i])
    ensures DistinctBy(rows, key) ==> DistinctBy(ReplaceById(rows, key, id, x), key)
    ensures forall y :: y in rows ==> exists z :: z in ReplaceById(rows, key, id, x) && key(z) == key(y)
    ensures forall z :: z in ReplaceById(rows, key, id, x) ==> z == x || z in rows
  {
    var r := ReplaceById(rows, key, id, x);
    if DistinctBy(rows, key) {
      SameKeysKeepDistinctBy(rows, r, key);
    }
    forall y | y in rows ensures exists z :: z in r && key(z) == key(y) {
      var i :| 0 <= i < |rows| && rows[i] == y;
      assert r[i] in r;
    }
  }

  /** With a unique key, replacing the row with key `id` keeps a second unique index
      exactly when no other row has the new row's index value. */
  lemma ReplaceKeepsIndexIff<T, K>(rows: seq<T>, key: T -> int, index: T -> K, id: int, x: T, m: nat)
    requires DistinctBy(rows, key) && DistinctBy(rows, index)
    requires key(x) == id && m < |rows| && key(rows[m]) == id
    ensures DistinctBy(ReplaceById(rows, key, id, x), index) <==>
              forall y :: y in rows && key(y) != id ==> index(y) != index(x)
  {
    var r := ReplaceById(rows, key, id, x);
    if forall y :: y in rows && key(y) != id ==> index(y) != index(x) {
      forall i, j | 0 <= i < j < |r| ensures index(r[i]) != index(r[j]) {
        if key(rows[i]) == id && key(rows[j]) != id {
          assert rows[j] in rows;
        } else if key(rows[i]) != id && key(rows[j]) == id {
          assert rows[i] in rows;
        }
      }
    } else {
      var y :| y in rows && key(y) != id && index(y) == index(x);
      var k :| 0 <= k < |rows| && rows[k] == y;
      assert r[k] == y && r[m] == x && k != m;
      if k < m {
        assert index(r[k]) == index(r[m]);
      } else {
        assert index(r[m]) == index(r[k]);
      }
    }
  }

  // ---------------------------------------------------------------------------
  // Semesters

  /** `CreateSemester(semester)`: with a valid form, the semester stamped `now`
      under the next identity value. An exception on saving is not caught. */
  function CreateSemester(s: Store, form: Semester, modelValid: bool, now: Ticks): (r: Transition<Semester, AdminError>)
    ensures !modelValid ==> r == Transition(s, Err(InvalidModel))
    ensures r.result.Err? ==> r.store == s
    ensures r.result.Ok? ==>
              var x := r.result.value;
              && r.store == s.(semesters := s.semesters + [x])
              && x == form.(id := x.id, createdAt := now)
              && forall y :: y in s.semesters ==> y.id != x.id
  {
    if !modelValid then Transition(s, Err(InvalidModel))
    else
      var x := form.(id := NextKey(s.semesters, SemesterKey), createdAt := now);
      assert forall y :: y in s.semesters ==> y.id != x.id;
      match SaveChanges(s.(semesters := s.semesters + [x]))
      case Ok(next) => Transition(next, Ok(x))
      case Err(e) => Transition(s, Err(Unhandled(e)))
  }

  /** On a valid store a valid form always creates the semester, and the store stays valid. */
  lemma CreateSemesterOutcome(s: Store, form: Semester, modelValid: bool, now: Ticks)
    requires Valid(s)
    ensures var r := CreateSemester(s, form, modelValid, now);
            (r.result.Ok? <==> modelValid) && Valid(r.store)
  {
    if modelValid {
      AppendSemesterKeepsValid(s, form.(id := NextKey(s.semesters, SemesterKey), createdAt := now));
    }
  }

  /** Adding a semester under an unused key keeps the store valid. */
  lemma AppendSemesterKeepsValid(s: Store, x: Semester)
    requires Valid(s) && forall y :: y in s.semesters ==> y.id != x.id
    ensures Valid(s.(semesters := s.semesters + [x]))
  {
    var next := s.(semesters := s.semesters + [x]);
    forall i | 0 <= i < |s.semesters| ensures SemesterKey(s.semesters[i]) != SemesterKey(x) {
      assert s.semesters[i] in s.semesters;
    }
    AppendKeepsDistinctBy(s.semesters, x, SemesterKey);
    forall c | c in next.courses ensures HasSemester(next.semesters, c.semesterId) {
      var y :| y in s.semesters && y.id == c.semesterId;
      assert y in next.semesters;
    }
    assert ReferencesResolve(next);
  }

  /** `EditSemester(id, semester)`: not found when the route id and the form's id
      differ. With a valid form, a form whose id is 0 (the unset key) is tracked
      as a new row by `Update`, so it is inserted under the next identity value
      with the form's other columns; otherwise every column of the semester is
      overwritten by the form's. A semester that no longer exists surfaces as a
      concurrency exception, which the action turns into not found. */
  function EditSemester(s: Store, id: int, form: Semester, modelValid: bool): (r: Transition<(), AdminError>)
    ensures id != form.id ==> r == Transition(s, Err(NotFound))
    ensures r.result.Err? ==> r.store == s
    ensures r.result.Ok? ==> modelValid && id == form.id
    ensures r.result.Ok? && id != 0 ==>
              && HasSemester(s.semesters, id)
              && r.store == s.(semesters := ReplaceById(s.semesters, SemesterKey, id, form))
    ensures r.result.Ok? && id == 0 ==>
              && |r.store.semesters| == |s.semesters| + 1
              && var x := r.store.semesters[|s.semesters|];
                 && r.store == s.(semesters := s.semesters + [x])
                 && x == form.(id := x.id) && x.id > 0
                 && forall y :: y in s.semesters ==> y.id != x.id
  {
    if id != form.id then Transition(s, Err(NotFound))
    else if !modelValid then Transition(s, Err(InvalidModel))
    else if id == 0 then
      var x := form.(id := NextKey(s.semesters, SemesterKey));
      assert forall y :: y in s.semesters ==> y.id != x.id;
      match SaveChanges(s.(semesters := s.semesters + [x]))
      case Ok(next) =>
        assert next.semesters[|s.semesters|] == x;
        Transition(next, Ok(()))
      case Err(e) => Transition(s, Err(Unhandled(e)))
    else if !HasSemester(s.semesters, id) then Transition(s, Err(NotFound))
    else
      match SaveChanges(s.(semesters := ReplaceById(s.semesters, SemesterKey, id, form)))
      case Ok(next) => Transition(next, Ok(()))
      case Err(e) => Transition(s, Err(Unhandled(e)))
  }

  /** On a valid store the edit succeeds exactly when the ids agree, the form is
      valid and the id is either unset or names an existing semester; afterwards
      an existing semester's id finds the form, and the store stays valid. */
  lemma EditSemesterOutcome(s: Store, id: int, form: Semester, modelValid: bool)
    requires Valid(s)
    ensures var r := EditSemester(s, id, form, modelValid);
            && (r.result.Ok? <==> id == form.id && modelValid && (id == 0 || HasSemester(s.semesters, id)))
            && (r.result.Ok? && id != 0 ==> FindSemester(r.store, id) == Some(form))
            && Valid(r.store)
  {
    if id == form.id && modelValid && id == 0 {
      AppendSemesterKeepsValid(s, form.(id := NextKey(s.semesters, SemesterKey)));
    } else if id == form.id && modelValid && HasSemester(s.semesters, id) {
      ReplaceSemesterKeepsValid(s, form);
      ReplacedSemesterFound(s, form);
    }
  }

  /** Overwriting a semester keeps the store valid: no key changes, so every
      course still finds its semester. */
  lemma ReplaceSemesterKeepsValid(s: Store, form: Semester)
    requires Valid(s)
    ensures Valid(s.(semesters := ReplaceById(s.semesters, SemesterKey, form.id, form)))
  {
    var xs := ReplaceById(s.semesters, SemesterKey, form.id, form);
    var next := s.(semesters := xs);
    ReplaceKeepsKeys(s.semesters, SemesterKey, form.id, form);
    forall c | c in next.courses ensures HasSemester(xs, c.semesterId) {
      var y :| y in s.semesters && y.id == c.semesterId;
      var z :| z in xs && SemesterKey(z) == SemesterKey(y);
    }
    assert ReferencesResolve(next);
  }

  /** After overwriting an existing semester its id finds the new row. */
  lemma ReplacedSemesterFound(s: Store, form: Semester)
    requires Valid(s) && HasSemester(s.semesters, form.id)
    ensures FindSemester(s.(semesters := ReplaceById(s.semesters, SemesterKey, form.id, form)), form.id) == Some(form)
  {
    var xs := ReplaceById(s.semesters, SemesterKey, form.id, form);
    var next := s.(semesters := xs);
    ReplaceKeepsKeys(s.semesters, SemesterKey, form.id, form);
    var y :| y in s.semesters && y.id == form.id;
    var m :| 0 <= m < |s.semesters| && s.semesters[m] == y;
    assert xs[m] == form;
    var f := FindSemester(next, form.id).value;
    DistinctBySameKey(xs, SemesterKey, f, form);
  }

  /** `DeleteSemester(id)`: nothing for an unknown id; otherwise the deletion,
      whose refusal escapes the action. */
  function DeleteSemester(s: Store, id: int): (r: Transition<(), AdminError>)
    ensures !HasSemester(s.semesters, id) ==> r == Transition(s, Ok(()))
    ensures r.result.Err? ==> r.store == s && r.result.error.Unhandled?
    ensures r.result.Ok? && HasSemester(s.semesters, id) ==> r.store == RemoveSemesterRow(s, id)
  {
    Uncaught(s, Db.DeleteSemester(s, id))
  }

  /** On a valid store deleting a semester fails exactly when it still has a course,
      and otherwise leaves no semester with that id. */
  lemma DeleteSemesterOutcome(s: Store, id: int)
    requires Valid(s)
    ensures var r := DeleteSemester(s, id);
            && (r.result.Err? <==> HasSemester(s.semesters, id) && exists c :: c in s.courses && c.semesterId == id)
            && (r.result.Ok? ==> !HasSemester(r.store.semesters, id))
            && Valid(r.store)
  {
    DeleteRules.DeleteSemesterRestrictedByCourses(s, id);
  }

  // ---------------------------------------------------------------------------
  // Courses

  /** The builder chain of `CreateCourse`: each setter in turn, stopping at the
      first that throws, with the builder as that setter left it. */
  function RunSetters(b: CourseBuilder, code: Option<string>, name: Option<string>, description: Option<string>,
                      credits: int, semester: Semester): (r: Step)
    ensures r.outcome.Ok? <==> !IsNullOrWhiteSpace(code) && !IsNullOrWhiteSpace(name) && credits > 0
    ensures r.outcome.Err? ==> r.outcome.error == (if IsNullOrWhiteSpace(code) then EmptyCode
                                                   else if IsNullOrWhiteSpace(name) then EmptyName
                                                   else NonPositiveCredits)
    ensures r.outcome.Ok? ==>
              r.builder.course == Course(b.course.id, ToUpper(code.value), name.value,
                                         if description.Some? then description.value else "",
                                         credits, semester.id, b.course.createdAt)
  {
    var s1 := SetCode(b, code);
    if s1.outcome.Err? then s1
    else
      var s2 := SetName(s1.builder, name);
      if s2.outcome.Err? then s2
      else
        var s3 := SetDescription(s2.builder, description);
        var s4 := SetCredits(s3.builder, credits);
        if s4.outcome.Err? then s4
        else SetSemester(s4.builder, Some(semester))
  }

  /** A setter that throws part-way leaves the earlier setters' values in the
      builder: a rejected name keeps the upper-cased code. */
  lemma RejectedNameKeepsCode(b: CourseBuilder, code: string, name: Option<string>, description: Option<string>,
                              credits: int, semester: Semester)
    requires !AllWhiteSpace(code) && IsNullOrWhiteSpace(name)
    ensures var r := RunSetters(b, Some(code), name, description, credits, semester);
            r.outcome == Err(EmptyName) && r.builder.course == b.course.(code := ToUpper(code))
  {
  }

  /** `CreateCourse(code, name, description, credits, semesterId)`: the semester
      must exist; the builder's setters and `Build` validate; the course is added
      under the next identity value. Builder and database exceptions are caught
      and reported on the form. The builder is returned as the chain left it. */
  function CreateCourse(s: Store, b: CourseBuilder, code: Option<string>, name: Option<string>,
                        description: Option<string>, credits: int, semesterId: int, now: Ticks)
    : (r: (Transition<Course, AdminError>, CourseBuilder))
    ensures !HasSemester(s.semesters, semesterId) ==> r == (Transition(s, Err(InvalidSemester)), b)
    ensures r.0.result.Err? ==> r.0.store == s
    ensures r.0.result.Ok? ==>
              var c := r.0.result.value;
              && r.0.store == s.(courses := s.courses + [c])
              && code.Some? && name.Some? && c.code == ToUpper(code.value) && c.name == name.value
              && c.description == (if description.Some? then description.value else "")
              && c.credits == credits && c.semesterId == semesterId && c.createdAt == b.course.createdAt
              && (forall y :: y in s.courses ==> y.id != c.id)
              && r.1 == Reset(now)
  {
    match FindSemester(s, semesterId)
    case None => (Transition(s, Err(InvalidSemester)), b)
    case Some(semester) =>
      var chain := RunSetters(b, code, name, description, credits, semester);
      if chain.outcome.Err? then (Transition(s, Err(BuilderRejected(chain.outcome.error))), chain.builder)
      else
        var (built, next) := CourseBuilders.Build(chain.builder, now);
        if built.Err? then (Transition(s, Err(BuilderRejected(built.error))), next)
        else
          var c := built.value.(id := NextKey(s.courses, CourseKey));
          assert forall y :: y in s.courses ==> y.id != c.id;
          match SaveChanges(s.(courses := s.courses + [c]))
          case Ok(saved) => (Transition(saved, Ok(c)), next)
          case Err(e) => (Transition(s, Err(SaveRejected(e))), next)
  }

  /** On a valid store a course is created exactly when the semester exists and
      its id is not 0, code and name are not blank, credits are positive, and no
      course of that semester has the upper-cased code; the store stays valid. */
  lemma CreateCourseOutcome(s: Store, b: CourseBuilder, code: Option<string>, name: Option<string>,
                            description: Option<string>, credits: int, semesterId: int, now: Ticks)
    requires Valid(s)
    ensures var r := CreateCourse(s, b, code, name, description, credits, semesterId, now).0;
            && (r.result.Ok? <==>
                  && HasSemester(s.semesters, semesterId) && semesterId != 0
                  && !IsNullOrWhiteSpace(code) && !IsNullOrWhiteSpace(name) && credits > 0
                  && forall y :: y in s.courses ==> CourseCodeIndex(y) != (ToUpper(code.value), semesterId))
            && Valid(r.store)
  {
    var r := CreateCourse(s, b, code, name, description, credits, semesterId, now).0;
    if HasSemester(s.semesters, semesterId) && !IsNullOrWhiteSpace(code) && !IsNullOrWhiteSpace(name) && credits > 0 {
      var semester := FindSemester(s, semesterId).value;
      var chain := RunSetters(b, code, name, description, credits, semester);
      assert |code.value| > 0 && |name.value| > 0;
      if semesterId != 0 {
        var c := chain.builder.course.(id := NextKey(s.courses, CourseKey));
        var next := s.(courses := s.courses + [c]);
        assert c.code == ToUpper(code.value) && c.semesterId == semesterId;
        if y :| y in s.courses && CourseCodeIndex(y) == (ToUpper(code.value), semesterId) {
          var k :| 0 <= k < |s.courses| && s.courses[k] == y;
          assert next.courses[k] == y && next.courses[|s.courses|] == c;
          assert !DistinctBy(next.courses, CourseCodeIndex);
        } else {
          NewCourseKeepsValid(s, c);
          assert r.result.Ok?;
        }
      }
    }
  }

  /** Adding a course with a new id, an existing semester and a code no course of
      that semester has keeps the store valid. */
  lemma NewCourseKeepsValid(s: Store, c: Course)
    requires Valid(s) && HasSemester(s.semesters, c.semesterId)
    requires forall y :: y in s.courses ==> y.id != c.id && CourseCodeIndex(y) != CourseCodeIndex(c)
    ensures Valid(s.(courses := s.courses + [c]))
  {
    var next := s.(courses := s.courses + [c]);
    forall i | 0 <= i < |s.courses| ensures CourseKey(s.courses[i]) != CourseKey(c) && CourseCodeIndex(s.courses[i]) != CourseCodeIndex(c) {
      assert s.courses[i] in s.courses;
    }
    AppendKeepsDistinctBy(s.courses, c, CourseKey);
    AppendKeepsDistinctBy(s.courses, c, CourseCodeIndex);
    forall x | x in next.classes ensures HasCourse(next.courses, x.courseId) && HasUser(next.users, x.teacherId) {
      var y :| y in s.courses && y.id == x.courseId;
      assert y in next.courses;
    }
    assert ReferencesResolve(next);
  }

  /** `EditCourse(id, code, name, description, credits, semesterId)`: not found for
      an unknown course; the semester must exist; then the values are stored as
      given, without the builder's upper-casing or validation. A missing value
      violates its non-null column; database exceptions are caught. */
  function EditCourse(s: Store, id: int, code: Option<string>, name: Option<string>, description: Option<string>,
                      credits: int, semesterId: int): (r: Transition<(), AdminError>)
    ensures !HasCourse(s.courses, id) ==> r == Transition(s, Err(NotFound))
    ensures HasCourse(s.courses, id) && !HasSemester(s.semesters, semesterId) ==> r == Transition(s, Err(InvalidSemester))
    ensures r.result.Err? ==> r.store == s
    ensures r.result.Ok? ==>
              && code.Some? && name.Some? && description.Some?
              && exists c :: && c in s.courses && c.id == id
                             && r.store == s.(courses := ReplaceById(s.courses, CourseKey, id,
                                                c.(code := code.value, name := name.value, description := description.value,
                                                   credits := credits, semesterId := semesterId)))
  {
    match FindCourse(s, id)
    case None => Transition(s, Err(NotFound))
    case Some(c) =>
      if !HasSemester(s.semesters, semesterId) then Transition(s, Err(InvalidSemester))
      else if code.None? || name.None? || description.None? then Transition(s, Err(SaveRejected(ConstraintViolation)))
      else
        var edited := c.(code := code.value, name := name.value, description := description.value,
                         credits := credits, semesterId := semesterId);
        match SaveChanges(s.(courses := ReplaceById(s.courses, CourseKey, id, edited)))
        case Ok(next) => Transition(next, Ok(()))
        case Err(e) => Transition(s, Err(SaveRejected(e)))
  }

  /** On a valid store an edit succeeds exactly when the course and the semester
      exist, every text is present, and no other course of that semester has the
      code as given; the store stays valid. */
  lemma EditCourseOutcome(s: Store, id: int, code: Option<string>, name: Option<string>, description: Option<string>,
                          credits: int, semesterId: int)
    requires Valid(s)
    ensures var r := EditCourse(s, id, code, name, description, credits, semesterId);
            && (r.result.Ok? <==>
                  && HasCourse(s.courses, id) && HasSemester(s.semesters, semesterId)
                  && code.Some? && name.Some? && description.Some?
                  && forall y :: y in s.courses && y.id != id ==> CourseCodeIndex(y) != (code.value, semesterId))
            && Valid(r.store)
  {
    if HasCourse(s.courses, id) && HasSemester(s.semesters, semesterId) && code.Some? && name.Some? && description.Some? {
      var c := FindCourse(s, id).value;
      var edited := c.(code := code.value, name := name.value, description := description.value,
                       credits := credits, semesterId := semesterId);
      ReplaceCourseValidIff(s, c, edited);
    }
  }

  /** Overwriting a course with a row of the same id and an existing semester
      keeps the store valid exactly when no other course has the new row's code
      in its semester. */
  lemma ReplaceCourseValidIff(s: Store, c: Course, edited: Course)
    requires Valid(s) && c in s.courses && edited.id == c.id && HasSemester(s.semesters, edited.semesterId)
    ensures var next := s.(courses := ReplaceById(s.courses, CourseKey, c.id, edited));
            && (SchemaHolds(next) <==>
                  forall y :: y in s.courses && y.id != c.id ==> CourseCodeIndex(y) != CourseCodeIndex(edited))
            && (SchemaHolds(next) ==> Valid(next))
  {
    var cs := ReplaceById(s.courses, CourseKey, c.id, edited);
    var m :| 0 <= m < |s.courses| && s.courses[m] == c;
    ReplaceCourseKeepsReferences(s, edited);
    ReplaceKeepsIndexIff(s.courses, CourseKey, CourseCodeIndex, c.id, edited, m);
  }

  /** Overwriting a course with a row of the same id and an existing semester
      keeps the primary keys unique and every reference resolved. */
  lemma ReplaceCourseKeepsReferences(s: Store, edited: Course)
    requires Valid(s) && HasSemester(s.semesters, edited.semesterId)
    ensures var next := s.(courses := ReplaceById(s.courses, CourseKey, edited.id, edited));
            PrimaryKeysUnique(next) && ReferencesResolve(next)
  {
    var cs := ReplaceById(s.courses, CourseKey, edited.id, edited);
    var next := s.(courses := cs);
    ReplaceKeepsKeys(s.courses, CourseKey, edited.id, edited);
    forall z | z in cs ensures HasSemester(next.semesters, z.semesterId) {
      if z != edited {
        assert z in s.courses;
      }
    }
    forall x | x in next.classes ensures HasCourse(cs, x.courseId) && HasUser(next.users, x.teacherId) {
      var y :| y in s.courses && y.id == x.courseId;
      var z :| z in cs && CourseKey(z) == CourseKey(y);
    }
  }

  /** An edit may store a code the builder would have upper-cased: the code is
      kept exactly as given. */
  lemma EditCourseKeepsCodeAsGiven(s: Store, id: int, code: string, name: string, description: string,
                                   credits: int, semesterId: int)
    requires EditCourse(s, id, Some(code), Some(name), Some(description), credits, semesterId).result.Ok?
    ensures var t := EditCourse(s, id, Some(code), Some(name), Some(description), credits, semesterId).store;
            exists c :: c in t.courses && c.id == id && c.code == code && c.semesterId == semesterId
  {
    var c :| c in s.courses && c.id == id
             && EditCourse(s, id, Some(code), Some(name), Some(description), credits, semesterId).store
                == s.(courses := ReplaceById(s.courses, CourseKey, id,
                        c.(code := code, name := name, description := description, credits := credits, semesterId := semesterId)));
    var k :| 0 <= k < |s.courses| && s.courses[k] == c;
    var t := EditCourse(s, id, Some(code), Some(name), Some(description), credits, semesterId).store;
    assert t.courses[k] in t.courses;
  }

  /** `DeleteCourse(id)`: nothing for an unknown id; otherwise the deletion, whose
      refusal escapes the action. */
  function DeleteCourse(s: Store, id: int): (r: Transition<(), AdminError>)
    ensures !HasCourse(s.courses, id) ==> r == Transition(s, Ok(()))
    ensures r.result.Err? ==> r.store == s && r.result.error.Unhandled?
    ensures r.result.Ok? && HasCourse(s.courses, id) ==> r.store == RemoveCourseRow(s, id)
  {
    Uncaught(s, Db.DeleteCourse(s, id))
  }

  /** On a valid store deleting a course fails exactly when it still has a class. */
  lemma DeleteCourseOutcome(s: Store, id: int)
    requires Valid(s)
    ensures var r := DeleteCourse(s, id);
            && (r.result.Err? <==> HasCourse(s.courses, id) && exists c :: c in s.classes && c.courseId == id)
            && (r.result.Ok? ==> !HasCourse(r.store.courses, id))
            && Valid(r.store)
  {
    DeleteRules.DeleteCourseRestrictedByClasses(s, id);
  }

  // ---------------------------------------------------------------------------
  // Classes

  /** `CreateClass(...)`: the course and the teacher (any user) must exist; the
      class is added under the next identity value, stamped `now`. A blank name
      binds to null (`None`), which the non-null `Name` column refuses on saving.
      Database exceptions are caught. */
  function CreateClass(s: Store, name: Option<string>, courseId: int, teacherId: string, location: Option<string>,
                       day: DayOfWeek, startTime: Ticks, endTime: Ticks, now: Ticks): (r: Transition<Class, AdminError>)
    ensures !(HasCourse(s.courses, courseId) && HasUser(s.users, teacherId)) ==> r == Transition(s, Err(InvalidCourseOrTeacher))
    ensures HasCourse(s.courses, courseId) && HasUser(s.users, teacherId) && name.None? ==>
              r == Transition(s, Err(SaveRejected(ConstraintViolation)))
    ensures r.result.Err? ==> r.store == s
    ensures r.result.Ok? ==>
              var c := r.result.value;
              && name.Some?
              && r.store == s.(classes := s.classes + [c])
              && c == Class(c.id, name.value, courseId, teacherId, location, day, startTime, endTime, now)
              && forall y :: y in s.classes ==> y.id != c.id
  {
    if FindCourse(s, courseId).None? || FindUser(s, teacherId).None? then Transition(s, Err(InvalidCourseOrTeacher))
    else if name.None? then Transition(s, Err(SaveRejected(ConstraintViolation)))
    else
      var c := Class(NextKey(s.classes, ClassKey), name.value, courseId, teacherId, location, day, startTime, endTime, now);
      assert forall y :: y in s.classes ==> y.id != c.id;
      match SaveChanges(s.(classes := s.classes + [c]))
      case Ok(next) => Transition(next, Ok(c))
      case Err(e) => Transition(s, Err(SaveRejected(e)))
  }

  /** On a valid store a class is created exactly when its course and teacher
      exist and its name is present, and the store stays valid. */
  lemma CreateClassOutcome(s: Store, name: Option<string>, courseId: int, teacherId: string, location: Option<string>,
                           day: DayOfWeek, startTime: Ticks, endTime: Ticks, now: Ticks)
    requires Valid(s)
    ensures var r := CreateClass(s, name, courseId, teacherId, location, day, startTime, endTime, now);
            && (r.result.Ok? <==> HasCourse(s.courses, courseId) && HasUser(s.users, teacherId) && name.Some?)
            && Valid(r.store)
  {
    if HasCourse(s.courses, courseId) && HasUser(s.users, teacherId) && name.Some? {
      AppendClassKeepsValid(s, Class(NextKey(s.classes, ClassKey), name.value, courseId, teacherId, location, day,
                                     startTime, endTime, now));
    }
  }

  /** Adding a class under an unused key, with an existing course and teacher,
      keeps the store valid. */
  lemma AppendClassKeepsValid(s: Store, c: Class)
    requires Valid(s) && HasCourse(s.courses, c.courseId) && HasUser(s.users, c.teacherId)
    requires forall y :: y in s.classes ==> y.id != c.id
    ensures Valid(s.(classes := s.classes + [c]))
  {
    var next := s.(classes := s.classes + [c]);
    forall i | 0 <= i < |s.classes| ensures ClassKey(s.classes[i]) != ClassKey(c) {
      assert s.classes[i] in s.classes;
    }
    AppendKeepsDistinctBy(s.classes, c, ClassKey);
    forall e | e in next.enrollments ensures HasClass(next.classes, e.classId) && HasUser(next.users, e.studentId) {
      var y :| y in s.classes && y.id == e.classId;
      assert y in next.classes;
    }
    forall x | x in next.sessions ensures HasClass(next.classes, x.classId) {
      var y :| y in s.classes && y.id == x.classId;
      assert y in next.classes;
    }
    assert ReferencesResolve(next);
  }

  /** `EditClass(id, ...)`: not found for an unknown class; the course and the
      teacher must exist; then every edited column is overwritten, the creation
      time kept. A blank name binds to null (`None`), which the non-null `Name`
      column refuses on saving. Database exceptions are caught. */
  function EditClass(s: Store, id: int, name: Option<string>, courseId: int, teacherId: string, location: Option<string>,
                     day: DayOfWeek, startTime: Ticks, endTime: Ticks): (r: Transition<(), AdminError>)
    ensures !HasClass(s.classes, id) ==> r == Transition(s, Err(NotFound))
    ensures HasClass(s.classes, id) && !(HasCourse(s.courses, courseId) && HasUser(s.users, teacherId)) ==>
              r == Transition(s, Err(InvalidCourseOrTeacher))
    ensures HasClass(s.classes, id) && HasCourse(s.courses, courseId) && HasUser(s.users, teacherId) && name.None? ==>
              r == Transition(s, Err(SaveRejected(ConstraintViolation)))
    ensures r.result.Err? ==> r.store == s
    ensures r.result.Ok? ==>
              && name.Some?
              && exists c :: && c in s.classes && c.id == id
                             && r.store == s.(classes := ReplaceById(s.classes, ClassKey, id,
                                                Class(id, name.value, courseId, teacherId, location, day, startTime, endTime, c.createdAt)))
  {
    match FindClass(s, id)
    case None => Transition(s, Err(NotFound))
    case Some(c) =>
      if FindCourse(s, courseId).None? || FindUser(s, teacherId).None? then Transition(s, Err(InvalidCourseOrTeacher))
      else if name.None? then Transition(s, Err(SaveRejected(ConstraintViolation)))
      else
        var edited := Class(id, name.value, courseId, teacherId, location, day, startTime, endTime, c.createdAt);
        match SaveChanges(s.(classes := ReplaceById(s.classes, ClassKey, id, edited)))
        case Ok(next) => Transition(next, Ok(()))
        case Err(e) => Transition(s, Err(SaveRejected(e)))
  }

  /** On a valid store an edit succeeds exactly when the class, the course and the
      teacher exist and the name is present; the store stays valid, and the class
      keeps its enrollments and sessions. */
  lemma EditClassOutcome(s: Store, id: int, name: Option<string>, courseId: int, teacherId: string, location: Option<string>,
                         day: DayOfWeek, startTime: Ticks, endTime: Ticks)
    requires Valid(s)
    ensures var r := EditClass(s, id, name, courseId, teacherId, location, day, startTime, endTime);
            && (r.result.Ok? <==> HasClass(s.classes, id) && HasCourse(s.courses, courseId) && HasUser(s.users, teacherId) && name.Some?)
            && r.store.enrollments == s.enrollments && r.store.sessions == s.sessions
            && Valid(r.store)
  {
    if HasClass(s.classes, id) && HasCourse(s.courses, courseId) && HasUser(s.users, teacherId) && name.Some? {
      EditClassAccepted(s, id, name.value, courseId, teacherId, location, day, startTime, endTime);
    }
  }

  /** A complete edit of an existing class with an existing course and teacher
      is saved, and the store stays valid. */
  lemma EditClassAccepted(s: Store, id: int, name: string, courseId: int, teacherId: string, location: Option<string>,
                          day: DayOfWeek, startTime: Ticks, endTime: Ticks)
    requires Valid(s) && HasClass(s.classes, id) && HasCourse(s.courses, courseId) && HasUser(s.users, teacherId)
    ensures var r := EditClass(s, id, Some(name), courseId, teacherId, location, day, startTime, endTime);
            r.result.Ok? && Valid(r.store)
  {
    var c := FindClass(s, id).value;
    var edited := Class(id, name, courseId, teacherId, location, day, startTime, endTime, c.createdAt);
    var next := s.(classes := ReplaceById(s.classes, ClassKey, id, edited));
    ReplaceClassKeepsValid(s, edited);
    assert SaveChanges(next) == Ok(next);
  }

  /** Overwriting a class with a row of the same id whose course and teacher
      exist keeps the store valid: its enrollments and sessions still find it. */
  lemma ReplaceClassKeepsValid(s: Store, edited: Class)
    requires Valid(s) && HasCourse(s.courses, edited.courseId) && HasUser(s.users, edited.teacherId)
    ensures Valid(s.(classes := ReplaceById(s.classes, ClassKey, edited.id, edited)))
  {
    var cs := ReplaceById(s.classes, ClassKey, edited.id, edited);
    var next := s.(classes := cs);
    ReplaceKeepsKeys(s.classes, ClassKey, edited.id, edited);
    forall z | z in cs ensures HasCourse(next.courses, z.courseId) && HasUser(next.users, z.teacherId) {
      if z != edited {
        assert z in s.classes;
      }
    }
    forall e | e in next.enrollments ensures HasClass(cs, e.classId) && HasUser(next.users, e.studentId) {
      var y :| y in s.classes && y.id == e.classId;
      var z :| z in cs && ClassKey(z) == ClassKey(y);
    }
    forall x | x in next.sessions ensures HasClass(cs, x.classId) {
      var y :| y in s.classes && y.id == x.classId;
      var z :| z in cs && ClassKey(z) == ClassKey(y);
    }
    assert ReferencesResolve(next);
  }

  /** `DeleteClass(id)`: nothing for an unknown id; otherwise the class goes with
      its enrollments, sessions and their attendance records. */
  function DeleteClass(s: Store, id: int): (r: Transition<(), AdminError>)
    ensures !HasClass(s.classes, id) ==> r == Transition(s, Ok(()))
    ensures r.result.Err? ==> r.store == s && r.result.error.Unhandled?
    ensures r.result.Ok? && HasClass(s.classes, id) ==> r.store == DeleteClassCascade(s, id)
  {
    Uncaught(s, Db.DeleteClass(s, id))
  }

  /** On a valid store deleting a class always succeeds and leaves the store valid. */
  lemma DeleteClassOutcome(s: Store, id: int)
    requires Valid(s)
    ensures var r := DeleteClass(s, id);
            r.result.Ok? && !HasClass(r.store.classes, id) && Valid(r.store)
  {
    DeleteRules.DeleteClassAlwaysSucceeds(s, id);
  }

  // ---------------------------------------------------------------------------
  // Accounts

  /** Some user already has this e-mail address. */
  predicate EmailTaken(s: Store, email: string)
  {
    exists u :: u in s.users && u.email == email
  }

  /** A row appended to a table whose keys stay distinct has a key no earlier row has. */
  lemma AppendedKeyIsFresh<T, K>(rows: seq<T>, x: T, key: T -> K)
    requires DistinctBy(rows + [x], key)
    ensures forall y :: y in rows ==> key(y) != key(x)
  {
    forall y | y in rows ensures key(y) != key(x) {
      var k :| 0 <= k < |rows| && rows[k] == y;
      assert (rows + [x])[k] == y && (rows + [x])[|rows|] == x;
    }
  }

  /** Some user already holds this normalised user name. */
  predicate UserNameTaken(s: Store, name: string)
  {
    exists u :: u in s.users && u.normalizedUserName == Some(name)
  }

  /** The filter "holds the normalised user name `name`". */
  function HoldsUserName(name: string): User -> bool
  {
    (u: User) => u.normalizedUserName == Some(name)
  }

  /** `Any` over that filter asks whether some user holds the name. */
  lemma HoldsUserNameAny(s: Store, name: string)
    ensures AnyWhere(s.users, HoldsUserName(name)) <==> UserNameTaken(s, name)
  {
    if v :| v in s.users && v.normalizedUserName == Some(name) {
      var i :| 0 <= i < |s.users| && s.users[i] == v;
      assert HoldsUserName(name)(s.users[i]);
    }
  }

  /** `CreateTeacher` and `CreateStudent`, which differ only in the role they
      assign. A blank form field binds to null (`None`). No user has a null
      address, so a null e-mail passes the e-mail check, and the account manager
      refuses its null user name. Otherwise the action is refused when some
      user has the e-mail, and then the account manager gives its verdict. It
      upper-cases the user name (the e-mail) into the normalised name. It
      refuses the user when its own checks fail (`accepted` stands for the
      password rules and the user-name character rules) or when another user
      already holds that name. Then it stores the user under the key it was
      given, and the non-null name columns refuse a null first or last name.
      Exceptions are caught and reported on the form. */
  function CreateAccount(s: Store, id: string, email: Option<string>, firstName: Option<string>, lastName: Option<string>,
                         accepted: bool): (r: Transition<User, AdminError>)
    ensures email.None? ==> r == Transition(s, Err(AccountRefused))
    ensures email.Some? && EmailTaken(s, email.value) ==> r == Transition(s, Err(EmailInUse))
    ensures email.Some? && !EmailTaken(s, email.value) && (!accepted || UserNameTaken(s, ToUpper(email.value))) ==>
              r == Transition(s, Err(AccountRefused))
    ensures email.Some? && !EmailTaken(s, email.value) && accepted && !UserNameTaken(s, ToUpper(email.value))
            && (firstName.None? || lastName.None?) ==>
              r == Transition(s, Err(SaveRejected(ConstraintViolation)))
    ensures r.result.Err? ==> r.store == s
    ensures r.result.Ok? ==>
              && email.Some? && firstName.Some? && lastName.Some?
              && r.result.value == User(id, email.value, firstName.value, lastName.value, Some(ToUpper(email.value)))
              && r.store == s.(users := s.users + [r.result.value])
              && !EmailTaken(s, email.value) && !UserNameTaken(s, ToUpper(email.value)) && !HasUser(s.users, id)
  {
    if email.None? then Transition(s, Err(AccountRefused))
    else if AnyWhere(s.users, (u: User) => u.email == email.value) then Transition(s, Err(EmailInUse))
    else if !accepted || AnyWhere(s.users, HoldsUserName(ToUpper(email.value))) then
      HoldsUserNameAny(s, ToUpper(email.value));
      Transition(s, Err(AccountRefused))
    else if firstName.None? || lastName.None? then
      HoldsUserNameAny(s, ToUpper(email.value));
      Transition(s, Err(SaveRejected(ConstraintViolation)))
    else
      var u := User(id, email.value, firstName.value, lastName.value, Some(ToUpper(email.value)));
      match SaveChanges(s.(users := s.users + [u]))
      case Ok(next) =>
        AppendedKeyIsFresh(s.users, u, UserKey);
        HoldsUserNameAny(s, ToUpper(email.value));
        Transition(next, Ok(u))
      case Err(e) => Transition(s, Err(SaveRejected(e)))
  }

  /** On a valid store an account is created exactly when every field is
      present, the e-mail is free, the account manager accepts it, its
      normalised name is free and its key is new, and the store stays valid:
      the account manager's own check is what keeps the user-name index from
      refusing the save. */
  lemma CreateAccountOutcome(s: Store, id: string, email: Option<string>, firstName: Option<string>, lastName: Option<string>,
                             accepted: bool)
    requires Valid(s)
    ensures var r := CreateAccount(s, id, email, firstName, lastName, accepted);
            && (r.result.Ok? <==> && email.Some? && firstName.Some? && lastName.Some?
                                  && !EmailTaken(s, email.value) && accepted && !UserNameTaken(s, ToUpper(email.value))
                                  && !HasUser(s.users, id))
            && Valid(r.store)
  {
    if && email.Some? && firstName.Some? && lastName.Some?
       && !EmailTaken(s, email.value) && accepted && !UserNameTaken(s, ToUpper(email.value)) && !HasUser(s.users, id)
    {
      var u := User(id, email.value, firstName.value, lastName.value, Some(ToUpper(email.value)));
      var next := s.(users := s.users + [u]);
      forall i | 0 <= i < |s.users| ensures UserKey(s.users[i]) != UserKey(u) && UserNameIndex(s.users[i]) != UserNameIndex(u) {
        assert s.users[i] in s.users;
      }
      AppendKeepsDistinctBy(s.users, u, UserKey);
      AppendKeepsDistinctByNonNull(s.users, u, UserNameIndex);
      forall x | x in next.classes ensures HasCourse(next.courses, x.courseId) && HasUser(next.users, x.teacherId) {
        var v :| v in s.users && v.id == x.teacherId;
        assert v in next.users;
      }
      forall e | e in next.enrollments ensures HasClass(next.classes, e.classId) && HasUser(next.users, e.studentId) {
        var v :| v in s.users && v.id == e.studentId;
        assert v in next.users;
      }
      forall a | a in next.attendances ensures HasSession(next.sessions, a.sessionId) && HasUser(next.users, a.studentId) {
        var v :| v in s.users && v.id == a.studentId;
        assert v in next.users;
      }
      assert ReferencesResolve(next);
    }
  }

  /** The e-mail check keeps every user's address distinct, which the schema
      itself does not demand. */
  lemma CreateAccountKeepsEmailsUnique(s: Store, id: string, email: Option<string>, firstName: Option<string>,
                                       lastName: Option<string>, accepted: bool)
    requires EmailsUnique(s.users)
    ensures EmailsUnique(CreateAccount(s, id, email, firstName, lastName, accepted).store.users)
  {
    var r := CreateAccount(s, id, email, firstName, lastName, accepted);
    if r.result.Ok? {
      var u := r.result.value;
      forall i | 0 <= i < |s.users| ensures UserEmail(s.users[i]) != UserEmail(u) {
        assert s.users[i] in s.users;
      }
      AppendKeepsDistinctBy(s.users, u, UserEmail);
    }
  }


  /** The filter "taught by `id`". */
  function TaughtBy(id: string): Class -> bool
  {
    (c: Class) => c.teacherId == id
  }

  /** `Any` over that filter asks whether some class has `id` as its teacher. */
  lemma TaughtByAny(classes: seq<Class>, id: string)
    ensures AnyWhere(classes, TaughtBy(id)) <==> exists c :: c in classes && c.teacherId == id
  {
    if c :| c in classes && c.teacherId == id {
      var i :| 0 <= i < |classes| && classes[i] == c;
      assert TaughtBy(id)(classes[i]);
    }
  }

  /** `DeleteTeacher(id)`: nothing for an unknown id; a teacher with a class is
      kept and the refusal reported; otherwise the user goes with their
      enrollments and attendance records. */
  function DeleteTeacher(s: Store, id: string): (r: Transition<(), AdminError>)
    ensures !HasUser(s.users, id) ==> r == Transition(s, Ok(()))
    ensures r.result.Err? ==> r.store == s
    ensures HasUser(s.users, id) && (exists c :: c in s.classes && c.teacherId == id) ==>
              r == Transition(s, Err(TeacherHasClasses))
    ensures r.result.Ok? && HasUser(s.users, id) ==> r.store == DeleteUserCascade(s, id)
  {
    if FindUser(s, id).None? then Transition(s, Ok(()))
    else if AnyWhere(s.classes, TaughtBy(id)) then Transition(s, Err(TeacherHasClasses))
    else Uncaught(s, Db.DeleteUser(s, id))
  }

  /** On a valid store deleting a teacher never raises: it is refused exactly when
      the teacher has a class, and otherwise leaves no user with that id. */
  lemma DeleteTeacherOutcome(s: Store, id: string)
    requires Valid(s)
    ensures var r := DeleteTeacher(s, id);
            && !(r.result.Err? && r.result.error.Unhandled?)
            && (r.result.Err? <==> HasUser(s.users, id) && exists c :: c in s.classes && c.teacherId == id)
            && (r.result.Ok? ==> !HasUser(r.store.users, id))
            && Valid(r.store)
  {
    DeleteRules.DeleteUserRestrictedByClasses(s, id);
    TaughtByAny(s.classes, id);
  }

  /** `DeleteStudent(id)`: nothing for an unknown id; otherwise the user goes with
      their enrollments and attendance records. A refusal escapes the action. */
  function DeleteStudent(s: Store, id: string): (r: Transition<(), AdminError>)
    ensures !HasUser(s.users, id) ==> r == Transition(s, Ok(()))
    ensures r.result.Err? ==> r.store == s && r.result.error.Unhandled?
    ensures r.result.Ok? && HasUser(s.users, id) ==> r.store == DeleteUserCascade(s, id)
  {
    Uncaught(s, Db.DeleteUser(s, id))
  }

  /** On a valid store deleting a student raises exactly when the user teaches a
      class (the `Restrict` rule on a class's teacher), and otherwise leaves no
      user with that id. */
  lemma DeleteStudentOutcome(s: Store, id: string)
    requires Valid(s)
    ensures var r := DeleteStudent(s, id);
            && (r.result.Err? <==> HasUser(s.users, id) && exists c :: c in s.classes && c.teacherId == id)
            && (r.result.Ok? ==> !HasUser(r.store.users, id))
            && Valid(r.store)
  {
    DeleteRules.DeleteUserRestrictedByClasses(s, id);
  }

  /** For a user who teaches nothing the two deletions are the same, and for one
      who does they leave the store alike: only the reported outcome differs. */
  lemma DeletionsAgree(s: Store, id: string)
    requires Valid(s)
    ensures (forall c :: c in s.classes ==> c.teacherId != id) ==> DeleteTeacher(s, id) == DeleteStudent(s, id)
    ensures DeleteTeacher(s, id).store == DeleteStudent(s, id).store
  {
    DeleteRules.DeleteUserRestrictedByClasses(s, id);
  }

  // ---------------------------------------------------------------------------
  // Enrollments

  /** `CreateEnrollment(classId, studentId)`: refused when the pair is already
      enrolled; otherwise a new enrollment stamped `now` under the next identity
      value. Exceptions are caught and reported. */
  function CreateEnrollment(s: Store, classId: int, studentId: string, now: Ticks): (r: Transition<Enrollment, AdminError>)
    ensures r.result.Err? ==> r.store == s
    ensures r.result == Err(AlreadyEnrolled) <==> IsEnrolled(s, studentId, classId)
    ensures r.result.Ok? ==>
              var e := r.result.value;
              && r.store == s.(enrollments := s.enrollments + [e])
              && e == Enrollment(e.id, classId, studentId, now)
              && forall f :: f in s.enrollments ==> f.id != e.id
  {
    if AnyWhere(s.enrollments, (e: Enrollment) => e.classId == classId && e.studentId == studentId) then
      Transition(s, Err(AlreadyEnrolled))
    else
      var e := Enrollment(NextKey(s.enrollments, EnrollmentKey), classId, studentId, now);
      assert forall f :: f in s.enrollments ==> f.id != e.id;
      match SaveChanges(s.(enrollments := s.enrollments + [e]))
      case Ok(next) => Transition(next, Ok(e))
      case Err(err) => Transition(s, Err(SaveRejected(err)))
  }

  /** The action and `EnrollStudentInClassAsync` do the same thing to the store;
      the action's success is the service's `true`, its refusal the service's
      `false`. */
  lemma CreateEnrollmentIsEnroll(s: Store, classId: int, studentId: string, now: Ticks)
    ensures var r := CreateEnrollment(s, classId, studentId, now);
            var q := EnrollStudentInClass(s, studentId, classId, now);
            && r.store == q.store
            && (r.result.Ok? <==> q.result == Ok(true))
            && (r.result == Err(AlreadyEnrolled) <==> q.result == Ok(false))
  {
    var same := (e: Enrollment) => e.classId == classId && e.studentId == studentId;
    var same' := (e: Enrollment) => e.studentId == studentId && e.classId == classId;
    assert AnyWhere(s.enrollments, same) == AnyWhere(s.enrollments, same') by {
      assert forall e :: same(e) == same'(e);
    }
  }

  /** On a valid store an enrollment is created exactly when the pair is new and
      the class and the student exist; the store stays valid. */
  lemma CreateEnrollmentOutcome(s: Store, classId: int, studentId: string, now: Ticks)
    requires Valid(s)
    ensures var r := CreateEnrollment(s, classId, studentId, now);
            && (r.result.Ok? <==> !IsEnrolled(s, studentId, classId) && HasClass(s.classes, classId) && HasUser(s.users, studentId))
            && Valid(r.store)
  {
    CreateEnrollmentIsEnroll(s, classId, studentId, now);
    EnrollOutcome(s, studentId, classId, now);
  }

  /** `DeleteEnrollment(id)`: nothing for an unknown id; otherwise the row is removed. */
  function DeleteEnrollment(s: Store, id: int): (r: Transition<(), AdminError>)
    ensures FindEnrollment(s, id).None? ==> r == Transition(s, Ok(()))
    ensures r.result.Err? ==> r.store == s && r.result.error.Unhandled?
    ensures r.result.Ok? && FindEnrollment(s, id).Some? ==> r.store == RemoveEnrollmentRow(s, id)
  {
    Uncaught(s, Db.DeleteEnrollment(s, id))
  }

  /** On a valid store deleting an enrollment always succeeds, leaves no enrollment
      with that id, and keeps the store valid. */
  lemma DeleteEnrollmentOutcome(s: Store, id: int)
    requires Valid(s)
    ensures var r := DeleteEnrollment(s, id);
            && r.result.Ok? && FindEnrollment(r.store, id).None? && Valid(r.store)
  {
    DeleteRules.DeleteEnrollmentAlwaysSucceeds(s, id);
  }

  // ---------------------------------------------------------------------------
  // Reports

  /** The reports page's active semester: the first semester in table order that
      is active and whose dates include `now`, both ends inclusive. */
  function ActiveSemester(s: Store, now: Ticks): (r: Option<Semester>)
  {
    FirstWhere(s.semesters, (x: Semester) => x.isActive && x.startDate <= now && x.endDate >= now)
  }

  /** The report's filter is `IsCurrentSemester`: the semester shown is current
      and no earlier semester is, and none is shown exactly when no semester is
      current. */
  lemma ActiveSemesterIsFirstCurrent(s: Store, now: Ticks)
    ensures var r := ActiveSemester(s, now);
            && (r.None? <==> forall x :: x in s.semesters ==> !IsCurrentSemester(x, now))
            && (r.Some? ==> exists k :: && 0 <= k < |s.semesters| && s.semesters[k] == r.value
                                       && IsCurrentSemester(r.value, now)
                                       && forall i :: 0 <= i < k ==> !IsCurrentSemester(s.semesters[i], now))
  {
    var p := (x: Semester) => x.isActive && x.startDate <= now && x.endDate >= now;
    assert forall x :: p(x) == IsCurrentSemester(x, now);
    if ActiveSemester(s, now).None? {
      forall x | x in s.semesters ensures !IsCurrentSemester(x, now) {
        var k :| 0 <= k < |s.semesters| && s.semesters[k] == x;
        assert !p(s.semesters[k]);
      }
    }
  }
}
