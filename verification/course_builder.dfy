/** `CourseBuilder`: a course filled in by validating setters and handed out by
    `Build`, which checks the required fields and then starts over. A setter
    that throws does so before it assigns, so a rejected call leaves the builder
    as it was. The builder's state is a value threaded through its callers;
    a `null` argument is `None`. */
module CourseBuilders {
  import opened Base
  import opened Strings
  import opened Entities
  import opened Semesters

  datatype CourseBuilder = CourseBuilder(course: Course)

  /** The exceptions the builder throws: the setters' `ArgumentException`s and
      `Build`'s `InvalidOperationException`s. */
  datatype BuilderError =
    | EmptyCode | EmptyName | NonPositiveCredits | NullSemester
    | CodeRequired | NameRequired | SemesterRequired

  /** A setter's outcome: the builder after the call, and whether it threw. */
  datatype Step = Step(builder: CourseBuilder, outcome: Result<(), BuilderError>)

  /** The constructor and `Reset()`: a course with the model's defaults, stamped with the current time. */
  function Reset(now: Ticks): (b: CourseBuilder)
    ensures b.course.code == "" && b.course.name == "" && b.course.description == ""
    ensures b.course.credits == 0 && b.course.semesterId == 0 && b.course.id == 0
    ensures b.course.createdAt == now
  {
    CourseBuilder(Course(0, "", "", "", 0, 0, now))
  }

  function SetCode(b: CourseBuilder, code: Option<string>): (r: Step)
    ensures r.outcome.Err? <==> IsNullOrWhiteSpace(code)
    ensures r.outcome.Err? ==> r.builder == b && r.outcome.error == EmptyCode
    ensures r.outcome.Ok? ==> r.builder.course == b.course.(code := ToUpper(code.value))
  {
    if IsNullOrWhiteSpace(code) then Step(b, Err(EmptyCode))
    else Step(CourseBuilder(b.course.(code := ToUpper(code.value))), Ok(()))
  }

  function SetName(b: CourseBuilder, name: Option<string>): (r: Step)
    ensures r.outcome.Err? <==> IsNullOrWhiteSpace(name)
    ensures r.outcome.Err? ==> r.builder == b && r.outcome.error == EmptyName
    ensures r.outcome.Ok? ==> r.builder.course == b.course.(name := name.value)
  {
    if IsNullOrWhiteSpace(name) then Step(b, Err(EmptyName))
    else Step(CourseBuilder(b.course.(name := name.value)), Ok(()))
  }

  /** Never throws; a `null` description is stored as "". */
  function SetDescription(b: CourseBuilder, description: Option<string>): (r: Step)
    ensures r.outcome.Ok?
    ensures r.builder.course.description == (if description.Some? then description.value else "")
    ensures r.builder.course == b.course.(description := r.builder.course.description)
  {
    Step(CourseBuilder(b.course.(description := if description.Some? then description.value else "")), Ok(()))
  }

  function SetCredits(b: CourseBuilder, credits: int): (r: Step)
    ensures r.outcome.Err? <==> credits <= 0
    ensures r.outcome.Err? ==> r.builder == b && r.outcome.error == NonPositiveCredits
    ensures r.outcome.Ok? ==> r.builder.course == b.course.(credits := credits)
  {
    if credits <= 0 then Step(b, Err(NonPositiveCredits))
    else Step(CourseBuilder(b.course.(credits := credits)), Ok(()))
  }

  function SetSemester(b: CourseBuilder, semester: Option<Semester>): (r: Step)
    ensures r.outcome.Err? <==> semester.None?
    ensures r.outcome.Err? ==> r.builder == b && r.outcome.error == NullSemester
    ensures r.outcome.Ok? ==> r.builder.course == b.course.(semesterId := semester.value.id)
  {
    if semester.None? then Step(b, Err(NullSemester))
    else Step(CourseBuilder(b.course.(semesterId := semester.value.id)), Ok(()))
  }

  /** `Build()`: the first missing required field's error, with the builder kept;
      otherwise the accumulated course and a builder reset at `now`. Credits and
      description are not checked. */
  function Build(b: CourseBuilder, now: Ticks): (r: (Result<Course, BuilderError>, CourseBuilder))
    ensures r.0.Ok? <==> b.course.code != "" && b.course.name != "" && b.course.semesterId != 0
    ensures r.0.Err? ==> r.1 == b
    ensures r.0.Err? ==> r.0.error == (if b.course.code == "" then CodeRequired
                                       else if b.course.name == "" then NameRequired
                                       else SemesterRequired)
    ensures r.0.Ok? ==> r.0.value == b.course && r.1 == Reset(now)
  {
    if IsEmpty(b.course.code) then (Err(CodeRequired), b)
    else if IsEmpty(b.course.name) then (Err(NameRequired), b)
    else if b.course.semesterId == 0 then (Err(SemesterRequired), b)
    else (Ok(b.course), Reset(now))
  }

  /** What a builder reached from `Reset` by setters keeps: an upper-case code
      and non-negative credits. */
  predicate Reachable(b: CourseBuilder)
  {
    && (forall i :: 0 <= i < |b.course.code| ==> !IsLowerAscii(b.course.code[i]))
    && b.course.credits >= 0
  }

  /** `Reset` establishes `Reachable` and every setter, accepted or rejected, keeps it. */
  lemma SettersKeepReachable(b: CourseBuilder, now: Ticks, text: Option<string>, credits: int, semester: Option<Semester>)
    requires Reachable(b)
    ensures Reachable(Reset(now))
    ensures Reachable(SetCode(b, text).builder) && Reachable(SetName(b, text).builder)
    ensures Reachable(SetDescription(b, text).builder) && Reachable(SetCredits(b, credits).builder)
    ensures Reachable(SetSemester(b, semester).builder)
    ensures Reachable(Build(b, now).1)
  {
  }

  /** A course built from a reachable builder has an upper-case code. */
  lemma BuiltCodeIsUpperCase(b: CourseBuilder, now: Ticks)
    requires Reachable(b) && Build(b, now).0.Ok?
    ensures var c := Build(b, now).0.value;
            c.code != "" && forall i :: 0 <= i < |c.code| ==> !IsLowerAscii(c.code[i])
  {
  }

  /** A fresh builder cannot build: the code is the first thing missing. */
  lemma FreshBuilderCannotBuild(t: Ticks, now: Ticks)
    ensures Build(Reset(t), now).0 == Err(CodeRequired)
    ensures Build(Reset(t), now).1 == Reset(t)
  {
  }

  /** The chain `CreateCourse` runs, when every setter accepts its argument and the
      semester's id is not 0, builds a course carrying exactly those values and the
      builder's creation time, and resets the builder. A non-positive credit count
      stops the chain at `SetCredits`. */
  lemma ChainBuildsRequestedCourse(b: CourseBuilder, code: string, name: string, description: Option<string>,
                                   credits: int, semester: Semester, now: Ticks)
    requires !AllWhiteSpace(code) && !AllWhiteSpace(name) && semester.id != 0
    ensures credits <= 0 ==> SetCredits(b, credits).outcome == Err(NonPositiveCredits)
    ensures var b1 := SetCode(b, Some(code)).builder;
            var b2 := SetName(b1, Some(name)).builder;
            var b3 := SetDescription(b2, description).builder;
            var b4 := SetCredits(b3, credits).builder;
            var b5 := SetSemester(b4, Some(semester)).builder;
            credits > 0 ==>
              && Build(b5, now).0.Ok?
              && Build(b5, now).0.value ==
                   Course(b.course.id, ToUpper(code), name, if description.Some? then description.value else "",
                          credits, semester.id, b.course.createdAt)
              && Build(b5, now).1 == Reset(now)
  {
    assert |code| > 0;
  }

  /** Whether `Build` succeeds does not depend on credits or description. */
  lemma BuildIgnoresCreditsAndDescription(b: CourseBuilder, credits: int, description: string, now: Ticks)
    ensures Build(CourseBuilder(b.course.(credits := credits, description := description)), now).0.Ok?
            == Build(b, now).0.Ok?
  {
  }
}
