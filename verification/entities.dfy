/** The plain entities of the schema: users, courses, classes and enrollments.
    They carry no behaviour of their own that the model needs; the display
    helpers (`GetFullName`, `GetFullCourseName`, `GetScheduleInfo`) are
    formatting only. Courses, classes and enrollments keep their creation
    timestamps; a user's `CreatedAt` and `UpdatedAt` are not modelled. */
module Entities {
  import opened Base

  /** An `ApplicationUser`: identity key (a GUID string), e-mail and names, and
      `NormalizedUserName`, which only the account manager fills in: a user
      added to the context directly has none. */
  datatype User = User(id: string, email: string, firstName: string, lastName: string,
                       normalizedUserName: Option<string>)

  /** A `Course`, unique on (`code`, `semesterId`). */
  datatype Course = Course(
    id: int,
    code: string,
    name: string,
    description: string,
    credits: int,
    semesterId: int,
    createdAt: Ticks)

  datatype DayOfWeek = Sunday | Monday | Tuesday | Wednesday | Thursday | Friday | Saturday

  /** A `Class`: one weekly meeting of a course, taught by one teacher.
      `startTime` and `endTime` are times of day (`TimeSpan`). */
  datatype Class = Class(
    id: int,
    name: string,
    courseId: int,
    teacherId: string,
    location: Option<string>,
    dayOfWeek: DayOfWeek,
    startTime: Ticks,
    endTime: Ticks,
    createdAt: Ticks)

  /** A `ClassEnrollment`, unique on (`classId`, `studentId`). */
  datatype Enrollment = Enrollment(id: int, classId: int, studentId: string, enrolledAt: Ticks)
}
