/**
 * The onboarding form that turns a signed-in user into a student or a
 * teacher (profiles/forms.py).
 */
module Onboarding {
  import opened Wrappers
  import opened SlotModels
  import opened ProfileModels

  /** The bounds the form's `year_of_study` field accepts. */
  const FormYearMin: int := 1
  const FormYearMax: int := 6

  /** The form's field-level range check on `year_of_study`. */
  predicate FormYearAccepted(y: int) {
    FormYearMin <= y <= FormYearMax
  }

  /** The form accepts every model year choice and also years 5 and 6, which the model's choices do not list. */
  lemma FormYearsWiderThanChoices()
    ensures forall y :: y in YearChoices ==> FormYearAccepted(y)
    ensures FormYearAccepted(5) && 5 !in YearChoices
    ensures FormYearAccepted(6) && 6 !in YearChoices
  {
  }

  /** The form's `cleaned_data`; a field that failed its own validation reads as absent. */
  datatype CleanedData = CleanedData(
    role: Option<Role>,
    group: string,
    yearOfStudy: Option<int>,
    specialization: string,
    courseTopic: string,
    studentDepartment: Option<DeptId>,
    teacherDepartment: Option<DeptId>,
    interests: set<InterestId>,
    bio: string)

  /** `not year_of_study`: absent, or zero. */
  predicate YearMissing(y: Option<int>) {
    y.None? || y.value == 0
  }

  /** The errors `_validate_student_fields` adds, in the order it adds them. */
  function StudentFieldErrors(d: CleanedData): (e: seq<Field>)
    ensures Group in e <==> d.group == ""
    ensures YearOfStudy in e <==> YearMissing(d.yearOfStudy)
    ensures StudentDepartment in e <==>
      !YearMissing(d.yearOfStudy) && UpperYear(d.yearOfStudy.value) && d.studentDepartment.None?
    ensures TeacherDepartment !in e && Department !in e
    ensures YearOfStudy in e ==> StudentDepartment !in e
  {
    (if d.group == "" then [Group] else []) +
    (if YearMissing(d.yearOfStudy) then [YearOfStudy]
     else if UpperYear(d.yearOfStudy.value) && d.studentDepartment.None? then [StudentDepartment]
     else [])
  }

  /** The errors `_validate_teacher_fields` adds. */
  function TeacherFieldErrors(d: CleanedData): (e: seq<Field>)
    ensures TeacherDepartment in e <==> d.teacherDepartment.None?
    ensures forall f :: f in e ==> f == TeacherDepartment
  {
    if d.teacherDepartment.None? then [TeacherDepartment] else []
  }

  /** The errors `clean` adds: dispatched on the role, none when the role is absent. */
  function FieldErrors(d: CleanedData): (e: seq<Field>)
    ensures d.role == Some(StudentRole) ==> e == StudentFieldErrors(d)
    ensures d.role == Some(TeacherRole) ==> e == TeacherFieldErrors(d)
    ensures d.role.None? ==> e == []
  {
    match d.role
    case Some(StudentRole) => StudentFieldErrors(d)
    case Some(TeacherRole) => TeacherFieldErrors(d)
    case None => []
  }

  /**
   * Student validation reads only the group, the year and the student
   * department, and teacher validation reads only the teacher department:
   * two forms that agree on those fields get the same errors, whatever the
   * other role's fields hold.
   */
  lemma ValidationIgnoresOtherRole(d1: CleanedData, d2: CleanedData)
    ensures d1.group == d2.group && d1.yearOfStudy == d2.yearOfStudy &&
            d1.studentDepartment == d2.studentDepartment ==>
              StudentFieldErrors(d1) == StudentFieldErrors(d2)
    ensures d1.teacherDepartment == d2.teacherDepartment ==> TeacherFieldErrors(d1) == TeacherFieldErrors(d2)
  {
  }

  /** The form object; `errors` is the list `add_error` appends to. */
  class OnboardingForm {
    var errors: seq<Field>

    constructor ()
      ensures errors == []
    {
      errors := [];
    }

    /** `add_error`. */
    method AddError(f: Field)
      modifies this
      ensures errors == old(errors) + [f]
    {
      errors := errors + [f];
    }

    /** `_validate_student_fields`. */
    method ValidateStudentFields(d: CleanedData)
      modifies this
      ensures errors == old(errors) + StudentFieldErrors(d)
    {
      if d.group == "" {
        AddError(Group);
      }
      var year := d.yearOfStudy;
      if YearMissing(year) {
        AddError(YearOfStudy);
      } else if UpperYear(year.value) && d.studentDepartment.None? {
        AddError(StudentDepartment);
      }
    }

    /** `_validate_teacher_fields`. */
    method ValidateTeacherFields(d: CleanedData)
      modifies this
      ensures errors == old(errors) + TeacherFieldErrors(d)
    {
      if d.teacherDepartment.None? {
        AddError(TeacherDepartment);
      }
    }

    /** `clean`: validate the fields of the chosen role. */
    method Clean(d: CleanedData)
      modifies this
      ensures errors == old(errors) + FieldErrors(d)
    {
      if d.role == Some(StudentRole) {
        ValidateStudentFields(d);
      } else if d.role == Some(TeacherRole) {
        ValidateTeacherFields(d);
      }
    }
  }

  /** What `save` creates. */
  datatype NewProfile = NewStudent(student: Student) | NewTeacher(teacher: Teacher)

  /** `data.get(f) or None`: a blank string is stored as None. */
  function BlankToNone(s: string): (r: Option<string>)
    ensures r.None? <==> s == ""
    ensures r.Some? ==> r.value == s
  {
    if s == "" then None else Some(s)
  }

  /**
   * `save` with `_create_student_profile` and `_create_teacher_profile`. The
   * view calls it only on a valid form, so the role is present and no field
   * error was added.
   */
  function SaveProfile(d: CleanedData): (p: NewProfile)
    requires d.role.Some? && FieldErrors(d) == []
    ensures p.NewStudent? <==> d.role == Some(StudentRole)
    ensures p.NewTeacher? <==> d.role == Some(TeacherRole)
  {
    match d.role.value
    case StudentRole =>
      NewStudent(Student(d.group, d.yearOfStudy.value, BlankToNone(d.specialization),
                         BlankToNone(d.courseTopic), d.studentDepartment))
    case TeacherRole =>
      NewTeacher(Teacher(d.teacherDepartment, d.interests, BlankToNone(d.bio), DefaultMaxSlots, false))
  }

  /**
   * A valid student form creates a student profile that passes
   * `StudentProfile.clean` and the legacy `Profile.clean`, with blank
   * optional text stored as None.
   */
  lemma ValidStudentFormMakesCleanProfile(d: CleanedData)
    requires d.role == Some(StudentRole) && FieldErrors(d) == []
    ensures SaveProfile(d).NewStudent?
    ensures StudentClean(SaveProfile(d).student).None?
    ensures LegacyProfileClean(StudentRole, SaveProfile(d).student.group, SaveProfile(d).student.department).None?
    ensures SaveProfile(d).student.yearOfStudy == d.yearOfStudy.value
    ensures SaveProfile(d).student.group == d.group
    ensures SaveProfile(d).student.department == d.studentDepartment
    ensures SaveProfile(d).student.specialization == if d.specialization == "" then None else Some(d.specialization)
    ensures SaveProfile(d).student.courseTopic == if d.courseTopic == "" then None else Some(d.courseTopic)
  {
  }

  /**
   * The form's range check admits years the profile's choices do not list:
   * a student form with group, and year 5 or 6, is valid, and the profile it
   * creates passes `StudentProfile.clean` with a year outside the choices.
   */
  lemma FormAdmitsYearOutsideChoices(d: CleanedData)
    requires d.role == Some(StudentRole) && d.group != ""
    requires d.yearOfStudy.Some? && FormYearAccepted(d.yearOfStudy.value) && d.yearOfStudy.value !in YearChoices
    ensures d.yearOfStudy.value == 5 || d.yearOfStudy.value == 6
    ensures FieldErrors(d) == []
    ensures StudentClean(SaveProfile(d).student).None?
    ensures SaveProfile(d).student.yearOfStudy !in YearChoices
  {
  }

  /**
   * A valid teacher form creates an unapproved teacher with a department,
   * the default capacity of four slots, and blank bio stored as None; the
   * result passes the legacy `Profile.clean`.
   */
  lemma ValidTeacherFormMakesDefaultTeacher(d: CleanedData)
    requires d.role == Some(TeacherRole) && FieldErrors(d) == []
    ensures SaveProfile(d).NewTeacher?
    ensures SaveProfile(d).teacher.department == d.teacherDepartment && d.teacherDepartment.Some?
    ensures SaveProfile(d).teacher.maxSlots == 4 && !SaveProfile(d).teacher.isApproved
    ensures SaveProfile(d).teacher.bio == if d.bio == "" then None else Some(d.bio)
    ensures SaveProfile(d).teacher.interests == d.interests
    ensures LegacyProfileClean(TeacherRole, "", SaveProfile(d).teacher.department).None?
  {
  }
}
