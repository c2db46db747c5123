/** A student's enrollment in a course: the entity with its completion helper, and the
    enrollment service with its guards. Progress is a `BigDecimal` with scale 2, held here as
    whole hundredths of a percent. */
module Enrollments {
  import opened Wrappers
  import Users
  import Courses

  datatype EnrollmentStatus = ACTIVE | COMPLETED | DROPPED | SUSPENDED

  const FULL_PROGRESS: int := 10000   // 100.00

  datatype EnrollmentRecord = EnrollmentRecord(
    id: string,
    studentId: string,
    courseId: string,
    status: EnrollmentStatus,
    enrolledAt: int,
    completedAt: Option<int>,
    progressPercentage: int,
    lastAccessedAt: Option<int>,
    certificateIssued: Option<bool>)
  {
    /** `isActive`. */
    predicate IsActive() {
      status == ACTIVE
    }

    /** `isCompleted`: COMPLETED with a completion time. */
    predicate IsCompleted() {
      status == COMPLETED && completedAt.Some?
    }
  }

  /** The enrollment `enrollStudent` builds: ACTIVE, enrolled now, no progress, no certificate. */
  function NewEnrollment(id: string, studentId: string, courseId: string, now: int): (e: EnrollmentRecord)
    ensures e.IsActive() && !e.IsCompleted() && e.progressPercentage == 0 && e.certificateIssued == Some(false)
    ensures e.studentId == studentId && e.courseId == courseId && e.enrolledAt == now
  {
    EnrollmentRecord(id, studentId, courseId, ACTIVE, now, None, 0, None, Some(false))
  }

  /** The enrollment after `markCompleted`. */
  function Completed(e: EnrollmentRecord, now: int): (r: EnrollmentRecord)
    ensures r.IsCompleted() && !r.IsActive() && r.progressPercentage == FULL_PROGRESS
    ensures r.(status := e.status, completedAt := e.completedAt, progressPercentage := e.progressPercentage) == e
  {
    e.(status := COMPLETED, completedAt := Some(now), progressPercentage := FULL_PROGRESS)
  }

  /** Completing twice is completing once, at the later time. */
  lemma CompletedTwice(e: EnrollmentRecord, t1: int, t2: int)
    ensures Completed(Completed(e, t1), t2) == Completed(e, t2)
  {
  }

  /** An enrollment as the persistence layer holds it; services update it in place. */
  class Enrollment {
    var id: string
    var studentId: string
    var courseId: string
    var status: EnrollmentStatus
    var enrolledAt: int
    var completedAt: Option<int>
    var progressPercentage: int
    var lastAccessedAt: Option<int>
    var certificateIssued: Option<bool>

    function Snapshot(): EnrollmentRecord
      reads this
    {
      EnrollmentRecord(id, studentId, courseId, status, enrolledAt, completedAt, progressPercentage,
                       lastAccessedAt, certificateIssued)
    }

    /** A builder call that sets every field. */
    constructor FromRecord(r: EnrollmentRecord)
      ensures Snapshot() == r
    {
      id, studentId, courseId, status, enrolledAt := r.id, r.studentId, r.courseId, r.status, r.enrolledAt;
      completedAt, progressPercentage, lastAccessedAt, certificateIssued := r.completedAt, r.progressPercentage, r.lastAccessedAt, r.certificateIssued;
    }

    /** `markCompleted`: COMPLETED now, with progress 100.00. */
    method MarkCompleted(now: int)
      modifies this
      ensures Snapshot() == Completed(old(Snapshot()), now)
    {
      status := COMPLETED;
      completedAt := Some(now);
      progressPercentage := FULL_PROGRESS;
    }

    /** Overwrites the progress percentage. */
    method SetProgressPercentage(p: int)
      modifies this
      ensures Snapshot() == old(Snapshot()).(progressPercentage := p)
    {
      progressPercentage := p;
    }
  }

  // ---------------------------------------------------------------- the repository's view

  /** The ids of the ACTIVE enrollments in a course; `countByCourseAndStatus(course, ACTIVE)`
      is its size. */
  function ActiveIds(repo: map<string, EnrollmentRecord>, courseId: string): set<string> {
    set id | id in repo && repo[id].courseId == courseId && repo[id].status == ACTIVE
  }

  /** `existsByStudentAndCourse`: a row of any status counts, a DROPPED one included. */
  predicate IsEnrolled(repo: map<string, EnrollmentRecord>, studentId: string, courseId: string) {
    exists id :: id in repo && repo[id].studentId == studentId && repo[id].courseId == courseId
  }

  /** The unique key (student, course) of the enrollment table: at most one row per pair. */
  predicate UniquePairs(repo: map<string, EnrollmentRecord>) {
    forall a, b ::
      a in repo && b in repo && repo[a].studentId == repo[b].studentId && repo[a].courseId == repo[b].courseId
      ==> a == b
  }

  /** Every row is stored under its own id. */
  predicate KeyedById(repo: map<string, EnrollmentRecord>) {
    forall id :: id in repo ==> repo[id].id == id
  }

  /** Adding an ACTIVE row for the course adds exactly one to the count. */
  lemma ActiveCountAdd(repo: map<string, EnrollmentRecord>, courseId: string, e: EnrollmentRecord)
    requires e.id !in repo && e.courseId == courseId && e.status == ACTIVE
    ensures ActiveIds(repo[e.id := e], courseId) == ActiveIds(repo, courseId) + {e.id}
    ensures |ActiveIds(repo[e.id := e], courseId)| == |ActiveIds(repo, courseId)| + 1
  {
    assert ActiveIds(repo[e.id := e], courseId) == ActiveIds(repo, courseId) + {e.id};
  }

  /** Moving a row to a status other than ACTIVE never raises any course's count. */
  lemma ActiveCountLeave(repo: map<string, EnrollmentRecord>, id: string, s: EnrollmentStatus, courseId: string)
    requires id in repo && s != ACTIVE
    ensures ActiveIds(repo[id := repo[id].(status := s)], courseId) <= ActiveIds(repo, courseId)
    ensures |ActiveIds(repo[id := repo[id].(status := s)], courseId)| <= |ActiveIds(repo, courseId)|
  {
    var before := ActiveIds(repo, courseId);
    var after := ActiveIds(repo[id := repo[id].(status := s)], courseId);
    assert after <= before;
    SubsetCardinality(after, before);
  }

  lemma {:induction false} SubsetCardinality<T>(a: set<T>, b: set<T>)
    requires a <= b
    ensures |a| <= |b|
  {
    if a != {} {
      var x :| x in a;
      SubsetCardinality(a - {x}, b - {x});
    }
  }

  datatype EnrollmentError =
    | ResourceNotFound(resource: string, field: string, value: string)
    | NotFound(message: string)
    | BusinessLogic(message: string)
    | DuplicateResource(message: string)

  /** The enrollment service over the enrollment table, held as rows by id. The student and
      course lookups arrive as parameters: the row found by id, or none. */
  class EnrollmentServiceImpl {
    var enrollments: map<string, EnrollmentRecord>

    constructor (rows: map<string, EnrollmentRecord>)
      ensures enrollments == rows
    {
      enrollments := rows;
    }

    /** The table's shape: rows under their ids and one row per student and course. */
    predicate Valid()
      reads this
    {
      KeyedById(enrollments) && UniquePairs(enrollments)
    }

    /** `enrollStudent`: the student and the course must exist, the course must be
        published, the student must not already have a row for the course (of any status),
        and a course with a maximum must have fewer ACTIVE enrollments than it. The new row
        is ACTIVE with no progress. On every error the table is unchanged. */
    method EnrollStudent(studentId: string, student: Option<Users.UserRecord>, courseId: string, course: Option<Courses.CourseRecord>,
                         id: string, now: int) returns (r: Result<EnrollmentRecord, EnrollmentError>)
      requires Valid()
      requires id !in enrollments
      requires student.Some? ==> student.value.id == studentId
      requires course.Some? ==> course.value.id == courseId
      modifies this
      ensures Valid()
      ensures student.None? ==> r == Failure(ResourceNotFound("User", "id", studentId))
      ensures student.Some? && course.None? ==> r == Failure(ResourceNotFound("Course", "id", courseId))
      ensures student.Some? && course.Some? && !course.value.IsPublished() ==>
                r == Failure(BusinessLogic("Cannot enroll in an unpublished course"))
      ensures student.Some? && course.Some? && course.value.IsPublished() && IsEnrolled(old(enrollments), studentId, courseId) ==>
                r == Failure(DuplicateResource("Student is already enrolled in this course"))
      ensures student.Some? && course.Some? && course.value.IsPublished() && !IsEnrolled(old(enrollments), studentId, courseId)
              && course.value.maxStudents.Some? && |ActiveIds(old(enrollments), courseId)| >= course.value.maxStudents.value ==>
                r == Failure(BusinessLogic("Course has reached maximum capacity"))
      ensures r.Failure? ==> enrollments == old(enrollments)
      ensures r.Success? <==>
                student.Some? && course.Some? && course.value.IsPublished() && !IsEnrolled(old(enrollments), studentId, courseId)
                && (course.value.maxStudents.None? || |ActiveIds(old(enrollments), courseId)| < course.value.maxStudents.value)
      ensures r.Success? ==>
                r.value == NewEnrollment(id, studentId, courseId, now) && enrollments == old(enrollments)[id := r.value]
                && |ActiveIds(enrollments, courseId)| == |ActiveIds(old(enrollments), courseId)| + 1
                && (course.value.maxStudents.Some? ==> |ActiveIds(enrollments, courseId)| <= course.value.maxStudents.value)
    {
      if student.None? {
        return Failure(ResourceNotFound("User", "id", studentId));
      }
      if course.None? {
        return Failure(ResourceNotFound("Course", "id", courseId));
      }
      if !course.value.IsPublished() {
        return Failure(BusinessLogic("Cannot enroll in an unpublished course"));
      }
      if exists k :: k in enrollments && enrollments[k].studentId == studentId && enrollments[k].courseId == courseId {
        return Failure(DuplicateResource("Student is already enrolled in this course"));
      }
      if course.value.maxStudents.Some? {
        var current := |ActiveIds(enrollments, courseId)|;
        if current >= course.value.maxStudents.value {
          return Failure(BusinessLogic("Course has reached maximum capacity"));
        }
      }
      var e := NewEnrollment(id, studentId, courseId, now);
      ActiveCountAdd(enrollments, courseId, e);
      enrollments := enrollments[id := e];
      return Success(e);
    }

    /** `findEnrollmentEntity` then `unenrollStudent`: the student's row for the course
        becomes DROPPED; no row is removed. */
    method UnenrollStudent(studentId: string, student: Option<Users.UserRecord>, courseId: string, course: Option<Courses.CourseRecord>)
      returns (r: Outcome<EnrollmentError>)
      requires Valid()
      requires student.Some? ==> student.value.id == studentId
      requires course.Some? ==> course.value.id == courseId
      modifies this
      ensures Valid() && enrollments.Keys == old(enrollments).Keys
      ensures student.None? ==> r == Fail(ResourceNotFound("User", "id", studentId))
      ensures student.Some? && course.None? ==> r == Fail(ResourceNotFound("Course", "id", courseId))
      ensures student.Some? && course.Some? && !IsEnrolled(old(enrollments), studentId, courseId) ==>
                r == Fail(NotFound("Enrollment not found for this student and course"))
      ensures r.Fail? ==> enrollments == old(enrollments)
      ensures r.Pass? <==> student.Some? && course.Some? && IsEnrolled(old(enrollments), studentId, courseId)
      ensures r.Pass? ==>
                exists k :: k in old(enrollments) && old(enrollments)[k].studentId == studentId && old(enrollments)[k].courseId == courseId
                            && enrollments == old(enrollments)[k := old(enrollments)[k].(status := DROPPED)]
      ensures forall c :: |ActiveIds(enrollments, c)| <= |ActiveIds(old(enrollments), c)|
    {
      if student.None? {
        return Fail(ResourceNotFound("User", "id", studentId));
      }
      if course.None? {
        return Fail(ResourceNotFound("Course", "id", courseId));
      }
      if !exists k :: k in enrollments && enrollments[k].studentId == studentId && enrollments[k].courseId == courseId {
        return Fail(NotFound("Enrollment not found for this student and course"));
      }
      var k :| k in enrollments && enrollments[k].studentId == studentId && enrollments[k].courseId == courseId;
      Drop(k);
      return Pass;
    }

    /** Sets one row's status to DROPPED: the soft delete both `unenrollStudent` and
        `deleteById` perform. */
    method Drop(k: string)
      requires Valid() && k in enrollments
      modifies this
      ensures Valid() && enrollments == old(enrollments)[k := old(enrollments)[k].(status := DROPPED)]
      ensures forall c :: |ActiveIds(enrollments, c)| <= |ActiveIds(old(enrollments), c)|
    {
      forall c
        ensures |ActiveIds(enrollments[k := enrollments[k].(status := DROPPED)], c)| <= |ActiveIds(enrollments, c)|
      {
        ActiveCountLeave(enrollments, k, DROPPED, c);
      }
      enrollments := enrollments[k := enrollments[k].(status := DROPPED)];
    }

    /** `updateStatus`: any status may be set, with the completion time stamped when it is
        COMPLETED. The capacity check is not repeated. */
    method UpdateStatus(enrollmentId: string, status: EnrollmentStatus, now: int) returns (r: Result<EnrollmentRecord, EnrollmentError>)
      requires Valid()
      modifies this
      ensures Valid() && enrollments.Keys == old(enrollments).Keys
      ensures enrollmentId !in old(enrollments) ==>
                r == Failure(ResourceNotFound("Enrollment", "id", enrollmentId)) && enrollments == old(enrollments)
      ensures enrollmentId in old(enrollments) ==>
                var e := old(enrollments)[enrollmentId];
                var e' := if status == COMPLETED then e.(status := status, completedAt := Some(now)) else e.(status := status);
                r == Success(e') && enrollments == old(enrollments)[enrollmentId := e']
    {
      if enrollmentId !in enrollments {
        return Failure(ResourceNotFound("Enrollment", "id", enrollmentId));
      }
      var e := enrollments[enrollmentId].(status := status);
      if status == COMPLETED {
        e := e.(completedAt := Some(now));
      }
      enrollments := enrollments[enrollmentId := e];
      return Success(e);
    }

    /** `deleteById`: a soft delete to DROPPED; the row stays. */
    method DeleteById(id: string) returns (r: Outcome<EnrollmentError>)
      requires Valid()
      modifies this
      ensures Valid() && enrollments.Keys == old(enrollments).Keys
      ensures id !in old(enrollments) ==> r == Fail(ResourceNotFound("Enrollment", "id", id)) && enrollments == old(enrollments)
      ensures id in old(enrollments) ==> r == Pass && enrollments == old(enrollments)[id := old(enrollments)[id].(status := DROPPED)]
      ensures forall c :: |ActiveIds(enrollments, c)| <= |ActiveIds(old(enrollments), c)|
    {
      if id !in enrollments {
        return Fail(ResourceNotFound("Enrollment", "id", id));
      }
      Drop(id);
      return Pass;
    }
  }

  /** A dropped student cannot enroll again: the row stays and the existence check sees it. */
  lemma DroppedCannotReenroll(repo: map<string, EnrollmentRecord>, k: string)
    requires k in repo
    ensures IsEnrolled(repo[k := repo[k].(status := DROPPED)], repo[k].studentId, repo[k].courseId)
  {
    var repo' := repo[k := repo[k].(status := DROPPED)];
    assert k in repo' && repo'[k].studentId == repo[k].studentId && repo'[k].courseId == repo[k].courseId;
  }

  /** `updateStatus` can take a course past its maximum: with one seat, taken by an ACTIVE
      row, reactivating a DROPPED row gives two ACTIVE enrollments. */
  lemma ReactivationBypassesCapacity()
    ensures var a := EnrollmentRecord("a", "s1", "c", ACTIVE, 0, None, 0, None, Some(false));
            var b := EnrollmentRecord("b", "s2", "c", DROPPED, 0, None, 0, None, Some(false));
            var repo := map["a" := a, "b" := b];
            |ActiveIds(repo, "c")| == 1 && |ActiveIds(repo["b" := b.(status := ACTIVE)], "c")| == 2
  {
    var a := EnrollmentRecord("a", "s1", "c", ACTIVE, 0, None, 0, None, Some(false));
    var b := EnrollmentRecord("b", "s2", "c", DROPPED, 0, None, 0, None, Some(false));
    var repo := map["a" := a, "b" := b];
    assert ActiveIds(repo, "c") == {"a"};
    assert ActiveIds(repo["b" := b.(status := ACTIVE)], "c") == {"a", "b"};
  }
}
