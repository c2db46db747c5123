/** The progress service: recording work on a lesson, and recomputing a student's course
    percentage from the lessons completed. The user, course and lesson tables are read-only
    here; the lesson-progress and enrollment tables are updated. */
module ProgressService {
  import opened Wrappers
  import opened JavaInt
  import opened LessonProgresses
  import Enrollments

  datatype ProgressError =
    | ResourceNotFound(resource: string, field: string, value: string)
    | NotFound(message: string)

  /** The enrollment percentage for `completed` of `total` lessons, in hundredths:
      completed × 100 / total, rounded half-up to two decimals. */
  function PercentageOf(completed: int, total: int): (p: int)
    requires 0 <= completed <= total && total > 0
    ensures 0 <= p <= 10000
    ensures completed == 0 ==> p == 0
    ensures completed == total ==> p == 10000
    ensures 2 * p * total <= 2 * completed * 10000 + total < 2 * p * total + 2 * total
  {
    MulMonotone(completed, total, 10000);
    DivHalfUpAtMost(completed * 10000, total, 10000);
    if completed == total then DivHalfUpExact(10000, total); DivHalfUp(completed * 10000, total)
    else DivHalfUp(completed * 10000, total)
  }

  /** More completed lessons never lower the percentage. */
  lemma PercentageMonotone(c1: int, c2: int, total: int)
    requires 0 <= c1 <= c2 <= total && total > 0
    ensures PercentageOf(c1, total) <= PercentageOf(c2, total)
  {
    MulMonotone(c1, c2, 10000);
    DivHalfUpMonotone(c1 * 10000, c2 * 10000, total);
  }

  /** A percentage of 100.00 does not mean every lesson is done: 20000 of 20001 lessons
      rounds up to it, and the enrollment is left ACTIVE. */
  lemma FullPercentageBeforeCompletion()
    ensures PercentageOf(20000, 20001) == 10000
  {
  }

  /** The enrollment after a recalculation over `total` lessons of which `completed` are
      done: 0 for a course without lessons, else the percentage, and `markCompleted` once
      every lesson is done. */
  function Recalculated(e: Enrollments.EnrollmentRecord, completed: int, total: int, now: int): (r: Enrollments.EnrollmentRecord)
    requires 0 <= completed <= total
    ensures total == 0 ==> r == e.(progressPercentage := 0)
    ensures total > 0 && completed < total ==> r == e.(progressPercentage := PercentageOf(completed, total))
    ensures total > 0 && completed == total ==> r.IsCompleted() && r.progressPercentage == Enrollments.FULL_PROGRESS
    ensures 0 <= r.progressPercentage <= Enrollments.FULL_PROGRESS
  {
    if total == 0 then e.(progressPercentage := 0)
    else
      var withPercentage := e.(progressPercentage := PercentageOf(completed, total));
      if completed == total then Enrollments.Completed(withPercentage, now) else withPercentage
  }

  /** The lesson-progress row after `updateLessonProgress`: started, the time added with
      `Integer` wrap-around, and completed without a score when asked to. */
  function LessonAfter(p: LessonProgressRecord, timeSpent: Option<int>, completed: Option<bool>, now: int): (r: LessonProgressRecord)
    requires p.Valid() && (timeSpent.Some? ==> IsInt32(timeSpent.value))
    ensures r.Valid() && r.status != NOT_STARTED
    ensures completed == Some(true) ==> r.IsCompleted() && r.score.None? && r.completedAt == Some(now)
    ensures completed != Some(true) ==> r.status == Started(p, now).status
    ensures timeSpent.None? ==> r.timeSpentSeconds == p.timeSpentSeconds
    ensures timeSpent.Some? && 0 <= timeSpent.value && 0 <= p.timeSpentSeconds + timeSpent.value <= INT_MAX ==>
              r.timeSpentSeconds == p.timeSpentSeconds + timeSpent.value
    ensures r.userId == p.userId && r.lessonId == p.lessonId
  {
    var started := Started(p, now);
    var timed := if timeSpent.Some? then started.(timeSpentSeconds := Wrap32(started.timeSpentSeconds + timeSpent.value)) else started;
    if completed == Some(true) then CompletedWith(timed, None, now) else timed
  }

  /** The body of `updateLessonProgress` up to the save: the row is started, credited with
      the time spent and completed when asked. */
  method ApplyUpdate(before: LessonProgressRecord, timeSpent: Option<int>, completed: Option<bool>, now: int)
    returns (saved: LessonProgressRecord)
    requires before.Valid() && (timeSpent.Some? ==> IsInt32(timeSpent.value))
    ensures saved == LessonAfter(before, timeSpent, completed, now)
  {
    var progress := new LessonProgress.FromRecord(before);
    progress.MarkAsStarted(now);
    if timeSpent.Some? {
      progress.SetTimeSpentSeconds(Wrap32(progress.timeSpentSeconds + timeSpent.value));
    }
    if completed == Some(true) {
      progress.MarkAsCompleted(None, now);
    }
    saved := progress.Snapshot();
  }

  class ProgressServiceImpl {
    /** The user and course tables, by id. */
    const users: set<string>
    const courses: set<string>
    /** The lesson table: each lesson's course. */
    const lessonCourse: map<string, string>
    /** Lesson progress by (user, lesson), the table's unique key. */
    var lessonProgress: map<(string, string), LessonProgressRecord>
    /** Enrollments by (student, course), the table's unique key. */
    var enrollments: map<(string, string), Enrollments.EnrollmentRecord>
    /** The (user, course) pairs a completion notification has been sent for, in order. */
    var completionNotices: seq<(string, string)>

    constructor (users: set<string>, courses: set<string>, lessonCourse: map<string, string>,
                 lessonProgress: map<(string, string), LessonProgressRecord>,
                 enrollments: map<(string, string), Enrollments.EnrollmentRecord>)
      ensures this.users == users && this.courses == courses && this.lessonCourse == lessonCourse
      ensures this.lessonProgress == lessonProgress && this.enrollments == enrollments && completionNotices == []
    {
      this.users, this.courses, this.lessonCourse := users, courses, lessonCourse;
      this.lessonProgress, this.enrollments := lessonProgress, enrollments;
      completionNotices := [];
    }

    /** Every lesson belongs to a stored course, and every lesson-progress row keeps 32-bit
        counters. */
    predicate Valid()
      reads this
    {
      (forall l :: l in lessonCourse ==> lessonCourse[l] in courses)
      && (forall k :: k in lessonProgress ==> lessonProgress[k].Valid())
    }

    /** `countByCourse`: the lessons of a course. */
    function LessonsOf(courseId: string): set<string>
      reads this
    {
      set l | l in lessonCourse && lessonCourse[l] == courseId
    }

    /** `countByUserAndLessonCourseAndStatus(user, course, COMPLETED)`: the lessons of the
        course whose progress row for the user is COMPLETED. */
    function CompletedLessonsOf(userId: string, courseId: string): (s: set<string>)
      reads this
      ensures s <= LessonsOf(courseId)
    {
      set l | l in lessonCourse && lessonCourse[l] == courseId && (userId, l) in lessonProgress
                && lessonProgress[(userId, l)].status == COMPLETED
    }

    /** The enrollment table and the notices after a recalculation of the student's
        progress in the course, from `e0` and `n0` before it: the enrollment holds the
        share of the course's lessons the student has completed, and exactly one notice is
        added when that share is all of them. */
    predicate CourseRecalculated(userId: string, courseId: string, e0: map<(string, string), Enrollments.EnrollmentRecord>,
                                 n0: seq<(string, string)>, now: int)
      reads this
    {
      var completed, total := |CompletedLessonsOf(userId, courseId)|, |LessonsOf(courseId)|;
      (userId, courseId) in e0
      && completed <= total
      && enrollments == e0[(userId, courseId) := Recalculated(e0[(userId, courseId)], completed, total, now)]
      && completionNotices == n0 + (if total > 0 && completed == total then [(userId, courseId)] else [])
    }

    /** `recalculateCourseProgress`: the student's enrollment in the course gets the
        percentage of its lessons completed; when every lesson is done it is marked
        completed and one notification is sent. Missing rows fail and change nothing. */
    method RecalculateCourseProgress(userId: string, courseId: string, now: int) returns (r: Outcome<ProgressError>)
      modifies this
      ensures lessonProgress == old(lessonProgress)
      ensures userId !in users ==> r == Fail(ResourceNotFound("User", "id", userId))
      ensures userId in users && courseId !in courses ==> r == Fail(ResourceNotFound("Course", "id", courseId))
      ensures userId in users && courseId in courses && (userId, courseId) !in old(enrollments) ==>
                r == Fail(NotFound("Enrollment not found"))
      ensures r.Fail? ==> enrollments == old(enrollments) && completionNotices == old(completionNotices)
      ensures r.Pass? <==> userId in users && courseId in courses && (userId, courseId) in old(enrollments)
      ensures r.Pass? ==> CourseRecalculated(userId, courseId, old(enrollments), old(completionNotices), now)
    {
      if userId !in users {
        return Fail(ResourceNotFound("User", "id", userId));
      }
      if courseId !in courses {
        return Fail(ResourceNotFound("Course", "id", courseId));
      }
      if (userId, courseId) !in enrollments {
        return Fail(NotFound("Enrollment not found"));
      }
      var enrollment := new Enrollments.Enrollment.FromRecord(enrollments[(userId, courseId)]);
      var totalLessons := |LessonsOf(courseId)|;
      if totalLessons == 0 {
        enrollment.SetProgressPercentage(0);
        enrollments := enrollments[(userId, courseId) := enrollment.Snapshot()];
        return Pass;
      }
      var completedLessons := |CompletedLessonsOf(userId, courseId)|;
      Enrollments.SubsetCardinality(CompletedLessonsOf(userId, courseId), LessonsOf(courseId));
      enrollment.SetProgressPercentage(PercentageOf(completedLessons, totalLessons));
      if completedLessons == totalLessons {
        enrollment.MarkCompleted(now);
        completionNotices := completionNotices + [(userId, courseId)];
      }
      enrollments := enrollments[(userId, courseId) := enrollment.Snapshot()];
      return Pass;
    }

    /** `updateLessonProgress`: the user's row for the lesson (a fresh one if there is
        none) is started, credited with the time spent and completed when asked; when the
        saved row is COMPLETED the course progress is recalculated, and if that fails the
        transaction is rolled back. */
    method UpdateLessonProgress(userId: string, lessonId: string, timeSpent: Option<int>, completed: Option<bool>, now: int)
      returns (r: Result<LessonProgressRecord, ProgressError>)
      requires Valid()
      requires timeSpent.Some? ==> IsInt32(timeSpent.value)
      modifies this
      ensures Valid()
      ensures userId !in users ==> r == Failure(ResourceNotFound("User", "id", userId))
      ensures userId in users && lessonId !in lessonCourse ==> r == Failure(ResourceNotFound("Lesson", "id", lessonId))
      ensures r.Failure? ==>
                lessonProgress == old(lessonProgress) && enrollments == old(enrollments) && completionNotices == old(completionNotices)
      ensures userId in users && lessonId in lessonCourse ==>
                var before := if (userId, lessonId) in old(lessonProgress) then old(lessonProgress)[(userId, lessonId)]
                              else NewLessonProgress(userId, lessonId);
                var after := LessonAfter(before, timeSpent, completed, now);
                (r.Success? ==> r.value == after && lessonProgress == old(lessonProgress)[(userId, lessonId) := after])
                && (!after.IsCompleted() ==> r.Success? && enrollments == old(enrollments) && completionNotices == old(completionNotices))
                && (after.IsCompleted() && (userId, lessonCourse[lessonId]) in old(enrollments) ==> r.Success?)
                && (after.IsCompleted() && (userId, lessonCourse[lessonId]) !in old(enrollments) ==>
                      r == Failure(NotFound("Enrollment not found")))
                && (after.IsCompleted() && r.Success? ==>
                      CourseRecalculated(userId, lessonCourse[lessonId], old(enrollments), old(completionNotices), now))
    {
      if userId !in users {
        return Failure(ResourceNotFound("User", "id", userId));
      }
      if lessonId !in lessonCourse {
        return Failure(ResourceNotFound("Lesson", "id", lessonId));
      }
      var before := if (userId, lessonId) in lessonProgress then lessonProgress[(userId, lessonId)]
                    else NewLessonProgress(userId, lessonId);
      var saved := ApplyUpdate(before, timeSpent, completed, now);
      var previous := lessonProgress;
      lessonProgress := lessonProgress[(userId, lessonId) := saved];
      if saved.IsCompleted() {
        var recalculated := RecalculateCourseProgress(userId, lessonCourse[lessonId], now);
        if recalculated.Fail? {
          lessonProgress := previous;
          return Failure(recalculated.error);
        }
      }
      return Success(saved);
    }

    /** `startLesson`: an update with neither time nor completion. It never completes a
        lesson that was not already completed; re-starting a completed one recalculates
        the course progress as any completing update does. */
    method StartLesson(userId: string, lessonId: string, now: int) returns (r: Result<LessonProgressRecord, ProgressError>)
      requires Valid()
      modifies this
      ensures Valid()
      ensures userId !in users ==> r == Failure(ResourceNotFound("User", "id", userId))
      ensures userId in users && lessonId !in lessonCourse ==> r == Failure(ResourceNotFound("Lesson", "id", lessonId))
      ensures r.Failure? ==>
                lessonProgress == old(lessonProgress) && enrollments == old(enrollments) && completionNotices == old(completionNotices)
      ensures userId in users && lessonId in lessonCourse && !((userId, lessonId) in old(lessonProgress) && old(lessonProgress)[(userId, lessonId)].IsCompleted()) ==>
                r.Success? && !r.value.IsCompleted() && enrollments == old(enrollments) && completionNotices == old(completionNotices)
      ensures r.Success? ==>
                r.value.status != NOT_STARTED && lessonProgress == old(lessonProgress)[(userId, lessonId) := r.value]
                && r.value == Started(if (userId, lessonId) in old(lessonProgress) then old(lessonProgress)[(userId, lessonId)]
                                      else NewLessonProgress(userId, lessonId), now)
      ensures r.Success? && r.value.IsCompleted() ==>
                CourseRecalculated(userId, lessonCourse[lessonId], old(enrollments), old(completionNotices), now)
    {
      r := UpdateLessonProgress(userId, lessonId, None, None, now);
    }

    /** `markLessonComplete`: an update with completion requested. Whenever it succeeds the
        lesson is COMPLETED. */
    method MarkLessonComplete(userId: string, lessonId: string, now: int) returns (r: Result<LessonProgressRecord, ProgressError>)
      requires Valid()
      modifies this
      ensures Valid()
      ensures userId !in users ==> r == Failure(ResourceNotFound("User", "id", userId))
      ensures userId in users && lessonId !in lessonCourse ==> r == Failure(ResourceNotFound("Lesson", "id", lessonId))
      ensures userId in users && lessonId in lessonCourse && (userId, lessonCourse[lessonId]) !in old(enrollments) ==>
                r == Failure(NotFound("Enrollment not found"))
      ensures r.Failure? ==>
                lessonProgress == old(lessonProgress) && enrollments == old(enrollments) && completionNotices == old(completionNotices)
      ensures r.Success? ==> r.value.IsCompleted() && lessonProgress == old(lessonProgress)[(userId, lessonId) := r.value]
      ensures r.Success? ==> r.value.completedAt == Some(now) && r.value.score.None?
      ensures userId in users && lessonId in lessonCourse && (userId, lessonCourse[lessonId]) in old(enrollments) ==> r.Success?
      ensures r.Success? ==> CourseRecalculated(userId, lessonCourse[lessonId], old(enrollments), old(completionNotices), now)
    {
      r := UpdateLessonProgress(userId, lessonId, None, Some(true), now);
    }
  }
}
