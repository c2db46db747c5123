/** A student's overall progress in a course, with its own percentage rule: the ratio of
    completed to total lessons is rounded to two decimals first and only then multiplied by
    100, so the percentage is always a whole number. Percentages are held in hundredths. */
module UserProgresses {
  import opened Wrappers
  import opened JavaInt
  import opened LessonProgresses

  datatype UserProgressRecord = UserProgressRecord(
    userId: string,
    courseId: string,
    enrollmentId: string,
    status: ProgressStatus,
    progressPercentage: int,
    lessonsCompleted: int,
    totalLessons: int,
    totalTimeSpent: int,
    lastLessonId: Option<string>,
    completedAt: Option<int>)
  {
    /** `isCompleted`. */
    predicate IsCompleted() {
      status == COMPLETED
    }
  }

  /** The percentage `updateProgress` stores, in hundredths: the ratio rounded half-up to
      two decimals, times 100. A negative count gives a negative percentage. */
  function RatioPercentage(completed: int, total: int): (p: int)
    requires total > 0
    ensures p % 100 == 0
    ensures completed >= 0 ==> p >= 0
    ensures completed <= 0 ==> p <= 0
    ensures completed == 0 ==> p == 0
    ensures completed == total ==> p == 10000
    ensures 0 <= completed <= total ==> p <= 10000
  {
    var q := DivHalfUp(completed * 100, total);
    assert 0 <= completed <= total ==> q <= 100 by {
      if 0 <= completed <= total {
        MulMonotone(completed, total, 100);
        DivHalfUpAtMost(completed * 100, total, 100);
      }
    }
    assert completed == total ==> q == 100 by {
      if completed == total {
        DivHalfUpExact(100, total);
      }
    }
    q * 100
  }

  /** Whole-percent rounding: the stored value is within half a percent of the exact ratio. */
  lemma RatioPercentageWithinHalfPercent(completed: int, total: int)
    requires 0 <= completed && total > 0
    ensures var p := RatioPercentage(completed, total);
            2 * p * total <= 2 * completed * 10000 + 100 * total
            && 2 * completed * 10000 + 100 * total < 2 * p * total + 200 * total
  {
    var q := DivHalfUp(completed * 100, total);
    assert 2 * q * total <= 2 * (completed * 100) + total < 2 * q * total + 2 * total;
    assert 2 * (q * 100) * total == 100 * (2 * q * total);
  }

  /** The state after `updateProgress`: with no lessons nothing changes; otherwise the
      percentage is recomputed, all lessons done gives COMPLETED stamped now, some done gives
      IN_PROGRESS, and none done keeps the status. */
  function Updated(u: UserProgressRecord, now: int): (r: UserProgressRecord)
    ensures u.totalLessons <= 0 ==> r == u
    ensures u.totalLessons > 0 ==> r.progressPercentage == RatioPercentage(u.lessonsCompleted, u.totalLessons)
    ensures u.totalLessons > 0 && u.lessonsCompleted == u.totalLessons ==> r.IsCompleted() && r.completedAt == Some(now)
    ensures u.totalLessons > 0 && u.lessonsCompleted > 0 && u.lessonsCompleted != u.totalLessons ==> r.status == IN_PROGRESS && r.completedAt == u.completedAt
    ensures u.lessonsCompleted == 0 ==> r.status == u.status && r.completedAt == u.completedAt
    ensures r.(progressPercentage := u.progressPercentage, status := u.status, completedAt := u.completedAt) == u
  {
    if u.totalLessons > 0 then
      var withPercentage := u.(progressPercentage := RatioPercentage(u.lessonsCompleted, u.totalLessons));
      if u.lessonsCompleted == u.totalLessons then withPercentage.(status := COMPLETED, completedAt := Some(now))
      else if u.lessonsCompleted > 0 then withPercentage.(status := IN_PROGRESS)
      else withPercentage
    else u
  }

  /** Recomputing twice without new lessons gives the same percentage and status. */
  lemma UpdatedStable(u: UserProgressRecord, t1: int, t2: int)
    ensures Updated(Updated(u, t1), t2).progressPercentage == Updated(u, t1).progressPercentage
    ensures Updated(Updated(u, t1), t2).status == Updated(u, t1).status
  {
  }

  /** Rounding the ratio first loses the fraction of a percent that the enrollment's own
      rule keeps: one lesson of three is 33.00 here and 33.33 there. */
  lemma OneOfThreeIsWholePercent()
    ensures RatioPercentage(1, 3) == 3300
    ensures DivHalfUp(1 * 10000, 3) == 3333
  {
    assert DivHalfUp(100, 3) == 33;
  }

  /** A user-progress row as the persistence layer holds it. */
  class UserProgress {
    const userId: string
    const courseId: string
    const enrollmentId: string
    var status: ProgressStatus
    var progressPercentage: int
    var lessonsCompleted: int
    var totalLessons: int
    var totalTimeSpent: int
    var lastLessonId: Option<string>
    var completedAt: Option<int>

    function Snapshot(): UserProgressRecord
      reads this
    {
      UserProgressRecord(userId, courseId, enrollmentId, status, progressPercentage, lessonsCompleted,
                         totalLessons, totalTimeSpent, lastLessonId, completedAt)
    }

    /** The builder with the defaults: NOT_STARTED, 0%, no lessons, no time. */
    constructor (userId: string, courseId: string, enrollmentId: string)
      ensures Snapshot() == UserProgressRecord(userId, courseId, enrollmentId, NOT_STARTED, 0, 0, 0, 0, None, None)
    {
      this.userId, this.courseId, this.enrollmentId := userId, courseId, enrollmentId;
      status, progressPercentage, lessonsCompleted, totalLessons, totalTimeSpent := NOT_STARTED, 0, 0, 0, 0;
      lastLessonId, completedAt := None, None;
    }

    /** `setLessonsCompleted` and `setTotalLessons`. */
    method SetCounts(completed: int, total: int)
      modifies this
      ensures Snapshot() == old(Snapshot()).(lessonsCompleted := completed, totalLessons := total)
    {
      lessonsCompleted, totalLessons := completed, total;
    }

    /** `updateProgress`. */
    method UpdateProgress(now: int)
      modifies this
      ensures Snapshot() == Updated(old(Snapshot()), now)
    {
      if totalLessons > 0 {
        progressPercentage := DivHalfUp(lessonsCompleted * 100, totalLessons) * 100;
        if lessonsCompleted == totalLessons {
          status := COMPLETED;
          completedAt := Some(now);
        } else if lessonsCompleted > 0 {
          status := IN_PROGRESS;
        }
      }
    }
  }
}
