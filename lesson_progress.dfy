/** A student's progress through one lesson: NOT_STARTED, then IN_PROGRESS once opened,
    then COMPLETED. The final score is a `Double` that is only stored, never computed
    with; it is held here as a `real`. */
module LessonProgresses {
  import opened Wrappers
  import opened JavaInt

  datatype ProgressStatus = NOT_STARTED | IN_PROGRESS | COMPLETED | FAILED

  datatype LessonProgressRecord = LessonProgressRecord(
    userId: string,
    lessonId: string,
    status: ProgressStatus,
    startedAt: Option<int>,
    completedAt: Option<int>,
    timeSpentSeconds: int,
    videoPositionSeconds: int,
    attempts: int,
    score: Option<real>)
  {
    /** `isCompleted`. */
    predicate IsCompleted() {
      status == COMPLETED
    }

    /** The `Integer` counters hold 32-bit values. */
    predicate Valid() {
      IsInt32(timeSpentSeconds) && IsInt32(videoPositionSeconds) && IsInt32(attempts)
    }
  }

  /** A fresh row for a user and a lesson, with the field defaults: NOT_STARTED, no
      timestamps, every counter 0 and no score. */
  function NewLessonProgress(userId: string, lessonId: string): (p: LessonProgressRecord)
    ensures p.Valid() && p.status == NOT_STARTED && !p.IsCompleted()
    ensures p.userId == userId && p.lessonId == lessonId && p.startedAt.None? && p.completedAt.None?
    ensures p.timeSpentSeconds == 0 && p.attempts == 0 && p.score.None?
  {
    LessonProgressRecord(userId, lessonId, NOT_STARTED, None, None, 0, 0, 0, None)
  }

  /** The row after `markAsStarted`: only a NOT_STARTED row moves, to IN_PROGRESS with its
      start time; any other row is left as it is. */
  function Started(p: LessonProgressRecord, now: int): (r: LessonProgressRecord)
    ensures p.status == NOT_STARTED ==> r.status == IN_PROGRESS && r.startedAt == Some(now)
    ensures p.status != NOT_STARTED ==> r == p
    ensures r.(status := p.status, startedAt := p.startedAt) == p
    ensures r.status != NOT_STARTED
  {
    if p.status == NOT_STARTED then p.(status := IN_PROGRESS, startedAt := Some(now)) else p
  }

  /** The row after `markAsCompleted(score)`: COMPLETED from any status, stamped now, with
      the given score. */
  function CompletedWith(p: LessonProgressRecord, score: Option<real>, now: int): (r: LessonProgressRecord)
    ensures r.IsCompleted() && r.completedAt == Some(now) && r.score == score
    ensures r.(status := p.status, completedAt := p.completedAt, score := p.score) == p
  {
    p.(status := COMPLETED, completedAt := Some(now), score := score)
  }

  /** Starting twice is starting once: the second start neither moves the row nor restamps it. */
  lemma StartedIdempotent(p: LessonProgressRecord, t1: int, t2: int)
    ensures Started(Started(p, t1), t2) == Started(p, t1)
  {
  }

  /** Starting never undoes a completion, and completing after starting still completes. */
  lemma StartThenComplete(p: LessonProgressRecord, score: Option<real>, t1: int, t2: int)
    ensures p.IsCompleted() ==> Started(p, t1).IsCompleted()
    ensures CompletedWith(Started(p, t1), score, t2).IsCompleted()
    ensures !p.IsCompleted() ==> !Started(p, t1).IsCompleted()
  {
  }

  /** A lesson-progress row as the persistence layer holds it. */
  class LessonProgress {
    const userId: string
    const lessonId: string
    var status: ProgressStatus
    var startedAt: Option<int>
    var completedAt: Option<int>
    var timeSpentSeconds: int
    var videoPositionSeconds: int
    var attempts: int
    var score: Option<real>

    function Snapshot(): LessonProgressRecord
      reads this
    {
      LessonProgressRecord(userId, lessonId, status, startedAt, completedAt, timeSpentSeconds,
                           videoPositionSeconds, attempts, score)
    }

    /** The row loaded from the repository, or built for a user and lesson. */
    constructor FromRecord(r: LessonProgressRecord)
      ensures Snapshot() == r
    {
      userId, lessonId, status, startedAt, completedAt := r.userId, r.lessonId, r.status, r.startedAt, r.completedAt;
      timeSpentSeconds, videoPositionSeconds, attempts, score := r.timeSpentSeconds, r.videoPositionSeconds, r.attempts, r.score;
    }

    /** `markAsStarted`. */
    method MarkAsStarted(now: int)
      modifies this
      ensures Snapshot() == Started(old(Snapshot()), now)
    {
      if status == NOT_STARTED {
        status := IN_PROGRESS;
        startedAt := Some(now);
      }
    }

    /** `markAsCompleted`. */
    method MarkAsCompleted(finalScore: Option<real>, now: int)
      modifies this
      ensures Snapshot() == CompletedWith(old(Snapshot()), finalScore, now)
    {
      status := COMPLETED;
      completedAt := Some(now);
      score := finalScore;
    }

    /** `setTimeSpentSeconds`. */
    method SetTimeSpentSeconds(t: int)
      modifies this
      ensures Snapshot() == old(Snapshot()).(timeSpentSeconds := t)
    {
      timeSpentSeconds := t;
    }
  }
}
