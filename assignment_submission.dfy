/** A student's submission for an assignment, and its grading. Scores are nullable Java
    `Integer`s; a submission passes when it is graded with a score of at least the
    assignment's passing score. */
module Submissions {
  import opened Wrappers

  datatype SubmissionStatus = DRAFT | SUBMITTED | GRADED | RETURNED

  /** The part of the assignment a submission reads: its id and its optional passing score. */
  datatype AssignmentRef = AssignmentRef(id: string, passingScore: Option<int>)

  datatype SubmissionRecord = SubmissionRecord(
    assignment: Option<AssignmentRef>,
    userId: string,
    submissionText: Option<string>,
    submittedAt: int,
    status: SubmissionStatus,
    score: Option<int>,
    feedback: Option<string>,
    gradedAt: Option<int>,
    gradedBy: Option<string>,
    attemptNumber: Option<int>)
  {
    /** `isGraded`: GRADED with a score. */
    predicate IsGraded() {
      status == GRADED && score.Some?
    }

    /** `isPassed`: graded, with an assignment that has a passing score, reached. */
    predicate IsPassed() {
      IsGraded() && assignment.Some? && assignment.value.passingScore.Some?
      && score.value >= assignment.value.passingScore.value
    }
  }

  /** A submission built with the defaults: submitted now, SUBMITTED, first attempt, no
      score, feedback or grader. */
  function NewSubmission(assignment: AssignmentRef, userId: string, text: Option<string>, now: int): (s: SubmissionRecord)
    ensures s.status == SUBMITTED && s.attemptNumber == Some(1) && s.submittedAt == now
    ensures !s.IsGraded() && !s.IsPassed()
    ensures s.score.None? && s.gradedAt.None? && s.gradedBy.None?
  {
    SubmissionRecord(Some(assignment), userId, text, now, SUBMITTED, None, None, None, None, Some(1))
  }

  /** The submission after `grade(score, feedback, gradedBy)`: those three stored, graded now,
      status GRADED; nothing else changes. */
  function Graded(s: SubmissionRecord, score: Option<int>, feedback: Option<string>, gradedBy: Option<string>, now: int)
    : (r: SubmissionRecord)
    ensures r.status == GRADED && r.score == score && r.feedback == feedback && r.gradedBy == gradedBy && r.gradedAt == Some(now)
    ensures r.(status := s.status, score := s.score, feedback := s.feedback, gradedBy := s.gradedBy, gradedAt := s.gradedAt) == s
  {
    s.(score := score, feedback := feedback, gradedAt := Some(now), gradedBy := gradedBy, status := GRADED)
  }

  /** Grading always sets GRADED, yet the submission counts as graded only with a score:
      `grade(null, …)` leaves it ungraded and not passed. */
  lemma GradedIffScored(s: SubmissionRecord, score: Option<int>, feedback: Option<string>, gradedBy: Option<string>, now: int)
    ensures Graded(s, score, feedback, gradedBy, now).IsGraded() <==> score.Some?
    ensures score.None? ==> !Graded(s, score, feedback, gradedBy, now).IsPassed()
  {
  }

  /** After grading, passing depends only on the new score and the assignment's passing score. */
  lemma PassedAfterGrading(s: SubmissionRecord, score: Option<int>, feedback: Option<string>, gradedBy: Option<string>, now: int)
    ensures Graded(s, score, feedback, gradedBy, now).IsPassed() <==>
              score.Some? && s.assignment.Some? && s.assignment.value.passingScore.Some?
              && score.value >= s.assignment.value.passingScore.value
  {
  }

  /** Passing is monotone in the score: a higher score on the same submission passes too. */
  lemma HigherScoreStillPasses(s: SubmissionRecord, low: int, high: int, feedback: Option<string>, gradedBy: Option<string>, now: int)
    requires low <= high
    requires Graded(s, Some(low), feedback, gradedBy, now).IsPassed()
    ensures Graded(s, Some(high), feedback, gradedBy, now).IsPassed()
  {
  }

  /** Regrading replaces the earlier grade entirely. */
  lemma RegradeOverwrites(s: SubmissionRecord, a: Option<int>, fa: Option<string>, ga: Option<string>, ta: int,
                          b: Option<int>, fb: Option<string>, gb: Option<string>, tb: int)
    ensures Graded(Graded(s, a, fa, ga, ta), b, fb, gb, tb) == Graded(s, b, fb, gb, tb)
  {
  }

  /** A submission as the persistence layer holds it. */
  class AssignmentSubmission {
    const assignment: Option<AssignmentRef>
    const userId: string
    var submissionText: Option<string>
    var submittedAt: int
    var status: SubmissionStatus
    var score: Option<int>
    var feedback: Option<string>
    var gradedAt: Option<int>
    var gradedBy: Option<string>
    var attemptNumber: Option<int>

    function Snapshot(): SubmissionRecord
      reads this
    {
      SubmissionRecord(assignment, userId, submissionText, submittedAt, status, score, feedback, gradedAt,
                       gradedBy, attemptNumber)
    }

    /** The builder with its defaults. */
    constructor (assignment: AssignmentRef, userId: string, text: Option<string>, now: int)
      ensures Snapshot() == NewSubmission(assignment, userId, text, now)
    {
      this.assignment, this.userId, submissionText, submittedAt := Some(assignment), userId, text, now;
      status, score, feedback, gradedAt, gradedBy, attemptNumber := SUBMITTED, None, None, None, None, Some(1);
    }

    /** `grade`. */
    method Grade(score: Option<int>, feedback: Option<string>, gradedBy: Option<string>, now: int)
      modifies this
      ensures Snapshot() == Graded(old(Snapshot()), score, feedback, gradedBy, now)
    {
      this.score := score;
      this.feedback := feedback;
      gradedAt := Some(now);
      this.gradedBy := gradedBy;
      status := GRADED;
    }
  }
}
