/** The stored state the learner-facing core reads and writes: the
    submissions table, the answers table (one row per submission and
    question), the video completion table (one row per user, chapter and
    submission), and a counter of completion notifications sent. */
module Store {
  import opened Wrappers
  import opened Php
  import opened Course

  /** A clock reading, supplied by the caller in place of `now()`. */
  type Time = nat

  /** The `status` enum of the submissions table. */
  datatype Status = InProgress | Pending | Completed

  /** A submissions row. `snapshot` is `None` when the column is null or
      the document has no `chapters` key. */
  datatype Submission = Submission(
    id: Id,
    userId: Id,
    inductionId: Id,
    status: Status,
    snapshot: Option<Snapshot>,
    completedAt: Option<Time>)

  /** The unique key of the answers table, as `updateOrCreate` on the
      submission's answers relation uses it. */
  datatype AnswerKey = AnswerKey(submissionId: Id, questionId: Id)

  /** The unique key of the video completion table. */
  datatype VideoKey = VideoKey(userId: Id, chapterId: Id, submissionId: Id)

  /** A video completion row; `progress` is the percentage in hundredths
      (the column is a two-decimal number between 0 and 100). */
  datatype VideoRecord = VideoRecord(
    isCompleted: bool,
    progress: int,
    watchedSeconds: int,
    totalSeconds: Option<int>,
    completedAt: Option<Time>)

  /** The error responses of the learner-facing endpoints. */
  datatype ApiError =
    | NotFound                 // route model binding found no row (404)
    | Unauthorized             // the caller does not own the submission (403)
    | ValidationFailed         // a request validation rule failed (422)
    | InductionInactive        // start on an inactive induction (400)
    | AlreadyCompleted         // the submission is already completed (400)
    | VideoNotCompleted        // answers sent before the chapter's video is done (403)
    | IncompleteSubmission(allQuestionsAnswered: bool, allVideosCompleted: bool,
                           missing: seq<MissingAnswer>)   // complete refused (400)
    | InvalidSubmissionData    // progress asked of a snapshot-less submission (400)

  /** Whether the submission has an answer row for the question. */
  predicate HasAnswer(answers: map<AnswerKey, Value>, submissionId: Id, questionId: Id)
  {
    AnswerKey(submissionId, questionId) in answers
  }

  /** Whether the user's video record for the chapter in this submission
      exists and is completed. */
  predicate VideoDone(videos: map<VideoKey, VideoRecord>, userId: Id, submissionId: Id, chapterId: Id)
  {
    var k := VideoKey(userId, chapterId, submissionId);
    k in videos && videos[k].isCompleted
  }

  /** No two submissions belong to the same user and induction. */
  ghost predicate OnePerUserAndInduction(subs: map<Id, Submission>)
  {
    forall a, b ::
      (a in subs && b in subs && subs[a].userId == subs[b].userId
       && subs[a].inductionId == subs[b].inductionId) ==> a == b
  }

  /** The submissions table's invariant: rows are stored under their ids,
      ids are below the next id, `rowOrder` lists each row once, and each
      user has at most one submission per induction. */
  ghost predicate TableOk(subs: map<Id, Submission>, rowOrder: seq<Id>, nextId: Id)
  {
    && (forall id :: id in subs ==> subs[id].id == id && id < nextId)
    && (forall i :: 0 <= i < |rowOrder| ==> rowOrder[i] in subs)
    && (forall id :: id in subs ==> id in rowOrder)
    && (forall i, j :: 0 <= i < j < |rowOrder| ==> rowOrder[i] != rowOrder[j])
    && OnePerUserAndInduction(subs)
  }

  /** Replacing a row by one with the same id, user and induction keeps the
      invariant. */
  lemma RetouchKeepsTable(subs: map<Id, Submission>, rowOrder: seq<Id>, nextId: Id, id: Id, t: Submission)
    requires TableOk(subs, rowOrder, nextId) && id in subs
    requires t.id == id && t.userId == subs[id].userId && t.inductionId == subs[id].inductionId
    ensures TableOk(subs[id := t], rowOrder, nextId)
  {
    var m := subs[id := t];
    forall a, b | a in m && b in m && m[a].userId == m[b].userId && m[a].inductionId == m[b].inductionId
      ensures a == b
    {
      assert subs[a].userId == m[a].userId && subs[a].inductionId == m[a].inductionId;
      assert subs[b].userId == m[b].userId && subs[b].inductionId == m[b].inductionId;
    }
  }

  /** Adding a row under the next id, for a user and induction that have
      no row yet, keeps the invariant. */
  lemma InsertKeepsTable(subs: map<Id, Submission>, rowOrder: seq<Id>, nextId: Id, t: Submission)
    requires TableOk(subs, rowOrder, nextId) && t.id == nextId
    requires forall id :: id in subs ==> !(subs[id].userId == t.userId && subs[id].inductionId == t.inductionId)
    ensures TableOk(subs[nextId := t], rowOrder + [nextId], nextId + 1)
  {
    var m := subs[nextId := t];
    var o := rowOrder + [nextId];
    forall i, j | 0 <= i < j < |o| ensures o[i] != o[j] {
      if j == |o| - 1 {
        assert o[i] in subs;
      }
    }
    forall id | id in m ensures id in o {
      if id != nextId {
        var k :| 0 <= k < |rowOrder| && rowOrder[k] == id;
        assert o[k] == id;
      } else {
        assert o[|o| - 1] == id;
      }
    }
  }

  class Db {
    var submissions: map<Id, Submission>
    /** Submission ids in insertion order, the order queries return rows. */
    var rowOrder: seq<Id>
    var nextId: Id
    var answers: map<AnswerKey, Value>
    var videos: map<VideoKey, VideoRecord>
    /** Completion notifications sent so far. */
    var notifications: nat

    ghost predicate Valid()
      reads this
    {
      TableOk(submissions, rowOrder, nextId)
    }

    constructor()
      ensures Valid()
      ensures submissions == map[] && rowOrder == [] && answers == map[] && videos == map[]
      ensures notifications == 0
    {
      submissions := map[];
      rowOrder := [];
      nextId := 1;
      answers := map[];
      videos := map[];
      notifications := 0;
    }

    /** Adds `t` under the next id, for a user and induction that have no
        row yet; nothing else changes. */
    method Insert(t: Submission)
      requires Valid() && t.id == nextId
      requires forall id :: id in submissions ==> !(submissions[id].userId == t.userId && submissions[id].inductionId == t.inductionId)
      modifies this
      ensures Valid()
      ensures submissions == old(submissions)[t.id := t] && t.id !in old(submissions)
      ensures rowOrder == old(rowOrder) + [t.id] && nextId == old(nextId) + 1
      ensures answers == old(answers) && videos == old(videos) && notifications == old(notifications)
    {
      InsertKeepsTable(submissions, rowOrder, nextId, t);
      submissions := submissions[nextId := t];
      rowOrder := rowOrder + [nextId];
      nextId := nextId + 1;
    }

    /** Stores `t` over the row `id`, keeping the row's id, user and
        induction; nothing else changes. */
    method Retouch(id: Id, t: Submission)
      requires Valid() && id in submissions
      requires t.id == id && t.userId == submissions[id].userId && t.inductionId == submissions[id].inductionId
      modifies this
      ensures Valid()
      ensures submissions == old(submissions)[id := t]
      ensures rowOrder == old(rowOrder) && nextId == old(nextId)
      ensures answers == old(answers) && videos == old(videos) && notifications == old(notifications)
    {
      RetouchKeepsTable(submissions, rowOrder, nextId, id, t);
      submissions := submissions[id := t];
    }
  }
}
