/** The learner's submission controller: answering a chapter, completing
    the submission, finding where to resume, and viewing it. Each scan over
    the snapshot is a loop proved equal to its rule in `SubmissionRules`. */
module SubmissionApi {
  import opened Wrappers
  import opened Php
  import opened Course
  import opened SnapshotBuilder
  import opened Store
  import opened InductionApi
  import opened SubmissionRules

  /** Laravel's `required` rule: null, a blank string and an empty list
      fail it. */
  predicate Required(v: Value)
  {
    match v
    case VNull => false
    case VStr(s) => Trim(s) != ""
    case VList(items) => items != []
    case _ => true
  }

  /** The validation rules of `submitAnswers`: `chapter_id` present and an
      existing chapter, `answers` a non-empty list, each element with an
      existing `question_id` and a present `answer_payload`. */
  predicate ValidAnswers(catalog: Catalog, chapterId: Option<Id>, batch: seq<AnswerInput>)
  {
    && chapterId.Some? && chapterId.value in catalog.chapterIds
    && batch != []
    && (forall i :: 0 <= i < |batch| ==>
          batch[i].questionId.Some? && batch[i].questionId.value in catalog.questions && Required(batch[i].payload))
  }

  /** The `submitAnswers` response. */
  datatype SubmitReport = SubmitReport(allQuestionsAnswered: bool, status: Status,
                                       lastUnansweredChapter: Option<ChapterRef>)

  /** The non-error outcomes of `complete`. */
  datatype CompleteOutcome = NewChaptersAdded | Finalized

  // ------------------------------------------------------------ the scans

  /** The inner loop of `submitAnswers`' scan: whether every question of
      one chapter has an answer. */
  method ChapterScan(answers: map<AnswerKey, Value>, submissionId: Id, c: ChapterSnap) returns (answered: bool)
    ensures answered <==> ChapterAnswered(answers, submissionId, c)
  {
    answered := true;
    var n := 0;
    while n < |c.questions|
      invariant 0 <= n <= |c.questions|
      invariant answered <==> forall m :: 0 <= m < n ==> HasAnswer(answers, submissionId, c.questions[m].id)
    {
      if !HasAnswer(answers, submissionId, c.questions[n].id) {
        answered := false;
      }
      n := n + 1;
    }
  }

  /** The loop of `submitAnswers` over the snapshot's questions. */
  method ScanAnswers(answers: map<AnswerKey, Value>, submissionId: Id, chs: seq<ChapterSnap>)
    returns (allAnswered: bool, first: Option<ChapterRef>)
    ensures allAnswered <==> AllAnswered(answers, submissionId, chs)
    ensures first == FirstUnansweredRef(answers, submissionId, chs)
  {
    ghost var k := FirstUnanswered(answers, submissionId, chs);
    allAnswered := true;
    first := None;
    var i := 0;
    while i < |chs|
      invariant 0 <= i <= |chs|
      invariant allAnswered <==> forall j :: 0 <= j < i ==> ChapterAnswered(answers, submissionId, chs[j])
      invariant first == if k < i then Some(RefOf(chs[k])) else None
    {
      var answered := ChapterScan(answers, submissionId, chs[i]);
      if !answered {
        allAnswered := false;
        if first.None? {
          first := Some(RefOf(chs[i]));
        }
      }
      i := i + 1;
    }
  }

  /** The loop that stops at the first chapter without a completed video. */
  method CheckVideos(videos: map<VideoKey, VideoRecord>, userId: Id, submissionId: Id, chs: seq<ChapterSnap>)
    returns (allDone: bool)
    ensures allDone <==> AllVideosDone(videos, userId, submissionId, chs)
  {
    allDone := true;
    var i := 0;
    while i < |chs|
      invariant 0 <= i <= |chs|
      invariant forall j :: 0 <= j < i ==> VideoDone(videos, userId, submissionId, chs[j].id)
    {
      if !VideoDone(videos, userId, submissionId, chs[i].id) {
        allDone := false;
        break;
      }
      i := i + 1;
    }
  }

  /** The inner loop of `complete`'s missing-answer scan: one chapter's
      unanswered questions, in order. */
  method MissingInChapter(answers: map<AnswerKey, Value>, submissionId: Id, c: ChapterSnap)
    returns (answered: bool, more: seq<MissingAnswer>)
    ensures answered <==> ChapterAnswered(answers, submissionId, c)
    ensures more == MissingIn(answers, submissionId, c.title, c.questions)
  {
    answered := true;
    more := [];
    var n := 0;
    while n < |c.questions|
      invariant 0 <= n <= |c.questions|
      invariant more == MissingIn(answers, submissionId, c.title, c.questions[..n])
      invariant answered <==> forall m :: 0 <= m < n ==> HasAnswer(answers, submissionId, c.questions[m].id)
    {
      var q := c.questions[n];
      assert c.questions[..n + 1][..n] == c.questions[..n];
      if !HasAnswer(answers, submissionId, q.id) {
        answered := false;
        more := more + [MissingAnswer(c.title, q.questionText)];
      }
      n := n + 1;
    }
    assert c.questions[..n] == c.questions;
  }

  /** The loop of `complete` that lists missing answers. */
  method CollectMissing(answers: map<AnswerKey, Value>, submissionId: Id, chs: seq<ChapterSnap>)
    returns (allAnswered: bool, missing: seq<MissingAnswer>)
    ensures allAnswered <==> AllAnswered(answers, submissionId, chs)
    ensures missing == MissingAnswers(answers, submissionId, chs)
  {
    allAnswered := true;
    missing := [];
    var i := 0;
    while i < |chs|
      invariant 0 <= i <= |chs|
      invariant missing == MissingAnswers(answers, submissionId, chs[..i])
      invariant allAnswered <==> forall j :: 0 <= j < i ==> ChapterAnswered(answers, submissionId, chs[j])
    {
      var answered, more := MissingInChapter(answers, submissionId, chs[i]);
      allAnswered := allAnswered && answered;
      assert chs[..i + 1][..i] == chs[..i];
      missing := missing + more;
      i := i + 1;
    }
    assert chs[..i] == chs;
  }

  /** The loop of `getLastUnanswered`. */
  method FindResume(answers: map<AnswerKey, Value>, videos: map<VideoKey, VideoRecord>, userId: Id,
                    submissionId: Id, chs: seq<ChapterSnap>) returns (r: Resume)
    ensures r == ResumeAt(answers, videos, userId, submissionId, chs)
  {
    var chapter: Option<ChapterRef> := None;
    var question: Option<QuestionRef> := None;
    var i := 0;
    while i < |chs|
      invariant 0 <= i <= |chs|
      invariant chapter.None? && question.None?
      invariant ResumeAt(answers, videos, userId, submissionId, chs) == ResumeAt(answers, videos, userId, submissionId, chs[i..])
    {
      var c := chs[i];
      assert chs[i..][0] == c && chs[i..][1..] == chs[i + 1..];
      if !VideoDone(videos, userId, submissionId, c.id) {
        chapter := Some(RefOf(c));
        break;
      }
      var n := 0;
      while n < |c.questions|
        invariant 0 <= n <= |c.questions|
        invariant question.None? && chapter.None?
        invariant forall m :: 0 <= m < n ==> HasAnswer(answers, submissionId, c.questions[m].id)
      {
        var q := c.questions[n];
        if !HasAnswer(answers, submissionId, q.id) {
          chapter := Some(RefOf(c));
          question := Some(QuestionRef(q.id, q.questionText));
          break;
        }
        n := n + 1;
      }
      if question.Some? {
        break;
      }
      i := i + 1;
    }
    r := Resume(chapter, question);
  }

  /** The answer loop of `submitAnswers`: `updateOrCreate` per element. */
  method StoreAnswers(db: Db, submissionId: Id, batch: seq<AnswerInput>)
    requires Keyed(batch)
    modifies db
    ensures db.answers == UpsertAll(old(db.answers), submissionId, batch)
    ensures db.submissions == old(db.submissions) && db.rowOrder == old(db.rowOrder) && db.nextId == old(db.nextId)
    ensures db.videos == old(db.videos) && db.notifications == old(db.notifications)
  {
    var i := 0;
    while i < |batch|
      invariant 0 <= i <= |batch|
      invariant Keyed(batch[..i])
      invariant db.answers == UpsertAll(old(db.answers), submissionId, batch[..i])
      invariant db.submissions == old(db.submissions) && db.rowOrder == old(db.rowOrder) && db.nextId == old(db.nextId)
      invariant db.videos == old(db.videos) && db.notifications == old(db.notifications)
    {
      assert batch[..i + 1][..i] == batch[..i];
      ghost var prefix := batch[..i + 1];
      assert Keyed(prefix) by {
        forall j | 0 <= j < |prefix| ensures prefix[j].questionId.Some? {
          assert prefix[j] == batch[j];
        }
      }
      db.answers := db.answers[AnswerKey(submissionId, batch[i].questionId.value) := batch[i].payload];
      i := i + 1;
    }
    assert batch[..i] == batch;
  }

  // ------------------------------------------------------------ endpoints

  /** `submitAnswers`. Refuses a missing submission, a caller who does not
      own it, a completed one, an invalid request, and a chapter whose
      video is not done, in that order and without any write. Otherwise
      stores the answers, then completes the submission (stamping the time
      and sending one notification) when every snapshot question is
      answered, every snapshot chapter's video is done and the live
      induction has no chapter the snapshot lacks; else it is pending. */
  method SubmitAnswers(db: Db, userId: Id, submissionId: Id, chapterId: Option<Id>, batch: seq<AnswerInput>,
                       catalog: Catalog, live: seq<LiveChapter>, now: Time)
    returns (r: Result<SubmitReport, ApiError>)
    requires db.Valid()
    modifies db
    ensures db.Valid()
    ensures submissionId !in old(db.submissions) ==> r == Err(NotFound)
    ensures submissionId in old(db.submissions) ==>
            var s := old(db.submissions)[submissionId];
            && (s.userId != userId ==> r == Err(Unauthorized))
            && (s.userId == userId && s.status == Completed ==> r == Err(AlreadyCompleted))
            && ((s.userId == userId && s.status != Completed && !ValidAnswers(catalog, chapterId, batch))
                  ==> r == Err(ValidationFailed))
            && ((s.userId == userId && s.status != Completed && ValidAnswers(catalog, chapterId, batch)
                 && !VideoDone(old(db.videos), userId, submissionId, chapterId.value)) ==> r == Err(VideoNotCompleted))
    ensures r.Err? ==> unchanged(db)
    ensures r.Ok? ==>
            && submissionId in old(db.submissions) && ValidAnswers(catalog, chapterId, batch)
            && var s := old(db.submissions)[submissionId];
            && var chs := SnapChapters(s.snapshot);
            && var st := r.value.status;
            && s.userId == userId && s.status != Completed
            && VideoDone(old(db.videos), userId, submissionId, chapterId.value)
            && db.answers == UpsertAll(old(db.answers), submissionId, batch)
            && r.value.allQuestionsAnswered == AllAnswered(db.answers, submissionId, chs)
            && r.value.lastUnansweredChapter == FirstUnansweredRef(db.answers, submissionId, chs)
            && (st == Completed <==> AllAnswered(db.answers, submissionId, chs)
                                     && AllVideosDone(db.videos, userId, submissionId, chs)
                                     && NewChapterIds(live, chs) == [])
            && st != InProgress
            && db.submissions == old(db.submissions)[submissionId :=
                 s.(status := st, completedAt := if st == Completed then Some(now) else s.completedAt)]
            && db.notifications == old(db.notifications) + (if st == Completed then 1 else 0)
            && db.videos == old(db.videos) && db.rowOrder == old(db.rowOrder) && db.nextId == old(db.nextId)
  {
    if submissionId !in db.submissions {
      return Err(NotFound);
    }
    var s := db.submissions[submissionId];
    if s.userId != userId {
      return Err(Unauthorized);
    }
    if s.status == Completed {
      return Err(AlreadyCompleted);
    }
    if !ValidAnswers(catalog, chapterId, batch) {
      return Err(ValidationFailed);
    }
    if !VideoDone(db.videos, userId, submissionId, chapterId.value) {
      return Err(VideoNotCompleted);
    }
    StoreAnswers(db, submissionId, batch);
    var chs := SnapChapters(s.snapshot);
    var allAnswered, first := ScanAnswers(db.answers, submissionId, chs);
    var status := Pending;
    if allAnswered {
      var allVideos := CheckVideos(db.videos, userId, submissionId, chs);
      if allVideos {
        var newIds := NewChapterIds(live, chs);
        if newIds == [] {
          status := Completed;
        }
      }
    }
    var t := if status == Completed then s.(status := Completed, completedAt := Some(now)) else s.(status := Pending);
    db.Retouch(submissionId, t);
    if status == Completed {
      db.notifications := db.notifications + 1;
    }
    return Ok(SubmitReport(allAnswered, status, first));
  }

  /** `complete`. A submission whose snapshot lacks live chapters has them
      merged in (`pass_percentage` copied as stored) and a completed one is
      demoted; that answer is not an error and never completes. Otherwise a
      completed submission is refused; an incomplete one is refused with the
      list of missing answers and nothing changes; else it is completed,
      stamped and one notification is sent. */
  method Complete(db: Db, userId: Id, submissionId: Id, live: seq<LiveChapter>,
                  storageUrl: string -> string, now: Time)
    returns (r: Result<CompleteOutcome, ApiError>)
    requires db.Valid()
    modifies db
    ensures db.Valid()
    ensures db.answers == old(db.answers) && db.videos == old(db.videos)
    ensures db.rowOrder == old(db.rowOrder) && db.nextId == old(db.nextId)
    ensures submissionId !in old(db.submissions) ==> r == Err(NotFound) && unchanged(db)
    ensures submissionId in old(db.submissions) ==>
            var s := old(db.submissions)[submissionId];
            var chs := SnapChapters(s.snapshot);
            && (s.userId != userId ==> r == Err(Unauthorized) && unchanged(db))
            && (s.userId == userId && NewChapterIds(live, chs) != [] ==>
                  && r == Ok(NewChaptersAdded)
                  && db.submissions == old(db.submissions)[submissionId := Reconciled(s, live, RawPass, storageUrl)]
                  && db.notifications == old(db.notifications))
            && (s.userId == userId && NewChapterIds(live, chs) == [] && s.status == Completed ==>
                  r == Err(AlreadyCompleted) && unchanged(db))
            && (s.userId == userId && NewChapterIds(live, chs) == [] && s.status != Completed ==>
                  var allQ := AllAnswered(old(db.answers), submissionId, chs);
                  var allV := AllVideosDone(old(db.videos), userId, submissionId, chs);
                  && (!(allQ && allV) ==>
                        r == Err(IncompleteSubmission(allQ, allV, MissingAnswers(old(db.answers), submissionId, chs)))
                        && unchanged(db))
                  && (allQ && allV ==>
                        && r == Ok(Finalized)
                        && db.submissions == old(db.submissions)[submissionId :=
                             s.(status := Completed, completedAt := Some(now))]
                        && db.notifications == old(db.notifications) + 1))
  {
    if submissionId !in db.submissions {
      return Err(NotFound);
    }
    var s := db.submissions[submissionId];
    if s.userId != userId {
      return Err(Unauthorized);
    }
    var chs := SnapChapters(s.snapshot);
    var newIds := NewChapterIds(live, chs);
    if newIds != [] {
      var added := Reconcile(db, submissionId, live, RawPass, storageUrl);
      return Ok(NewChaptersAdded);
    }
    if s.status == Completed {
      return Err(AlreadyCompleted);
    }
    var allAnswered, missing := CollectMissing(db.answers, submissionId, chs);
    var allVideos := CheckVideos(db.videos, userId, submissionId, chs);
    if !allAnswered || !allVideos {
      return Err(IncompleteSubmission(allAnswered, allVideos, missing));
    }
    var t := s.(status := Completed, completedAt := Some(now));
    db.Retouch(submissionId, t);
    db.notifications := db.notifications + 1;
    return Ok(Finalized);
  }

  /** `getLastUnanswered`: read-only. */
  method GetLastUnanswered(db: Db, userId: Id, submissionId: Id) returns (r: Result<Resume, ApiError>)
    ensures submissionId !in db.submissions ==> r == Err(NotFound)
    ensures submissionId in db.submissions && db.submissions[submissionId].userId != userId ==> r == Err(Unauthorized)
    ensures submissionId in db.submissions && db.submissions[submissionId].userId == userId ==>
            r == Ok(ResumeAt(db.answers, db.videos, userId, submissionId,
                             SnapChapters(db.submissions[submissionId].snapshot)))
  {
    if submissionId !in db.submissions {
      return Err(NotFound);
    }
    var s := db.submissions[submissionId];
    if s.userId != userId {
      return Err(Unauthorized);
    }
    var resume := FindResume(db.answers, db.videos, userId, submissionId, SnapChapters(s.snapshot));
    return Ok(resume);
  }

  /** The inner loop of `show`'s enrichment: one chapter's questions, each
      missing key replaced by the truthy live one. */
  method EnrichQuestionList(questions: seq<Question>, catalog: Catalog) returns (qs: seq<Question>)
    ensures qs == EnrichQuestions(questions, catalog)
  {
    qs := questions;
    var n := 0;
    while n < |qs|
      invariant 0 <= n <= |qs| && |qs| == |questions|
      invariant forall m :: 0 <= m < n ==> qs[m] == EnrichQuestion(questions[m], catalog)
      invariant forall m :: n <= m < |qs| ==> qs[m] == questions[m]
    {
      var q := qs[n];
      if MissingCorrect(q.correctAnswer) && q.id in catalog.questions
         && Truthy(catalog.questions[q.id].correctAnswer) {
        qs := qs[n := q.(correctAnswer := catalog.questions[q.id].correctAnswer)];
      }
      n := n + 1;
    }
  }

  /** The nested loop of `show` that fills in missing answer keys, on a
      copy of the chapter list (the stored row is not written back). */
  method EnrichSnapshot(chs: seq<ChapterSnap>, catalog: Catalog) returns (out: seq<ChapterSnap>)
    ensures out == EnrichChapters(chs, catalog)
  {
    out := chs;
    var i := 0;
    while i < |out|
      invariant 0 <= i <= |out| && |out| == |chs|
      invariant forall j :: 0 <= j < i ==> out[j] == EnrichChapter(chs[j], catalog)
      invariant forall j :: i <= j < |out| ==> out[j] == chs[j]
    {
      var qs := EnrichQuestionList(out[i].questions, catalog);
      out := out[i := out[i].(questions := qs)];
      i := i + 1;
    }
  }

  /** `show`: the caller's own submission, its snapshot with missing answer
      keys filled in for the response only. */
  method Show(db: Db, userId: Id, submissionId: Id, catalog: Catalog) returns (r: Result<Submission, ApiError>)
    ensures submissionId !in db.submissions ==> r == Err(NotFound)
    ensures submissionId in db.submissions && db.submissions[submissionId].userId != userId ==> r == Err(Unauthorized)
    ensures submissionId in db.submissions && db.submissions[submissionId].userId == userId ==>
            var s := db.submissions[submissionId];
            && r.Ok?
            && r.value.(snapshot := s.snapshot) == s
            && r.value.snapshot == if s.snapshot.None? then None
                                   else Some(Snapshot(EnrichChapters(s.snapshot.value.chapters, catalog)))
  {
    if submissionId !in db.submissions {
      return Err(NotFound);
    }
    var s := db.submissions[submissionId];
    if s.userId != userId {
      return Err(Unauthorized);
    }
    if s.snapshot.None? {
      return Ok(s);
    }
    var chapters := EnrichSnapshot(s.snapshot.value.chapters, catalog);
    return Ok(s.(snapshot := Some(Snapshot(chapters))));
  }
}
