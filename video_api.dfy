/** The video completion endpoints: progress reports, explicit completion,
    and the completion query, all keyed by (user, chapter, submission). */
module VideoApi {
  import opened Wrappers
  import opened Course
  import opened Store

  /** Progress is in hundredths of a percent; 10000 is 100%. */
  const FullProgress: int := 10000

  /** The row `updateProgress` writes: completed exactly when the progress
      reaches 100%, and then stamped with the time of the call. */
  function ProgressRecord(progress: int, watched: int, total: Option<int>, now: Time): (v: VideoRecord)
    ensures v.isCompleted <==> progress >= FullProgress
    ensures v.completedAt == (if progress >= FullProgress then Some(now) else None)
    ensures v.progress == progress && v.watchedSeconds == watched && v.totalSeconds == total
  {
    var done := progress >= FullProgress;
    VideoRecord(done, progress, watched, total, if done then Some(now) else None)
  }

  /** The row `markCompleted` writes: completed at 100%, the watched time
      taken from the total (0 when no total is given). */
  function MarkedRecord(total: Option<int>, now: Time): (v: VideoRecord)
    ensures v.isCompleted && v.progress == FullProgress && v.completedAt == Some(now)
    ensures v.watchedSeconds == (if total.Some? then total.value else 0) && v.totalSeconds == total
  {
    VideoRecord(true, FullProgress, total.GetOr(0), total, Some(now))
  }

  /** The validation rules of `updateProgress`: an existing submission id,
      a progress between 0 and 100%, a non-negative watched time, and a
      total that is absent or non-negative. */
  predicate ProgressRequestOk(subs: map<Id, Submission>, submissionId: Option<Id>, progress: Option<int>,
                              watched: Option<int>, total: Option<int>)
  {
    && submissionId.Some? && submissionId.value in subs
    && progress.Some? && 0 <= progress.value <= FullProgress
    && watched.Some? && watched.value >= 0
    && (total.Some? ==> total.value >= 0)
  }

  /** The validation rules of `markCompleted`. */
  predicate MarkRequestOk(subs: map<Id, Submission>, submissionId: Option<Id>, total: Option<int>)
  {
    submissionId.Some? && submissionId.value in subs && (total.Some? ==> total.value >= 0)
  }

  /** Writing the row for one key leaves every other key's completion as it
      was, and the key's own completion is the new row's. */
  lemma UpsertVideoSeparate(videos: map<VideoKey, VideoRecord>, k: VideoKey, v: VideoRecord,
                            userId: Id, submissionId: Id, chapterId: Id)
    ensures VideoKey(userId, chapterId, submissionId) != k ==>
              (VideoDone(videos[k := v], userId, submissionId, chapterId) <==> VideoDone(videos, userId, submissionId, chapterId))
    ensures VideoKey(userId, chapterId, submissionId) == k ==>
              (VideoDone(videos[k := v], userId, submissionId, chapterId) <==> v.isCompleted)
  {
  }

  /** A progress report below 100% after the video was completed undoes
      the completion: the row is overwritten as a whole. */
  lemma LowProgressUndoesCompletion(videos: map<VideoKey, VideoRecord>, userId: Id, chapterId: Id, submissionId: Id,
                                    progress: int, watched: int, total: Option<int>, now: Time)
    requires progress < FullProgress
    ensures !VideoDone(videos[VideoKey(userId, chapterId, submissionId) := ProgressRecord(progress, watched, total, now)],
                       userId, submissionId, chapterId)
  {
  }

  /** `updateProgress`. A missing chapter is a 404 (route binding); then
      the request is validated, then ownership is checked, and the row for
      (user, chapter, submission) is created or replaced. */
  method UpdateProgress(db: Db, userId: Id, chapterId: Id, catalog: Catalog, submissionId: Option<Id>,
                        progress: Option<int>, watched: Option<int>, total: Option<int>, now: Time)
    returns (r: Result<VideoRecord, ApiError>)
    requires db.Valid()
    modifies db
    ensures db.Valid()
    ensures chapterId !in catalog.chapterIds ==> r == Err(NotFound)
    ensures (chapterId in catalog.chapterIds && !ProgressRequestOk(old(db.submissions), submissionId, progress, watched, total))
              ==> r == Err(ValidationFailed)
    ensures (chapterId in catalog.chapterIds && ProgressRequestOk(old(db.submissions), submissionId, progress, watched, total)
             && old(db.submissions)[submissionId.value].userId != userId) ==> r == Err(Unauthorized)
    ensures r.Err? ==> unchanged(db)
    ensures r.Ok? <==>
              && chapterId in catalog.chapterIds
              && ProgressRequestOk(old(db.submissions), submissionId, progress, watched, total)
              && old(db.submissions)[submissionId.value].userId == userId
    ensures r.Ok? ==>
              && chapterId in catalog.chapterIds
              && ProgressRequestOk(old(db.submissions), submissionId, progress, watched, total)
              && old(db.submissions)[submissionId.value].userId == userId
              && r.value == ProgressRecord(progress.value, watched.value, total, now)
              && db.videos == old(db.videos)[VideoKey(userId, chapterId, submissionId.value) := r.value]
    ensures db.submissions == old(db.submissions) && db.rowOrder == old(db.rowOrder) && db.nextId == old(db.nextId)
    ensures db.answers == old(db.answers) && db.notifications == old(db.notifications)
  {
    if chapterId !in catalog.chapterIds {
      return Err(NotFound);
    }
    if !ProgressRequestOk(db.submissions, submissionId, progress, watched, total) {
      return Err(ValidationFailed);
    }
    var s := db.submissions[submissionId.value];
    if s.userId != userId {
      return Err(Unauthorized);
    }
    var v := ProgressRecord(progress.value, watched.value, total, now);
    db.videos := db.videos[VideoKey(userId, chapterId, submissionId.value) := v];
    return Ok(v);
  }

  /** `markCompleted`: the same checks, then the row is written as a
      completed view. Afterwards the chapter's video counts as done for the
      submission, which is what `submitAnswers` demands. */
  method MarkCompleted(db: Db, userId: Id, chapterId: Id, catalog: Catalog, submissionId: Option<Id>,
                       total: Option<int>, now: Time)
    returns (r: Result<VideoRecord, ApiError>)
    requires db.Valid()
    modifies db
    ensures db.Valid()
    ensures chapterId !in catalog.chapterIds ==> r == Err(NotFound)
    ensures (chapterId in catalog.chapterIds && !MarkRequestOk(old(db.submissions), submissionId, total))
              ==> r == Err(ValidationFailed)
    ensures (chapterId in catalog.chapterIds && MarkRequestOk(old(db.submissions), submissionId, total)
             && old(db.submissions)[submissionId.value].userId != userId) ==> r == Err(Unauthorized)
    ensures r.Err? ==> unchanged(db)
    ensures r.Ok? <==>
              && chapterId in catalog.chapterIds
              && MarkRequestOk(old(db.submissions), submissionId, total)
              && old(db.submissions)[submissionId.value].userId == userId
    ensures r.Ok? ==>
              && chapterId in catalog.chapterIds
              && MarkRequestOk(old(db.submissions), submissionId, total)
              && old(db.submissions)[submissionId.value].userId == userId
              && r.value == MarkedRecord(total, now)
              && db.videos == old(db.videos)[VideoKey(userId, chapterId, submissionId.value) := r.value]
              && VideoDone(db.videos, userId, submissionId.value, chapterId)
    ensures db.submissions == old(db.submissions) && db.rowOrder == old(db.rowOrder) && db.nextId == old(db.nextId)
    ensures db.answers == old(db.answers) && db.notifications == old(db.notifications)
  {
    if chapterId !in catalog.chapterIds {
      return Err(NotFound);
    }
    if !MarkRequestOk(db.submissions, submissionId, total) {
      return Err(ValidationFailed);
    }
    var s := db.submissions[submissionId.value];
    if s.userId != userId {
      return Err(Unauthorized);
    }
    var v := MarkedRecord(total, now);
    db.videos := db.videos[VideoKey(userId, chapterId, submissionId.value) := v];
    return Ok(v);
  }

  /** The answer of `checkCompletion`: the flag and progress default to
      false and 0 when there is no row, and the row itself is returned. */
  datatype CompletionStatus = CompletionStatus(isCompleted: bool, progress: int, completion: Option<VideoRecord>)

  /** `checkCompletion`: a read-only lookup of the caller's row. */
  method CheckCompletion(submissions: map<Id, Submission>, videos: map<VideoKey, VideoRecord>, userId: Id,
                         chapterId: Id, catalog: Catalog, submissionId: Option<Id>)
    returns (r: Result<CompletionStatus, ApiError>)
    ensures chapterId !in catalog.chapterIds ==> r == Err(NotFound)
    ensures (chapterId in catalog.chapterIds && !(submissionId.Some? && submissionId.value in submissions))
              ==> r == Err(ValidationFailed)
    ensures (chapterId in catalog.chapterIds && submissionId.Some? && submissionId.value in submissions
             && submissions[submissionId.value].userId != userId) ==> r == Err(Unauthorized)
    ensures r.Ok? <==>
              && chapterId in catalog.chapterIds && submissionId.Some? && submissionId.value in submissions
              && submissions[submissionId.value].userId == userId
    ensures r.Ok? ==>
              && chapterId in catalog.chapterIds && submissionId.Some? && submissionId.value in submissions
              && submissions[submissionId.value].userId == userId
              && var k := VideoKey(userId, chapterId, submissionId.value);
              && (r.value.isCompleted <==> VideoDone(videos, userId, submissionId.value, chapterId))
              && (k in videos ==> r.value.progress == videos[k].progress && r.value.completion == Some(videos[k]))
              && (k !in videos ==> r.value.progress == 0 && r.value.completion == None)
  {
    if chapterId !in catalog.chapterIds {
      return Err(NotFound);
    }
    if !(submissionId.Some? && submissionId.value in submissions) {
      return Err(ValidationFailed);
    }
    if submissions[submissionId.value].userId != userId {
      return Err(Unauthorized);
    }
    var k := VideoKey(userId, chapterId, submissionId.value);
    if k in videos {
      var v := videos[k];
      return Ok(CompletionStatus(v.isCompleted, v.progress, Some(v)));
    }
    return Ok(CompletionStatus(false, 0, None));
  }

  /** Marking a video completed and then asking reports it completed at
      100%. */
  method MarkThenCheck(db: Db, userId: Id, chapterId: Id, catalog: Catalog, submissionId: Option<Id>,
                       total: Option<int>, now: Time)
    returns (marked: Result<VideoRecord, ApiError>, status: Result<CompletionStatus, ApiError>)
    requires db.Valid()
    modifies db
    ensures db.Valid()
    ensures marked.Ok? ==> status.Ok? && status.value.isCompleted && status.value.progress == FullProgress
    ensures marked.Err? && marked.error != ValidationFailed ==> status == Err(marked.error)
  {
    marked := MarkCompleted(db, userId, chapterId, catalog, submissionId, total, now);
    status := CheckCompletion(db.submissions, db.videos, userId, chapterId, catalog, submissionId);
    if marked.Ok? {
      assert db.videos[VideoKey(userId, chapterId, submissionId.value)] == MarkedRecord(total, now);
    }
  }
}
