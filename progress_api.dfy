/** The user progress endpoints: per-chapter video completion of one
    submission, and of every submission of the user. Both only read. */
module ProgressApi {
  import opened Wrappers
  import opened Course
  import opened Store
  import opened SubmissionRules
  import opened Grading

  /** A chapter entry of `index`: the snapshot's chapter with the user's
      video row for it, defaulting to not completed at 0%. */
  datatype ChapterProgress = ChapterProgress(
    id: Id,
    title: string,
    description: Option<string>,
    isCompleted: bool,
    progress: int,
    completedAt: Option<Time>)

  /** A chapter entry of `show`: the `index` entry plus the video URL and
      the number of questions. */
  datatype ChapterDetail = ChapterDetail(row: ChapterProgress, videoUrl: Option<string>, questionsCount: nat)

  /** The `progress` block: chapter totals and the completion percentage in
      hundredths. */
  datatype Totals = Totals(totalChapters: nat, completedChapters: nat, percentage: nat)

  function RowOf(videos: map<VideoKey, VideoRecord>, userId: Id, submissionId: Id, c: ChapterSnap): (row: ChapterProgress)
    ensures row.isCompleted <==> VideoDone(videos, userId, submissionId, c.id)
    ensures var k := VideoKey(userId, c.id, submissionId);
            && (k in videos ==> row.progress == videos[k].progress && row.completedAt == videos[k].completedAt)
            && (k !in videos ==> row.progress == 0 && row.completedAt == None)
    ensures row.id == c.id && row.title == c.title && row.description == c.description
  {
    var k := VideoKey(userId, c.id, submissionId);
    if k in videos then
      var v := videos[k];
      ChapterProgress(c.id, c.title, c.description, v.isCompleted, v.progress, v.completedAt)
    else
      ChapterProgress(c.id, c.title, c.description, false, 0, None)
  }

  function DetailOf(videos: map<VideoKey, VideoRecord>, userId: Id, submissionId: Id, c: ChapterSnap): ChapterDetail
  {
    ChapterDetail(RowOf(videos, userId, submissionId, c), c.videoUrl, |c.questions|)
  }

  /** The chapter entries, one per snapshot chapter, in snapshot order. */
  function Rows(videos: map<VideoKey, VideoRecord>, userId: Id, submissionId: Id, chs: seq<ChapterSnap>): (rows: seq<ChapterProgress>)
    ensures |rows| == |chs|
    ensures forall i :: 0 <= i < |chs| ==> rows[i] == RowOf(videos, userId, submissionId, chs[i])
  {
    if chs == [] then []
    else Rows(videos, userId, submissionId, chs[..|chs| - 1]) + [RowOf(videos, userId, submissionId, chs[|chs| - 1])]
  }

  function Details(videos: map<VideoKey, VideoRecord>, userId: Id, submissionId: Id, chs: seq<ChapterSnap>): (ds: seq<ChapterDetail>)
    ensures |ds| == |chs|
    ensures forall i :: 0 <= i < |chs| ==> ds[i] == DetailOf(videos, userId, submissionId, chs[i])
  {
    if chs == [] then []
    else Details(videos, userId, submissionId, chs[..|chs| - 1]) + [DetailOf(videos, userId, submissionId, chs[|chs| - 1])]
  }

  /** The number of snapshot chapters whose video is done. */
  function CompletedCount(videos: map<VideoKey, VideoRecord>, userId: Id, submissionId: Id, chs: seq<ChapterSnap>): nat
  {
    if chs == [] then 0
    else CompletedCount(videos, userId, submissionId, chs[..|chs| - 1])
         + (if VideoDone(videos, userId, submissionId, chs[|chs| - 1].id) then 1 else 0)
  }

  /** The counter never exceeds the number of chapters, and reaches it
      exactly when every chapter's video is done — the condition
      `submitAnswers` and `complete` check. */
  lemma {:induction false} CompletedCountAllIff(videos: map<VideoKey, VideoRecord>, userId: Id, submissionId: Id,
                                                chs: seq<ChapterSnap>)
    ensures CompletedCount(videos, userId, submissionId, chs) <= |chs|
    ensures CompletedCount(videos, userId, submissionId, chs) == |chs| <==> AllVideosDone(videos, userId, submissionId, chs)
  {
    if chs != [] {
      var init, c := chs[..|chs| - 1], chs[|chs| - 1];
      CompletedCountAllIff(videos, userId, submissionId, init);
      assert chs == init + [c];
      assert AllVideosDone(videos, userId, submissionId, chs) <==>
             AllVideosDone(videos, userId, submissionId, init) && VideoDone(videos, userId, submissionId, c.id);
    }
  }

  /** `show` and `index` agree chapter by chapter. */
  lemma DetailsExtendRows(videos: map<VideoKey, VideoRecord>, userId: Id, submissionId: Id, chs: seq<ChapterSnap>)
    ensures var ds := Details(videos, userId, submissionId, chs);
            var rows := Rows(videos, userId, submissionId, chs);
            && |ds| == |rows|
            && forall i :: 0 <= i < |ds| ==> ds[i].row == rows[i] && ds[i].questionsCount == |chs[i].questions|
  {
  }

  /** The `progress` block for a chapter list. */
  function TotalsOf(videos: map<VideoKey, VideoRecord>, userId: Id, submissionId: Id, chs: seq<ChapterSnap>): (t: Totals)
    ensures t.totalChapters == |chs| && t.completedChapters <= t.totalChapters
    ensures t.percentage <= 10000
    ensures |chs| > 0 && AllVideosDone(videos, userId, submissionId, chs) ==> t.percentage == 10000
    // rounding to hundredths reaches 100% one chapter short from 20000 chapters on
    ensures t.percentage == 10000 && |chs| < 20000 ==> AllVideosDone(videos, userId, submissionId, chs)
    ensures t.totalChapters == 0 ==> t.percentage == 0
  {
    var done := CompletedCount(videos, userId, submissionId, chs);
    CompletedCountAllIff(videos, userId, submissionId, chs);
    var p := ScoreHundredths(done, |chs|);
    ScoreFull(done, |chs|);
    Totals(|chs|, done, p)
  }

  /** The per-chapter loop of `index`. */
  method ProgressRows(videos: map<VideoKey, VideoRecord>, userId: Id, submissionId: Id, chs: seq<ChapterSnap>)
    returns (rows: seq<ChapterProgress>, completed: nat)
    ensures rows == Rows(videos, userId, submissionId, chs)
    ensures completed == CompletedCount(videos, userId, submissionId, chs)
  {
    rows, completed := [], 0;
    var i := 0;
    while i < |chs|
      invariant 0 <= i <= |chs|
      invariant rows == Rows(videos, userId, submissionId, chs[..i])
      invariant completed == CompletedCount(videos, userId, submissionId, chs[..i])
    {
      var c := chs[i];
      var k := VideoKey(userId, c.id, submissionId);
      var isCompleted := k in videos && videos[k].isCompleted;
      if isCompleted {
        completed := completed + 1;
      }
      var row := if k in videos then ChapterProgress(c.id, c.title, c.description, isCompleted, videos[k].progress, videos[k].completedAt)
                 else ChapterProgress(c.id, c.title, c.description, false, 0, None);
      assert chs[..i + 1][..i] == chs[..i];
      rows := rows + [row];
      i := i + 1;
    }
    assert chs[..i] == chs;
  }

  /** The per-chapter loop of `show`. */
  method DetailRows(videos: map<VideoKey, VideoRecord>, userId: Id, submissionId: Id, chs: seq<ChapterSnap>)
    returns (rows: seq<ChapterDetail>, completed: nat)
    ensures rows == Details(videos, userId, submissionId, chs)
    ensures completed == CompletedCount(videos, userId, submissionId, chs)
  {
    rows, completed := [], 0;
    var i := 0;
    while i < |chs|
      invariant 0 <= i <= |chs|
      invariant rows == Details(videos, userId, submissionId, chs[..i])
      invariant completed == CompletedCount(videos, userId, submissionId, chs[..i])
    {
      var c := chs[i];
      var k := VideoKey(userId, c.id, submissionId);
      var isCompleted := k in videos && videos[k].isCompleted;
      if isCompleted {
        completed := completed + 1;
      }
      var row := if k in videos then ChapterProgress(c.id, c.title, c.description, isCompleted, videos[k].progress, videos[k].completedAt)
                 else ChapterProgress(c.id, c.title, c.description, false, 0, None);
      assert chs[..i + 1][..i] == chs[..i];
      rows := rows + [ChapterDetail(row, c.videoUrl, |c.questions|)];
      i := i + 1;
    }
    assert chs[..i] == chs;
  }

  /** The answer of `show`. */
  datatype ShowReport = ShowReport(submission: Submission, chapters: seq<ChapterDetail>, progress: Totals)

  /** `show`: the owner's progress through one submission's snapshot. */
  method Show(submissions: map<Id, Submission>, videos: map<VideoKey, VideoRecord>, userId: Id, submissionId: Id)
    returns (r: Result<ShowReport, ApiError>)
    ensures submissionId !in submissions ==> r == Err(NotFound)
    ensures submissionId in submissions && submissions[submissionId].userId != userId ==> r == Err(Unauthorized)
    ensures (submissionId in submissions && submissions[submissionId].userId == userId
             && submissions[submissionId].snapshot.None?) ==> r == Err(InvalidSubmissionData)
    ensures r.Ok? ==>
              && submissionId in submissions
              && var s := submissions[submissionId];
              && s.userId == userId && s.snapshot.Some?
              && r.value.submission == s
              && r.value.chapters == Details(videos, userId, submissionId, s.snapshot.value.chapters)
              && r.value.progress == TotalsOf(videos, userId, submissionId, s.snapshot.value.chapters)
    ensures (r.Ok? || r == Err(InvalidSubmissionData)) <==> submissionId in submissions && submissions[submissionId].userId == userId
  {
    if submissionId !in submissions {
      return Err(NotFound);
    }
    var s := submissions[submissionId];
    if s.userId != userId {
      return Err(Unauthorized);
    }
    if s.snapshot.None? {
      return Err(InvalidSubmissionData);
    }
    var chs := s.snapshot.value.chapters;
    var rows, completed := DetailRows(videos, userId, submissionId, chs);
    var total := |chs|;
    var t := Totals(total, completed, ScoreHundredths(completed, total));
    return Ok(ShowReport(s, rows, t));
  }

  /** One entry of `index`. The induction's title and description come
      from the inductions table and are not part of this model. */
  datatype ProgressEntry = ProgressEntry(
    submissionId: Id,
    inductionId: Id,
    status: Status,
    chapters: seq<ChapterProgress>,
    progress: Totals,
    completedAt: Option<Time>)

  function EntryOf(videos: map<VideoKey, VideoRecord>, s: Submission): ProgressEntry
  {
    var chs := SnapChapters(s.snapshot);
    ProgressEntry(s.id, s.inductionId, s.status, Rows(videos, s.userId, s.id, chs),
                  TotalsOf(videos, s.userId, s.id, chs), s.completedAt)
  }

  /** Whether `index` reports the submission: it is the user's and has a
      snapshot. */
  predicate Listed(s: Submission, userId: Id)
  {
    s.userId == userId && s.snapshot.Some?
  }

  /** The entries of `index` for the rows `order` of the table, in that
      order: only the user's submissions, and only those with a snapshot. */
  function IndexEntries(subs: map<Id, Submission>, order: seq<Id>, videos: map<VideoKey, VideoRecord>, userId: Id)
    : (es: seq<ProgressEntry>)
    requires forall i :: 0 <= i < |order| ==> order[i] in subs
    ensures forall e :: e in es ==> exists i :: 0 <= i < |order| && Listed(subs[order[i]], userId)
                                                 && e == EntryOf(videos, subs[order[i]])
    ensures |es| <= |order|
  {
    if order == [] then []
    else
      var init := IndexEntries(subs, order[..|order| - 1], videos, userId);
      var s := subs[order[|order| - 1]];
      init + (if Listed(s, userId) then [EntryOf(videos, s)] else [])
  }

  /** Every listed submission of the user appears in `index`. */
  lemma {:induction false} IndexComplete(subs: map<Id, Submission>, order: seq<Id>, videos: map<VideoKey, VideoRecord>,
                                         userId: Id, k: nat)
    requires forall i :: 0 <= i < |order| ==> order[i] in subs
    requires k < |order| && Listed(subs[order[k]], userId)
    ensures EntryOf(videos, subs[order[k]]) in IndexEntries(subs, order, videos, userId)
  {
    if k < |order| - 1 {
      IndexComplete(subs, order[..|order| - 1], videos, userId, k);
    }
  }

  /** `index`: the loop over the user's submissions in table order. */
  method Index(submissions: map<Id, Submission>, rowOrder: seq<Id>, videos: map<VideoKey, VideoRecord>, userId: Id)
    returns (entries: seq<ProgressEntry>)
    requires forall i :: 0 <= i < |rowOrder| ==> rowOrder[i] in submissions
    ensures entries == IndexEntries(submissions, rowOrder, videos, userId)
  {
    entries := [];
    var i := 0;
    while i < |rowOrder|
      invariant 0 <= i <= |rowOrder|
      invariant entries == IndexEntries(submissions, rowOrder[..i], videos, userId)
    {
      var s := submissions[rowOrder[i]];
      assert rowOrder[..i + 1][..i] == rowOrder[..i];
      if s.userId == userId && s.snapshot.Some? {
        var chs := s.snapshot.value.chapters;
        var rows, completed := ProgressRows(videos, userId, s.id, chs);
        var total := |chs|;
        var t := Totals(total, completed, ScoreHundredths(completed, total));
        entries := entries + [ProgressEntry(s.id, s.inductionId, s.status, rows, t, s.completedAt)];
      }
      i := i + 1;
    }
    assert rowOrder[..i] == rowOrder;
  }
}
