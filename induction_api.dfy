/** The induction controller: starting an induction, and reconciling a
    stored snapshot with chapters added to the live induction since. */
module InductionApi {
  import opened Wrappers
  import opened Sorting
  import opened Course
  import opened SnapshotBuilder
  import opened Store

  /** The answers `start` gives. */
  datatype StartOutcome =
    | Reopened(id: Id)      // a completed submission got new chapters and is pending again
    | AlreadyDone(id: Id)   // a completed submission, nothing new
    | Resumed(id: Id)       // an in-progress or pending submission, returned as it is
    | Created(id: Id)       // a new in-progress submission with a fresh snapshot

  predicate Matches(s: Submission, userId: Id, inductionId: Id, statuses: set<Status>)
  {
    s.userId == userId && s.inductionId == inductionId && s.status in statuses
  }

  /** Some stored submission of the user for the induction has one of the
      statuses. */
  ghost predicate Has(subs: map<Id, Submission>, userId: Id, inductionId: Id, statuses: set<Status>)
  {
    exists id :: id in subs && Matches(subs[id], userId, inductionId, statuses)
  }

  /** A completed submission is demoted to pending; other statuses stay. */
  function Demote(st: Status): (r: Status)
    ensures r != Completed
    ensures st != Completed ==> r == st
  {
    if st == Completed then Pending else st
  }

  /** The stored submission after its snapshot absorbed the live chapters
      it lacked. A missing snapshot starts from an empty chapter list. */
  function Reconciled(s: Submission, live: seq<LiveChapter>, policy: PassPolicy,
                      storageUrl: string -> string): (t: Submission)
    ensures t.id == s.id && t.userId == s.userId && t.inductionId == s.inductionId
    ensures t.completedAt == s.completedAt && t.status == Demote(s.status)
    ensures t.snapshot.Some?
  {
    var chs := SnapChapters(s.snapshot);
    s.(snapshot := Some(Snapshot(MergeChapters(chs, live, policy, storageUrl))), status := Demote(s.status))
  }

  /** What reconciling does to the chapter list: it then holds the old ids
      and the live ids, keeps every old chapter, is in display order, and
      leaves no live chapter new. */
  lemma ReconciledChapters(s: Submission, live: seq<LiveChapter>, policy: PassPolicy,
                           storageUrl: string -> string)
    ensures var chs := SnapChapters(Reconciled(s, live, policy, storageUrl).snapshot);
            && IdSet(chs) == IdSet(SnapChapters(s.snapshot)) + LiveIdSet(live)
            && (forall c :: c in SnapChapters(s.snapshot) ==> c in chs)
            && SortedBy(chs, ChapterOrder)
            && NewChapterIds(live, chs) == []
  {
    var before := SnapChapters(s.snapshot);
    MergeIds(before, live, policy, storageUrl);
    MergeKeepsOldChapters(before, live, policy, storageUrl);
    MergeSettles(before, live, policy, storageUrl);
  }

  /** `Submission::where(...)->first()`: the first row, in table order, of
      the user's submissions for the induction with one of the statuses. */
  method FindSubmission(subs: map<Id, Submission>, rowOrder: seq<Id>, userId: Id, inductionId: Id,
                        statuses: set<Status>) returns (r: Option<Id>)
    requires forall i :: 0 <= i < |rowOrder| ==> rowOrder[i] in subs
    requires forall id :: id in subs ==> id in rowOrder
    ensures r.Some? ==> r.value in subs && Matches(subs[r.value], userId, inductionId, statuses)
    ensures r.Some? ==> exists k :: 0 <= k < |rowOrder| && rowOrder[k] == r.value
                          && (forall j :: 0 <= j < k ==> !Matches(subs[rowOrder[j]], userId, inductionId, statuses))
    ensures r.None? <==> !Has(subs, userId, inductionId, statuses)
  {
    var i := 0;
    while i < |rowOrder|
      invariant 0 <= i <= |rowOrder|
      invariant forall j :: 0 <= j < i ==> !Matches(subs[rowOrder[j]], userId, inductionId, statuses)
    {
      if Matches(subs[rowOrder[i]], userId, inductionId, statuses) {
        return Some(rowOrder[i]);
      }
      i := i + 1;
    }
    forall id | id in subs ensures !Matches(subs[id], userId, inductionId, statuses) {
      var k :| 0 <= k < |rowOrder| && rowOrder[k] == id;
    }
    return None;
  }

  /** `updateSubmissionWithNewChapters`, and the same steps inside
      `complete`, which differ only in `policy`: when some live chapter id
      is missing from the snapshot, fragments for the missing chapters are
      merged in by display order and a completed submission becomes
      pending; otherwise nothing changes and the answer is false. */
  method Reconcile(db: Db, id: Id, live: seq<LiveChapter>, policy: PassPolicy,
                   storageUrl: string -> string) returns (added: bool)
    requires db.Valid() && id in db.submissions
    modifies db
    ensures db.Valid()
    ensures added <==> NewChapterIds(live, SnapChapters(old(db.submissions[id].snapshot))) != []
    ensures !added ==> db.submissions == old(db.submissions)
    ensures added ==> db.submissions == old(db.submissions)[id := Reconciled(old(db.submissions[id]), live, policy, storageUrl)]
    ensures db.rowOrder == old(db.rowOrder) && db.nextId == old(db.nextId)
    ensures db.answers == old(db.answers) && db.videos == old(db.videos)
    ensures db.notifications == old(db.notifications)
  {
    var s := db.submissions[id];
    var newIds := NewChapterIds(live, SnapChapters(s.snapshot));
    if newIds == [] {
      return false;
    }
    var t := Reconciled(s, live, policy, storageUrl);
    db.Retouch(id, t);
    return true;
  }

  /** `start`. Inactive inductions are refused. A completed submission is
      reconciled (without `pass_percentage` in new fragments) and reported;
      an in-progress or pending one is returned untouched; otherwise a new
      in-progress submission is created holding a snapshot of the live
      chapters. */
  method Start(db: Db, userId: Id, induction: Induction, storageUrl: string -> string)
    returns (r: Result<StartOutcome, ApiError>)
    requires db.Valid()
    modifies db
    ensures db.Valid()
    ensures r.Err? <==> !induction.isActive
    ensures r.Err? ==> r.error == InductionInactive && unchanged(db)
    ensures db.answers == old(db.answers) && db.videos == old(db.videos)
    ensures db.notifications == old(db.notifications)
    // a completed submission exists: it is reconciled, nothing is created
    ensures r.Ok? && (r.value.Reopened? || r.value.AlreadyDone?) <==>
            induction.isActive && Has(old(db.submissions), userId, induction.id, {Completed})
    ensures r.Ok? && (r.value.Reopened? || r.value.AlreadyDone?) ==>
            r.value.id in old(db.submissions) &&
            var s := old(db.submissions)[r.value.id];
            && Matches(s, userId, induction.id, {Completed})
            && (r.value.Reopened? <==> NewChapterIds(induction.chapters, SnapChapters(s.snapshot)) != [])
            && (r.value.AlreadyDone? ==> db.submissions == old(db.submissions))
            && (r.value.Reopened? ==> db.submissions == old(db.submissions)[r.value.id := Reconciled(s, induction.chapters, OmitPass, storageUrl)])
            && db.rowOrder == old(db.rowOrder) && db.nextId == old(db.nextId)
    // an active submission exists: it is returned as it is
    ensures r.Ok? && r.value.Resumed? <==>
            induction.isActive && !Has(old(db.submissions), userId, induction.id, {Completed})
            && Has(old(db.submissions), userId, induction.id, {InProgress, Pending})
    ensures r.Ok? && r.value.Resumed? ==>
            && r.value.id in old(db.submissions)
            && Matches(old(db.submissions)[r.value.id], userId, induction.id, {InProgress, Pending})
            && unchanged(db)
    // none exists: exactly one new in-progress submission
    ensures r.Ok? && r.value.Created? <==>
            induction.isActive && !Has(old(db.submissions), userId, induction.id, {InProgress, Pending, Completed})
    ensures r.Ok? && r.value.Created? ==>
            && r.value.id == old(db.nextId) && r.value.id !in old(db.submissions)
            && db.submissions == old(db.submissions)[r.value.id :=
                 Submission(r.value.id, userId, induction.id, InProgress,
                            Some(BuildSnapshot(induction.chapters, storageUrl)), None)]
            && db.rowOrder == old(db.rowOrder) + [r.value.id]
  {
    if !induction.isActive {
      return Err(InductionInactive);
    }
    var done := FindSubmission(db.submissions, db.rowOrder, userId, induction.id, {Completed});
    if done.Some? {
      var added := Reconcile(db, done.value, induction.chapters, OmitPass, storageUrl);
      if added {
        return Ok(Reopened(done.value));
      }
      return Ok(AlreadyDone(done.value));
    }
    var active := FindSubmission(db.submissions, db.rowOrder, userId, induction.id, {InProgress, Pending});
    if active.Some? {
      assert !Has(db.submissions, userId, induction.id, {InProgress, Pending, Completed}) ==> false;
      return Ok(Resumed(active.value));
    }
    NoSubmissionAtAll(db.submissions, userId, induction.id);
    var id := CreateSubmission(db, userId, induction, storageUrl);
    return Ok(Created(id));
  }

  /** No row of the user for the induction, whatever its status. */
  ghost predicate NoneFor(subs: map<Id, Submission>, userId: Id, inductionId: Id)
  {
    forall id :: id in subs ==> !(subs[id].userId == userId && subs[id].inductionId == inductionId)
  }

  /** Every status is completed, in progress or pending, so finding none
      of either kind means there is no row at all. */
  lemma NoSubmissionAtAll(subs: map<Id, Submission>, userId: Id, inductionId: Id)
    requires !Has(subs, userId, inductionId, {Completed})
    requires !Has(subs, userId, inductionId, {InProgress, Pending})
    ensures NoneFor(subs, userId, inductionId)
    ensures !Has(subs, userId, inductionId, {InProgress, Pending, Completed})
  {
    forall id | id in subs
      ensures !(subs[id].userId == userId && subs[id].inductionId == inductionId)
    {
      var st := subs[id].status;
      assert st == Completed || st in {InProgress, Pending};
      assert !Matches(subs[id], userId, inductionId, {Completed});
      assert !Matches(subs[id], userId, inductionId, {InProgress, Pending});
    }
  }

  /** The insert at the end of `start`: a new in-progress row under the next
      id, holding a fresh snapshot. */
  method CreateSubmission(db: Db, userId: Id, induction: Induction, storageUrl: string -> string)
    returns (id: Id)
    requires db.Valid() && NoneFor(db.submissions, userId, induction.id)
    modifies db
    ensures db.Valid()
    ensures id == old(db.nextId) && id !in old(db.submissions)
    ensures db.submissions == old(db.submissions)[id :=
              Submission(id, userId, induction.id, InProgress, Some(BuildSnapshot(induction.chapters, storageUrl)), None)]
    ensures db.rowOrder == old(db.rowOrder) + [id]
    ensures db.answers == old(db.answers) && db.videos == old(db.videos)
    ensures db.notifications == old(db.notifications)
  {
    id := db.nextId;
    var s := Submission(id, userId, induction.id, InProgress, Some(BuildSnapshot(induction.chapters, storageUrl)), None);
    db.Insert(s);
  }

  /** Starting twice with no change to the live induction lands on the same
      submission, and the second start neither creates nor reopens. */
  method StartTwice(db: Db, userId: Id, induction: Induction, storageUrl: string -> string)
    returns (first: Result<StartOutcome, ApiError>, second: Result<StartOutcome, ApiError>)
    requires db.Valid()
    modifies db
    ensures db.Valid()
    ensures first.Err? <==> second.Err?
    ensures first.Ok? ==> second.Ok? && second.value.id == first.value.id
    ensures first.Ok? ==> second.value.Resumed? || second.value.AlreadyDone?
  {
    ghost var before := db.submissions;
    first := Start(db, userId, induction, storageUrl);
    ghost var between := db.submissions;
    assert OnePerUserAndInduction(between);
    second := Start(db, userId, induction, storageUrl);
    if first.Ok? {
      var id := first.value.id;
      assert id in between && between[id].userId == userId && between[id].inductionId == induction.id;
      assert Matches(between[id], userId, induction.id, {InProgress, Pending, Completed});
      assert !second.value.Created?;
      var id2 := second.value.id;
      assert id2 in between && between[id2].userId == userId && between[id2].inductionId == induction.id;
      assert id2 == id;
      if first.value.Reopened? {
        assert between[id].status == Pending;
        assert !Has(between, userId, induction.id, {Completed}) by {
          forall k | k in between ensures !Matches(between[k], userId, induction.id, {Completed}) {
            if between[k].userId == userId && between[k].inductionId == induction.id {
              assert k == id;
            }
          }
        }
      } else if first.value.AlreadyDone? {
        assert between == before;
        assert NewChapterIds(induction.chapters, SnapChapters(between[id].snapshot)) == [];
      }
    }
  }
}
