/** The pure half of the induction controller: building a snapshot of an
    induction's chapters, finding live chapters a snapshot lacks, and merging
    fragments for them into the snapshot in display order. */
module SnapshotBuilder {
  import opened Wrappers
  import opened Php
  import opened Sorting
  import opened Course

  /** How a fragment records `pass_percentage`. The three places that build
      fragments differ here: `start` defaults a null to 70, the merge in
      `complete` copies the column as it is, and the merge run by `start`
      for a completed submission leaves the key out. */
  datatype PassPolicy = OmitPass | RawPass | DefaultPass(percent: int)

  function PassValue(p: Option<int>, policy: PassPolicy): Option<int>
  {
    match policy
    case OmitPass => None
    case RawPass => p
    case DefaultPass(d) => Some(p.GetOr(d))
  }

  /** The fragment's `video_url`: the public URL of an uploaded file when
      the chapter has a (truthy) `video_path`, else the stored external URL.
      `storageUrl` stands for the storage disk's URL generator. */
  function ResolveVideoUrl(c: LiveChapter, storageUrl: string -> string): Option<string>
  {
    if c.videoPath.Some? && TruthyString(c.videoPath.value) then Some(storageUrl(c.videoPath.value))
    else c.videoUrl
  }

  /** The snapshot fragment of one live chapter: its fields, and its
      questions in display order (ties in table order). */
  function Fragment(c: LiveChapter, policy: PassPolicy, storageUrl: string -> string): (f: ChapterSnap)
    ensures f.id == c.id && f.title == c.title && f.displayOrder == c.displayOrder
    ensures f.passPercentage == PassValue(c.passPercentage, policy)
    ensures f.passPercentage.Some? <==> (policy.DefaultPass? || (policy.RawPass? && c.passPercentage.Some?))
    ensures SortedBy(f.questions, QuestionOrder)
    ensures multiset(f.questions) == multiset(c.questions)
  {
    ChapterSnap(c.id, c.title, c.description, ResolveVideoUrl(c, storageUrl), c.videoPath,
                c.videoFilename, c.videoDuration, c.displayOrder, PassValue(c.passPercentage, policy),
                SortBy(c.questions, QuestionOrder))
  }

  /** The fragments of a list of live chapters, in the same order. */
  function Fragments(cs: seq<LiveChapter>, policy: PassPolicy, storageUrl: string -> string): (fs: seq<ChapterSnap>)
    ensures |fs| == |cs|
    ensures forall i :: 0 <= i < |cs| ==> fs[i] == Fragment(cs[i], policy, storageUrl)
  {
    if cs == [] then [] else [Fragment(cs[0], policy, storageUrl)] + Fragments(cs[1..], policy, storageUrl)
  }

  lemma FragmentsIds(cs: seq<LiveChapter>, policy: PassPolicy, storageUrl: string -> string)
    ensures IdSet(Fragments(cs, policy, storageUrl)) == LiveIdSet(cs)
  {
    var fs := Fragments(cs, policy, storageUrl);
    forall id | id in LiveIdSet(cs) ensures id in IdSet(fs) {
      var c :| c in cs && c.id == id;
      var i :| 0 <= i < |cs| && cs[i] == c;
      assert fs[i] in fs;
    }
    forall id | id in IdSet(fs) ensures id in LiveIdSet(cs) {
      var f :| f in fs && f.id == id;
      var i :| 0 <= i < |fs| && fs[i] == f;
      assert cs[i] in cs;
    }
  }

  lemma IdSetOfPermutation(a: seq<ChapterSnap>, b: seq<ChapterSnap>)
    requires multiset(a) == multiset(b)
    ensures IdSet(a) == IdSet(b)
  {
    forall c ensures c in a <==> c in b {
      assert c in a <==> c in multiset(a);
      assert c in b <==> c in multiset(b);
    }
  }

  lemma LiveIdSetOfPermutation(a: seq<LiveChapter>, b: seq<LiveChapter>)
    requires multiset(a) == multiset(b)
    ensures LiveIdSet(a) == LiveIdSet(b)
  {
    forall c ensures c in a <==> c in b {
      assert c in a <==> c in multiset(a);
      assert c in b <==> c in multiset(b);
    }
  }

  lemma IdSetAppend(a: seq<ChapterSnap>, b: seq<ChapterSnap>)
    ensures IdSet(a + b) == IdSet(a) + IdSet(b)
  {
    forall c ensures c in a + b <==> c in a || c in b {
    }
  }

  lemma FragmentsSorted(cs: seq<LiveChapter>, policy: PassPolicy, storageUrl: string -> string)
    requires SortedBy(cs, LiveOrder)
    ensures SortedBy(Fragments(cs, policy, storageUrl), ChapterOrder)
  {
    var fs := Fragments(cs, policy, storageUrl);
    forall i, j | 0 <= i < j < |fs| ensures ChapterOrder(fs[i]) <= ChapterOrder(fs[j]) {
      assert LiveOrder(cs[i]) <= LiveOrder(cs[j]);
    }
  }

  /** `start`: the chapters in display order (ties in table order), each
      with its questions in display order and `pass_percentage` defaulted to
      70 when null. */
  function BuildSnapshot(live: seq<LiveChapter>, storageUrl: string -> string): (s: Snapshot)
    ensures |s.chapters| == |live|
    ensures SortedBy(s.chapters, ChapterOrder)
    ensures IdSet(s.chapters) == LiveIdSet(live)
    ensures forall i :: 0 <= i < |s.chapters| ==> SortedBy(s.chapters[i].questions, QuestionOrder)
    ensures forall i :: 0 <= i < |s.chapters| ==> s.chapters[i].passPercentage.Some?
    ensures forall c :: c in live ==> Fragment(c, DefaultPass(70), storageUrl) in s.chapters
  {
    var sorted := SortBy(live, LiveOrder);
    var fs := Fragments(sorted, DefaultPass(70), storageUrl);
    FragmentsIds(sorted, DefaultPass(70), storageUrl);
    LiveIdSetOfPermutation(sorted, live);
    FragmentsSorted(sorted, DefaultPass(70), storageUrl);
    FragmentsCover(sorted, live, DefaultPass(70), storageUrl);
    Snapshot(fs)
  }

  /** Every chapter of `live` has its fragment among the fragments of a
      permutation of `live`. */
  lemma FragmentsCover(sorted: seq<LiveChapter>, live: seq<LiveChapter>, policy: PassPolicy, storageUrl: string -> string)
    requires multiset(sorted) == multiset(live)
    ensures forall c :: c in live ==> Fragment(c, policy, storageUrl) in Fragments(sorted, policy, storageUrl)
  {
    var fs := Fragments(sorted, policy, storageUrl);
    forall c | c in live ensures Fragment(c, policy, storageUrl) in fs {
      assert c in multiset(live);
      assert c in multiset(sorted);
      var i :| 0 <= i < |sorted| && sorted[i] == c;
      assert fs[i] == Fragment(c, policy, storageUrl);
    }
  }

  /** `array_diff(liveIds, snapshotIds)`: the live chapter ids the snapshot
      does not have, in live order. */
  function NewChapterIds(live: seq<LiveChapter>, chs: seq<ChapterSnap>): (r: seq<Id>)
    ensures forall id :: id in r <==> id in LiveIdSet(live) && id !in IdSet(chs)
  {
    if live == [] then []
    else
      var rest := NewChapterIds(live[1..], chs);
      assert LiveIdSet(live) == {live[0].id} + LiveIdSet(live[1..]) by {
        assert forall c :: c in live <==> c == live[0] || c in live[1..];
      }
      if live[0].id in IdSet(chs) then rest else [live[0].id] + rest
  }

  /** The live chapters whose id is not in `seen`, in their order. */
  function Unseen(cs: seq<LiveChapter>, seen: set<Id>): (r: seq<LiveChapter>)
    ensures forall c :: c in r <==> c in cs && c.id !in seen
  {
    if cs == [] then []
    else if cs[0].id in seen then Unseen(cs[1..], seen)
    else [cs[0]] + Unseen(cs[1..], seen)
  }

  /** Fragments for the live chapters the snapshot lacks, in display order. */
  function NewFragments(chs: seq<ChapterSnap>, live: seq<LiveChapter>, policy: PassPolicy,
                        storageUrl: string -> string): seq<ChapterSnap>
  {
    Fragments(Unseen(SortBy(live, LiveOrder), IdSet(chs)), policy, storageUrl)
  }

  /** The merged chapter list: old chapters and new fragments together,
      re-sorted by display order. */
  function MergeChapters(chs: seq<ChapterSnap>, live: seq<LiveChapter>, policy: PassPolicy,
                         storageUrl: string -> string): (r: seq<ChapterSnap>)
    ensures SortedBy(r, ChapterOrder)
    ensures multiset(r) == multiset(chs) + multiset(NewFragments(chs, live, policy, storageUrl))
  {
    SortBy(chs + NewFragments(chs, live, policy, storageUrl), ChapterOrder)
  }

  lemma NewFragmentsIds(chs: seq<ChapterSnap>, live: seq<LiveChapter>, policy: PassPolicy,
                        storageUrl: string -> string)
    ensures IdSet(NewFragments(chs, live, policy, storageUrl)) == LiveIdSet(live) - IdSet(chs)
  {
    var sorted := SortBy(live, LiveOrder);
    var unseen := Unseen(sorted, IdSet(chs));
    FragmentsIds(unseen, policy, storageUrl);
    forall id ensures id in LiveIdSet(unseen) <==> id in LiveIdSet(live) - IdSet(chs) {
      if id in LiveIdSet(live) - IdSet(chs) {
        var c :| c in live && c.id == id;
        assert c in multiset(sorted);
        assert c in unseen;
      }
      if id in LiveIdSet(unseen) {
        var c :| c in unseen && c.id == id;
        assert c in multiset(sorted);
        assert c in live;
      }
    }
  }

  /** The merged snapshot has exactly the old ids and the live ids. */
  lemma MergeIds(chs: seq<ChapterSnap>, live: seq<LiveChapter>, policy: PassPolicy,
                 storageUrl: string -> string)
    ensures IdSet(MergeChapters(chs, live, policy, storageUrl)) == IdSet(chs) + LiveIdSet(live)
  {
    var added := NewFragments(chs, live, policy, storageUrl);
    NewFragmentsIds(chs, live, policy, storageUrl);
    IdSetOfPermutation(MergeChapters(chs, live, policy, storageUrl), chs + added);
    IdSetAppend(chs, added);
  }

  /** No old chapter is lost or changed by a merge. */
  lemma MergeKeepsOldChapters(chs: seq<ChapterSnap>, live: seq<LiveChapter>, policy: PassPolicy,
                              storageUrl: string -> string)
    ensures forall c :: c in chs ==> c in MergeChapters(chs, live, policy, storageUrl)
    ensures |MergeChapters(chs, live, policy, storageUrl)| == |chs| + |NewFragments(chs, live, policy, storageUrl)|
  {
    var r := MergeChapters(chs, live, policy, storageUrl);
    forall c | c in chs ensures c in r {
      assert c in multiset(chs);
      assert c in multiset(r);
    }
    assert |multiset(r)| == |multiset(chs)| + |multiset(NewFragments(chs, live, policy, storageUrl))|;
  }

  /** Ties in display order keep every old chapter in front of every new
      fragment, and each group in its own order. */
  lemma MergeTies(chs: seq<ChapterSnap>, live: seq<LiveChapter>, policy: PassPolicy,
                  storageUrl: string -> string, k: int)
    ensures WithKey(MergeChapters(chs, live, policy, storageUrl), ChapterOrder, k)
         == WithKey(chs, ChapterOrder, k) + WithKey(NewFragments(chs, live, policy, storageUrl), ChapterOrder, k)
  {
    var added := NewFragments(chs, live, policy, storageUrl);
    SortByStable(chs + added, ChapterOrder, k);
    WithKeyAppend(chs, added, ChapterOrder, k);
  }

  /** A snapshot gets new fragments exactly when some live id is new to it. */
  lemma NewFragmentsIffNewIds(chs: seq<ChapterSnap>, live: seq<LiveChapter>, policy: PassPolicy,
                              storageUrl: string -> string)
    ensures NewFragments(chs, live, policy, storageUrl) == [] <==> NewChapterIds(live, chs) == []
  {
    NewFragmentsIds(chs, live, policy, storageUrl);
    var added := NewFragments(chs, live, policy, storageUrl);
    var ids := NewChapterIds(live, chs);
    if added != [] {
      assert added[0].id in IdSet(added);
      assert added[0].id in ids;
    }
    if ids != [] {
      assert ids[0] in LiveIdSet(live) - IdSet(chs);
      assert ids[0] in IdSet(added);
    }
  }

  /** After a merge no live chapter is new any more, so reconciling again
      right away finds nothing. */
  lemma MergeSettles(chs: seq<ChapterSnap>, live: seq<LiveChapter>, policy: PassPolicy,
                     storageUrl: string -> string)
    ensures NewChapterIds(live, MergeChapters(chs, live, policy, storageUrl)) == []
  {
    MergeIds(chs, live, policy, storageUrl);
    NoNewIds(live, MergeChapters(chs, live, policy, storageUrl));
  }

  lemma {:induction false} NoNewIds(live: seq<LiveChapter>, chs: seq<ChapterSnap>)
    requires LiveIdSet(live) <= IdSet(chs)
    ensures NewChapterIds(live, chs) == []
  {
    if live != [] {
      assert live[0] in live;
      assert LiveIdSet(live[1..]) <= LiveIdSet(live) by {
        forall c | c in live[1..] ensures c in live { }
      }
      NoNewIds(live[1..], chs);
    }
  }
}
