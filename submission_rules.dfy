/** What the submission controller computes over a snapshot, stated as
    functions of the answers and video tables: the answer upsert, the
    "all answered" and "first unanswered chapter" scan, the list of missing
    answers, the resume point, and the enrichment of answer keys. */
module SubmissionRules {
  import opened Wrappers
  import opened Php
  import opened Course
  import opened Store

  // ---------------------------------------------------------- the upsert

  /** One element of the request's `answers` array. A missing
      `question_id` is `None`; a missing `answer_payload` reads as null. */
  datatype AnswerInput = AnswerInput(questionId: Option<Id>, payload: Value)

  predicate Keyed(batch: seq<AnswerInput>)
  {
    forall i :: 0 <= i < |batch| ==> batch[i].questionId.Some?
  }

  /** The answers table after `updateOrCreate` for each element of the
      batch in turn. */
  function UpsertAll(answers: map<AnswerKey, Value>, submissionId: Id, batch: seq<AnswerInput>): map<AnswerKey, Value>
    requires Keyed(batch)
  {
    if batch == [] then answers
    else
      var last := batch[|batch| - 1];
      UpsertAll(answers, submissionId, batch[..|batch| - 1])[AnswerKey(submissionId, last.questionId.value) := last.payload]
  }

  /** The payload of the last element of the batch for the question. */
  function LastPayload(batch: seq<AnswerInput>, questionId: Id): (r: Option<Value>)
    ensures r.Some? <==> exists i :: 0 <= i < |batch| && batch[i].questionId == Some(questionId)
    ensures r.Some? ==> exists i :: 0 <= i < |batch| && batch[i].questionId == Some(questionId)
                          && batch[i].payload == r.value
                          && (forall j :: i < j < |batch| ==> batch[j].questionId != Some(questionId))
  {
    if batch == [] then None
    else
      var init := batch[..|batch| - 1];
      var last := batch[|batch| - 1];
      if last.questionId == Some(questionId) then Some(last.payload)
      else
        var r := LastPayload(init, questionId);
        LastPayloadStep(batch, questionId, r);
        r
  }

  /** An element naming another question does not change which payload is
      the last one for `questionId`. */
  lemma LastPayloadStep(batch: seq<AnswerInput>, questionId: Id, r: Option<Value>)
    requires batch != [] && batch[|batch| - 1].questionId != Some(questionId)
    requires var init := batch[..|batch| - 1];
             && (r.Some? <==> exists i :: 0 <= i < |init| && init[i].questionId == Some(questionId))
             && (r.Some? ==> exists i :: 0 <= i < |init| && init[i].questionId == Some(questionId)
                               && init[i].payload == r.value
                               && (forall j :: i < j < |init| ==> init[j].questionId != Some(questionId)))
    ensures r.Some? <==> exists i :: 0 <= i < |batch| && batch[i].questionId == Some(questionId)
    ensures r.Some? ==> exists i :: 0 <= i < |batch| && batch[i].questionId == Some(questionId)
                          && batch[i].payload == r.value
                          && (forall j :: i < j < |batch| ==> batch[j].questionId != Some(questionId))
  {
    var init := batch[..|batch| - 1];
    assert forall i :: 0 <= i < |init| ==> init[i] == batch[i];
    if r.Some? {
      var i :| 0 <= i < |init| && init[i].questionId == Some(questionId)
               && init[i].payload == r.value
               && (forall j :: i < j < |init| ==> init[j].questionId != Some(questionId));
      assert batch[i] == init[i];
    } else {
      forall i | 0 <= i < |batch| ensures batch[i].questionId != Some(questionId) {
        if i < |init| {
          assert init[i] == batch[i];
        }
      }
    }
  }

  /** The upsert leaves one answer for each question of the batch, equal
      to the last payload sent for it, and leaves every other answer,
      including those of other submissions, as it was. */
  lemma {:induction false} UpsertAllLookup(answers: map<AnswerKey, Value>, submissionId: Id,
                                           batch: seq<AnswerInput>, k: AnswerKey)
    requires Keyed(batch)
    ensures var after := UpsertAll(answers, submissionId, batch);
            var p := LastPayload(batch, k.questionId);
            && (k.submissionId == submissionId && p.Some? ==> k in after && after[k] == p.value)
            && (!(k.submissionId == submissionId && p.Some?) ==>
                  (k in after <==> k in answers) && (k in answers ==> after[k] == answers[k]))
  {
    if batch != [] {
      var init := batch[..|batch| - 1];
      assert Keyed(init) by {
        forall i | 0 <= i < |init| ensures init[i].questionId.Some? {
          assert init[i] == batch[i];
        }
      }
      UpsertAllLookup(answers, submissionId, init, k);
    }
  }

  // -------------------------------------------------- "all answered" scan

  predicate ChapterAnswered(answers: map<AnswerKey, Value>, submissionId: Id, c: ChapterSnap)
  {
    forall q :: q in c.questions ==> HasAnswer(answers, submissionId, q.id)
  }

  /** Every question of every snapshot chapter has an answer. */
  predicate AllAnswered(answers: map<AnswerKey, Value>, submissionId: Id, chs: seq<ChapterSnap>)
  {
    forall c :: c in chs ==> ChapterAnswered(answers, submissionId, c)
  }

  /** Position of the first snapshot chapter with an unanswered question,
      or the length when there is none. */
  function FirstUnanswered(answers: map<AnswerKey, Value>, submissionId: Id, chs: seq<ChapterSnap>): (k: nat)
    ensures k <= |chs|
    ensures forall j :: 0 <= j < k ==> ChapterAnswered(answers, submissionId, chs[j])
    ensures k < |chs| ==> !ChapterAnswered(answers, submissionId, chs[k])
    ensures k == |chs| <==> AllAnswered(answers, submissionId, chs)
  {
    if chs == [] then 0
    else if !ChapterAnswered(answers, submissionId, chs[0]) then 0
    else
      var rest := FirstUnanswered(answers, submissionId, chs[1..]);
      assert forall c :: c in chs ==> c == chs[0] || c in chs[1..];
      1 + rest
  }

  /** `last_unanswered_chapter` of the `submitAnswers` response. */
  function FirstUnansweredRef(answers: map<AnswerKey, Value>, submissionId: Id, chs: seq<ChapterSnap>): (r: Option<ChapterRef>)
    ensures r.None? <==> AllAnswered(answers, submissionId, chs)
  {
    var k := FirstUnanswered(answers, submissionId, chs);
    if k < |chs| then Some(RefOf(chs[k])) else None
  }

  /** Every snapshot chapter's video is done. */
  predicate AllVideosDone(videos: map<VideoKey, VideoRecord>, userId: Id, submissionId: Id, chs: seq<ChapterSnap>)
  {
    forall c :: c in chs ==> VideoDone(videos, userId, submissionId, c.id)
  }

  // ----------------------------------------------------- missing answers

  /** The missing-answer entries of one chapter's questions, in order. */
  function MissingIn(answers: map<AnswerKey, Value>, submissionId: Id, title: string, qs: seq<Question>): seq<MissingAnswer>
  {
    if qs == [] then []
    else
      var q := qs[|qs| - 1];
      MissingIn(answers, submissionId, title, qs[..|qs| - 1])
        + (if HasAnswer(answers, submissionId, q.id) then [] else [MissingAnswer(title, q.questionText)])
  }

  /** `missing_answers` of `complete`: one entry per unanswered question,
      chapter by chapter in snapshot order. */
  function MissingAnswers(answers: map<AnswerKey, Value>, submissionId: Id, chs: seq<ChapterSnap>): seq<MissingAnswer>
  {
    if chs == [] then []
    else
      var c := chs[|chs| - 1];
      MissingAnswers(answers, submissionId, chs[..|chs| - 1]) + MissingIn(answers, submissionId, c.title, c.questions)
  }

  lemma {:induction false} MissingInEmptyIff(answers: map<AnswerKey, Value>, submissionId: Id, title: string, qs: seq<Question>)
    ensures MissingIn(answers, submissionId, title, qs) == [] <==>
            forall q :: q in qs ==> HasAnswer(answers, submissionId, q.id)
  {
    if qs != [] {
      var init := qs[..|qs| - 1];
      MissingInEmptyIff(answers, submissionId, title, init);
      assert qs == init + [qs[|qs| - 1]];
      assert forall q :: q in qs <==> q in init || q == qs[|qs| - 1];
    }
  }

  /** The list of missing answers is empty exactly when all is answered. */
  lemma {:induction false} MissingAnswersEmptyIff(answers: map<AnswerKey, Value>, submissionId: Id, chs: seq<ChapterSnap>)
    ensures MissingAnswers(answers, submissionId, chs) == [] <==> AllAnswered(answers, submissionId, chs)
  {
    if chs != [] {
      var init := chs[..|chs| - 1];
      var c := chs[|chs| - 1];
      MissingAnswersEmptyIff(answers, submissionId, init);
      MissingInEmptyIff(answers, submissionId, c.title, c.questions);
      var a := MissingAnswers(answers, submissionId, init);
      var b := MissingIn(answers, submissionId, c.title, c.questions);
      assert MissingAnswers(answers, submissionId, chs) == a + b;
      assert a + b == [] <==> a == [] && b == [] by {
        assert |a + b| == |a| + |b|;
      }
      assert chs == init + [c];
      assert forall d :: d in chs <==> d in init || d == c;
      assert AllAnswered(answers, submissionId, chs) <==>
             AllAnswered(answers, submissionId, init) && ChapterAnswered(answers, submissionId, c);
    }
  }

  /** Every unanswered question of the snapshot is reported, under its
      chapter's title. */
  lemma {:induction false} MissingAnswersComplete(answers: map<AnswerKey, Value>, submissionId: Id,
                                                  chs: seq<ChapterSnap>, c: ChapterSnap, q: Question)
    requires c in chs && q in c.questions && !HasAnswer(answers, submissionId, q.id)
    ensures MissingAnswer(c.title, q.questionText) in MissingAnswers(answers, submissionId, chs)
  {
    var init := chs[..|chs| - 1];
    var last := chs[|chs| - 1];
    assert chs == init + [last];
    if c == last {
      MissingInComplete(answers, submissionId, c.title, c.questions, q);
    } else {
      assert c in init;
      MissingAnswersComplete(answers, submissionId, init, c, q);
    }
  }

  lemma {:induction false} MissingInComplete(answers: map<AnswerKey, Value>, submissionId: Id, title: string,
                                             qs: seq<Question>, q: Question)
    requires q in qs && !HasAnswer(answers, submissionId, q.id)
    ensures MissingAnswer(title, q.questionText) in MissingIn(answers, submissionId, title, qs)
  {
    var init := qs[..|qs| - 1];
    assert qs == init + [qs[|qs| - 1]];
    if q != qs[|qs| - 1] {
      assert q in init;
      MissingInComplete(answers, submissionId, title, init, q);
    }
  }

  /** Every reported entry names a snapshot chapter and one of its
      unanswered questions. */
  lemma {:induction false} MissingAnswersSound(answers: map<AnswerKey, Value>, submissionId: Id,
                                               chs: seq<ChapterSnap>, e: MissingAnswer)
    requires e in MissingAnswers(answers, submissionId, chs)
    ensures exists c, q :: c in chs && q in c.questions && !HasAnswer(answers, submissionId, q.id)
                           && e == MissingAnswer(c.title, q.questionText)
  {
    var init := chs[..|chs| - 1];
    var last := chs[|chs| - 1];
    assert chs == init + [last];
    if e in MissingAnswers(answers, submissionId, init) {
      MissingAnswersSound(answers, submissionId, init, e);
      var c, q :| c in init && q in c.questions && !HasAnswer(answers, submissionId, q.id)
                  && e == MissingAnswer(c.title, q.questionText);
      assert c in chs;
    } else {
      MissingInSound(answers, submissionId, last.title, last.questions, e);
    }
  }

  lemma {:induction false} MissingInSound(answers: map<AnswerKey, Value>, submissionId: Id, title: string,
                                          qs: seq<Question>, e: MissingAnswer)
    requires e in MissingIn(answers, submissionId, title, qs)
    ensures exists q :: q in qs && !HasAnswer(answers, submissionId, q.id) && e == MissingAnswer(title, q.questionText)
  {
    var init := qs[..|qs| - 1];
    var last := qs[|qs| - 1];
    assert qs == init + [last];
    if e in MissingIn(answers, submissionId, title, init) {
      MissingInSound(answers, submissionId, title, init, e);
      var q :| q in init && !HasAnswer(answers, submissionId, q.id) && e == MissingAnswer(title, q.questionText);
      assert q in qs;
    } else {
      assert last in qs;
    }
  }

  // -------------------------------------------------------- resume point

  /** The response of `getLastUnanswered`. */
  datatype Resume = Resume(chapter: Option<ChapterRef>, question: Option<QuestionRef>)

  /** Position of the first unanswered question of a list, or its length. */
  function FirstUnansweredQuestion(answers: map<AnswerKey, Value>, submissionId: Id, qs: seq<Question>): (m: nat)
    ensures m <= |qs|
    ensures forall j :: 0 <= j < m ==> HasAnswer(answers, submissionId, qs[j].id)
    ensures m < |qs| ==> !HasAnswer(answers, submissionId, qs[m].id)
  {
    if qs == [] || !HasAnswer(answers, submissionId, qs[0].id) then 0
    else 1 + FirstUnansweredQuestion(answers, submissionId, qs[1..])
  }

  /** A chapter the learner is done with: its video is watched and each of
      its questions answered. */
  predicate ChapterDone(answers: map<AnswerKey, Value>, videos: map<VideoKey, VideoRecord>, userId: Id,
                        submissionId: Id, c: ChapterSnap)
  {
    VideoDone(videos, userId, submissionId, c.id) && ChapterAnswered(answers, submissionId, c)
  }

  /** Position of the first snapshot chapter the learner is not done with,
      or the length when there is none. */
  function FirstNotDone(answers: map<AnswerKey, Value>, videos: map<VideoKey, VideoRecord>, userId: Id,
                        submissionId: Id, chs: seq<ChapterSnap>): (k: nat)
    ensures k <= |chs|
    ensures forall j :: 0 <= j < k ==> ChapterDone(answers, videos, userId, submissionId, chs[j])
    ensures k < |chs| ==> !ChapterDone(answers, videos, userId, submissionId, chs[k])
  {
    if chs == [] || !ChapterDone(answers, videos, userId, submissionId, chs[0]) then 0
    else 1 + FirstNotDone(answers, videos, userId, submissionId, chs[1..])
  }

  /** Where a learner resumes: walking the snapshot in order, the first
      chapter whose video is not done (with no question), or else the first
      chapter with an unanswered question together with that question. */
  function ResumeAt(answers: map<AnswerKey, Value>, videos: map<VideoKey, VideoRecord>, userId: Id,
                    submissionId: Id, chs: seq<ChapterSnap>): (r: Resume)
    ensures r.question.Some? ==> r.chapter.Some?
    ensures r.chapter.None? <==> AllVideosDone(videos, userId, submissionId, chs) && AllAnswered(answers, submissionId, chs)
    ensures r.chapter.Some? ==> exists c :: c in chs && r.chapter == Some(RefOf(c))
  {
    if chs == [] then Resume(None, None)
    else
      var c := chs[0];
      assert forall d :: d in chs ==> d == c || d in chs[1..];
      if !VideoDone(videos, userId, submissionId, c.id) then Resume(Some(RefOf(c)), None)
      else
        var m := FirstUnansweredQuestion(answers, submissionId, c.questions);
        if m < |c.questions| then
          assert c.questions[m] in c.questions && c in chs;
          Resume(Some(RefOf(c)), Some(QuestionRef(c.questions[m].id, c.questions[m].questionText)))
        else
          assert ChapterAnswered(answers, submissionId, c) by {
            forall q | q in c.questions ensures HasAnswer(answers, submissionId, q.id) {
              var j :| 0 <= j < |c.questions| && c.questions[j] == q;
            }
          }
          assert forall d :: d in chs[1..] ==> d in chs;
          ResumeAt(answers, videos, userId, submissionId, chs[1..])
  }

  /** The resume point is the first chapter the learner is not done with:
      without a question when its video is not watched, and otherwise with
      its first unanswered question. With every chapter done there is none. */
  lemma {:induction false} ResumeAtFirstNotDone(answers: map<AnswerKey, Value>, videos: map<VideoKey, VideoRecord>,
                                                userId: Id, submissionId: Id, chs: seq<ChapterSnap>)
    ensures var r := ResumeAt(answers, videos, userId, submissionId, chs);
            var k := FirstNotDone(answers, videos, userId, submissionId, chs);
            && (k == |chs| ==> r == Resume(None, None))
            && (k < |chs| ==>
                  && r.chapter == Some(RefOf(chs[k]))
                  && (r.question.None? <==> !VideoDone(videos, userId, submissionId, chs[k].id))
                  && (VideoDone(videos, userId, submissionId, chs[k].id) ==>
                        var m := FirstUnansweredQuestion(answers, submissionId, chs[k].questions);
                        && m < |chs[k].questions|
                        && r.question == Some(QuestionRef(chs[k].questions[m].id, chs[k].questions[m].questionText))))
  {
    if chs != [] {
      var c := chs[0];
      var m := FirstUnansweredQuestion(answers, submissionId, c.questions);
      if !VideoDone(videos, userId, submissionId, c.id) {
        assert FirstNotDone(answers, videos, userId, submissionId, chs) == 0;
      } else if m < |c.questions| {
        assert c.questions[m] in c.questions;
        assert FirstNotDone(answers, videos, userId, submissionId, chs) == 0;
      } else {
        assert ChapterAnswered(answers, submissionId, c) by {
          forall q | q in c.questions ensures HasAnswer(answers, submissionId, q.id) {
            var j :| 0 <= j < |c.questions| && c.questions[j] == q;
          }
        }
        ResumeAtFirstNotDone(answers, videos, userId, submissionId, chs[1..]);
        var k := FirstNotDone(answers, videos, userId, submissionId, chs[1..]);
        assert FirstNotDone(answers, videos, userId, submissionId, chs) == 1 + k;
        assert ResumeAt(answers, videos, userId, submissionId, chs) == ResumeAt(answers, videos, userId, submissionId, chs[1..]);
        if k < |chs[1..]| {
          assert chs[1..][k] == chs[1 + k];
        }
      }
    }
  }

  /** The asymmetry between the two scans: with chapter 1's video not yet
      watched but its question answered, and chapter 2's question open,
      `submitAnswers` reports chapter 2 as the first unanswered one, while
      `getLastUnanswered` sends the learner back to chapter 1. */
  lemma ScansDisagree()
    ensures var q1 := Question(10, "Q1", "text", [], VNull, 0);
            var q2 := Question(20, "Q2", "text", [], VNull, 0);
            var c1 := ChapterSnap(1, "One", None, None, None, None, None, 1, Some(70), [q1]);
            var c2 := ChapterSnap(2, "Two", None, None, None, None, None, 2, Some(70), [q2]);
            var answers := map[AnswerKey(5, 10) := VStr("a")];
            var videos: map<VideoKey, VideoRecord> := map[];
            && FirstUnansweredRef(answers, 5, [c1, c2]) == Some(RefOf(c2))
            && ResumeAt(answers, videos, 7, 5, [c1, c2]) == Resume(Some(RefOf(c1)), None)
  {
    var q1 := Question(10, "Q1", "text", [], VNull, 0);
    var q2 := Question(20, "Q2", "text", [], VNull, 0);
    var c1 := ChapterSnap(1, "One", None, None, None, None, None, 1, Some(70), [q1]);
    var c2 := ChapterSnap(2, "Two", None, None, None, None, None, 2, Some(70), [q2]);
    var answers := map[AnswerKey(5, 10) := VStr("a")];
    assert ChapterAnswered(answers, 5, c1) by {
      forall q | q in c1.questions ensures HasAnswer(answers, 5, q.id) {
        assert q == q1;
      }
    }
    assert !ChapterAnswered(answers, 5, c2) by {
      assert q2 in c2.questions;
    }
    assert [c1, c2][1..] == [c2];
  }

  // ------------------------------------------- answer keys for `show`

  function EnrichQuestion(q: Question, catalog: Catalog): Question
  {
    q.(correctAnswer := WithFallback(q.correctAnswer, catalog, q.id))
  }

  function EnrichQuestions(qs: seq<Question>, catalog: Catalog): (r: seq<Question>)
    ensures |r| == |qs|
    ensures forall i :: 0 <= i < |qs| ==> r[i] == EnrichQuestion(qs[i], catalog)
  {
    if qs == [] then [] else [EnrichQuestion(qs[0], catalog)] + EnrichQuestions(qs[1..], catalog)
  }

  function EnrichChapter(c: ChapterSnap, catalog: Catalog): ChapterSnap
  {
    c.(questions := EnrichQuestions(c.questions, catalog))
  }

  /** The snapshot `show` returns: every question whose answer key is
      missing gets the live one when that is truthy. */
  function EnrichChapters(chs: seq<ChapterSnap>, catalog: Catalog): (r: seq<ChapterSnap>)
    ensures |r| == |chs|
    ensures forall i :: 0 <= i < |chs| ==> r[i] == EnrichChapter(chs[i], catalog)
  {
    if chs == [] then [] else [EnrichChapter(chs[0], catalog)] + EnrichChapters(chs[1..], catalog)
  }

  /** Enrichment only ever replaces a missing answer key: chapters keep
      every other field, questions keep every field but the key, and a key
      that was present stays as it was. */
  lemma EnrichOnlyFillsMissing(chs: seq<ChapterSnap>, catalog: Catalog, i: nat, j: nat)
    requires i < |chs| && j < |chs[i].questions|
    ensures var e := EnrichChapters(chs, catalog);
            var q := chs[i].questions[j];
            && e[i].(questions := chs[i].questions) == chs[i]
            && |e[i].questions| == |chs[i].questions|
            && e[i].questions[j].(correctAnswer := q.correctAnswer) == q
            && (!MissingCorrect(q.correctAnswer) ==> e[i].questions[j] == q)
  {
  }

  /** Enriching twice gives what enriching once gives. */
  lemma EnrichIdempotent(chs: seq<ChapterSnap>, catalog: Catalog)
    ensures EnrichChapters(EnrichChapters(chs, catalog), catalog) == EnrichChapters(chs, catalog)
  {
    var e := EnrichChapters(chs, catalog);
    var ee := EnrichChapters(e, catalog);
    forall i | 0 <= i < |chs| ensures ee[i] == e[i] {
      var qs := e[i].questions;
      forall j | 0 <= j < |qs| ensures EnrichQuestion(qs[j], catalog) == qs[j] {
        var q := chs[i].questions[j];
        assert qs[j] == EnrichQuestion(q, catalog);
      }
      assert EnrichQuestions(qs, catalog) == qs;
    }
  }
}
