/** The admin view of a submission: each snapshot question graded against
    its answer key, and the correct / wrong / unanswered counters. */
module Grading {
  import opened Wrappers
  import opened Php
  import opened Sorting
  import opened Course
  import opened Store

  // ------------------------------------------------- the answer key

  /** A key that is neither null nor a list becomes a one-element list. */
  function Wrap(v: Value): (r: Value)
    ensures r == VNull || r.VList?
    ensures v.VList? || v == VNull ==> r == v
    ensures !v.VList? && v != VNull ==> r == VList([v])
  {
    if v != VNull && !v.VList? then VList([v]) else v
  }

  /** `$correctAnswerArray`: the wrapped key as a list, empty for null. */
  function KeyList(v: Value): (r: seq<Value>)
    ensures v.VList? ==> r == v.items
    ensures !v.VList? && Truthy(v) ==> r == [v]
    ensures !v.VList? && !Truthy(v) ==> r == []
  {
    if v.VList? then v.items else if Truthy(v) then [v] else []
  }

  /** The key a question is graded against, and the list form used. */
  function KeyOf(q: Question, catalog: Catalog): Value
  {
    Wrap(WithFallback(q.correctAnswer, catalog, q.id))
  }

  // ------------------------------------------------ per-type comparison

  /** The values `array_filter` drops here: null and the empty string. */
  predicate Blank(v: Value)
  {
    v == VNull || v == VStr("")
  }

  /** `array_filter` keeping the values that are neither null nor "". */
  function NonBlank(vs: seq<Value>): seq<Value>
  {
    if vs == [] then []
    else (if Blank(vs[0]) then [] else [vs[0]]) + NonBlank(vs[1..])
  }

  /** `array_map('strval', ...)`. */
  function StrVals(vs: seq<Value>): seq<string>
  {
    if vs == [] then [] else [StrVal(vs[0])] + StrVals(vs[1..])
  }

  /** The single-choice reading of a payload: the first element of a
      non-empty list, else the payload itself. */
  function Chosen(payload: Value): Value
  {
    if payload.VList? && payload.items != [] then payload.items[0] else payload
  }

  /** The multi-choice reading of a payload: a list as it is, anything else
      as a one-element list. */
  function Picked(payload: Value): seq<Value>
  {
    if payload.VList? then payload.items else [payload]
  }

  /** The text reading of a value: trimmed and lower-cased when it is a
      string, else the empty string. */
  function Normalized(v: Value): string
  {
    if v.VStr? then ToLower(Trim(v.s)) else ""
  }

  /** Whether a payload answers a question of type `qtype` whose key list
      is `key`. An empty key is never matched. Single choice compares
      string forms; multi choice compares, in any order, the string forms of
      the non-blank entries; every other type compares trimmed lower-cased
      strings, which must be non-empty. */
  function IsCorrect(qtype: string, key: seq<Value>, payload: Value): (r: bool)
    ensures key == [] ==> !r
    ensures key != [] && qtype == "single_choice" ==> (r <==> StrVal(Chosen(payload)) == StrVal(key[0]))
    ensures key != [] && qtype == "multi_choice" ==>
              (r <==> multiset(StrVals(NonBlank(Picked(payload)))) == multiset(StrVals(NonBlank(key))))
    ensures key != [] && qtype != "single_choice" && qtype != "multi_choice" ==>
              (r <==> payload.VStr? && key[0].VStr? && Normalized(payload) == Normalized(key[0])
                      && Normalized(payload) != "")
  {
    if key == [] then false
    else if qtype == "single_choice" then StrVal(Chosen(payload)) == StrVal(key[0])
    else if qtype == "multi_choice" then
      var mine := SortStrings(StrVals(NonBlank(Picked(payload))));
      var theirs := SortStrings(StrVals(NonBlank(key)));
      SortStringsEqualIff(StrVals(NonBlank(Picked(payload))), StrVals(NonBlank(key)));
      |mine| == |theirs| && mine == theirs
    else
      var correctText := Normalized(key[0]);
      var userText := Normalized(payload);
      userText == correctText && userText != "" && correctText != ""
  }

  /** Reordering a multi-choice answer does not change its grade. */
  lemma MultiChoiceIgnoresOrder(key: seq<Value>, a: seq<Value>, b: seq<Value>)
    requires multiset(a) == multiset(b)
    ensures IsCorrect("multi_choice", key, VList(a)) == IsCorrect("multi_choice", key, VList(b))
  {
    NonBlankPermutation(a, b);
    StrValsPermutation(NonBlank(a), NonBlank(b));
  }

  /** Filtering keeps each non-blank value as often as it occurs and
      drops every blank one. */
  lemma {:induction false} NonBlankCount(a: seq<Value>, v: Value)
    ensures multiset(NonBlank(a))[v] == if Blank(v) then 0 else multiset(a)[v]
  {
    if a != [] {
      NonBlankCount(a[1..], v);
      assert a == [a[0]] + a[1..];
      assert multiset(a) == multiset([a[0]]) + multiset(a[1..]);
    }
  }

  lemma NonBlankPermutation(a: seq<Value>, b: seq<Value>)
    requires multiset(a) == multiset(b)
    ensures multiset(NonBlank(a)) == multiset(NonBlank(b))
  {
    forall v ensures multiset(NonBlank(a))[v] == multiset(NonBlank(b))[v] {
      NonBlankCount(a, v);
      NonBlankCount(b, v);
    }
  }

  lemma {:induction false} StrValsPermutation(a: seq<Value>, b: seq<Value>)
    requires multiset(a) == multiset(b)
    ensures multiset(StrVals(a)) == multiset(StrVals(b))
    decreases |a|
  {
    if a != [] {
      var x := a[0];
      assert x in multiset(b);
      var j :| 0 <= j < |b| && b[j] == x;
      var left, right := b[..j], b[j + 1..];
      assert b == left + ([x] + right);
      assert a == [x] + a[1..];
      RemoveOne(a[1..], left, x, right);
      StrValsPermutation(a[1..], left + right);
      StrValsSplit(left, x, right);
      assert StrVals(a) == [StrVal(x)] + StrVals(a[1..]);
    } else {
      assert |multiset(b)| == |b|;
    }
  }

  lemma RemoveOne(rest: seq<Value>, left: seq<Value>, x: Value, right: seq<Value>)
    requires multiset([x] + rest) == multiset(left + ([x] + right))
    ensures multiset(rest) == multiset(left + right)
  {
    forall v ensures multiset(rest)[v] == multiset(left + right)[v] {
      assert multiset([x] + rest)[v] == multiset{x}[v] + multiset(rest)[v];
      assert multiset(left + ([x] + right))[v] == multiset(left)[v] + multiset{x}[v] + multiset(right)[v];
    }
  }

  lemma StrValsSplit(left: seq<Value>, x: Value, right: seq<Value>)
    ensures multiset(StrVals(left + ([x] + right))) == multiset{StrVal(x)} + multiset(StrVals(left + right))
  {
    StrValsAppend(left, [x] + right);
    StrValsAppend([x], right);
    StrValsAppend(left, right);
    assert StrVals([x]) == [StrVal(x)];
  }

  lemma {:induction false} StrValsAppend(a: seq<Value>, b: seq<Value>)
    ensures StrVals(a + b) == StrVals(a) + StrVals(b)
  {
    if a != [] {
      assert (a + b)[1..] == a[1..] + b;
      StrValsAppend(a[1..], b);
    } else {
      assert a + b == b;
    }
  }

  // --------------------------------------------------- grading a snapshot

  /** One element of the `questions` array of the response. */
  datatype Graded = Graded(
    questionId: Id,
    chapterId: Id,
    chapterTitle: string,
    questionText: string,
    qtype: string,
    options: seq<Choice>,
    correctAnswer: Value,
    userAnswer: Option<Value>,
    isCorrect: bool,
    isAnswered: bool)

  function GradeQuestion(answers: map<AnswerKey, Value>, submissionId: Id, c: ChapterSnap, q: Question,
                         catalog: Catalog): (g: Graded)
    ensures g.isAnswered <==> HasAnswer(answers, submissionId, q.id)
    ensures g.isCorrect ==> g.isAnswered
    ensures g.userAnswer.Some? <==> g.isAnswered
    ensures g.isAnswered ==> g.isCorrect == IsCorrect(q.qtype, KeyList(KeyOf(q, catalog)), answers[AnswerKey(submissionId, q.id)])
    ensures g.questionId == q.id && g.chapterId == c.id
    ensures g.chapterTitle == c.title && g.questionText == q.questionText && g.qtype == q.qtype && g.options == q.options
    ensures g.correctAnswer == KeyOf(q, catalog)
    ensures g.isAnswered ==> g.userAnswer == Some(answers[AnswerKey(submissionId, q.id)])
  {
    var key := KeyOf(q, catalog);
    var k := AnswerKey(submissionId, q.id);
    var answer := if k in answers then Some(answers[k]) else None;
    var correct := answer.Some? && IsCorrect(q.qtype, KeyList(key), answer.value);
    Graded(q.id, c.id, c.title, q.questionText, q.qtype, q.options, key, answer, correct, answer.Some?)
  }

  /** The entries for the first questions `qs` of chapter `c`. */
  function GradeQuestions(answers: map<AnswerKey, Value>, submissionId: Id, c: ChapterSnap, qs: seq<Question>,
                          catalog: Catalog): (gs: seq<Graded>)
    ensures |gs| == |qs|
  {
    if qs == [] then []
    else GradeQuestions(answers, submissionId, c, qs[..|qs| - 1], catalog)
           + [GradeQuestion(answers, submissionId, c, qs[|qs| - 1], catalog)]
  }

  /** The entries of a whole snapshot, chapter by chapter. */
  function GradeAll(answers: map<AnswerKey, Value>, submissionId: Id, chs: seq<ChapterSnap>, catalog: Catalog): (gs: seq<Graded>)
    ensures |gs| == TotalQuestions(chs)
  {
    if chs == [] then []
    else
      var c := chs[|chs| - 1];
      GradeAll(answers, submissionId, chs[..|chs| - 1], catalog) + GradeQuestions(answers, submissionId, c, c.questions, catalog)
  }

  /** The question ids of a snapshot, chapter by chapter, in order. */
  function SnapQuestionIds(chs: seq<ChapterSnap>): seq<Id>
  {
    if chs == [] then []
    else SnapQuestionIds(chs[..|chs| - 1]) + QuestionIds(chs[|chs| - 1].questions)
  }

  function QuestionIds(qs: seq<Question>): seq<Id>
  {
    if qs == [] then [] else QuestionIds(qs[..|qs| - 1]) + [qs[|qs| - 1].id]
  }

  function GradedIds(gs: seq<Graded>): seq<Id>
  {
    if gs == [] then [] else GradedIds(gs[..|gs| - 1]) + [gs[|gs| - 1].questionId]
  }

  lemma {:induction false} GradedIdsAppend(a: seq<Graded>, b: seq<Graded>)
    ensures GradedIds(a + b) == GradedIds(a) + GradedIds(b)
    decreases |b|
  {
    if b != [] {
      assert (a + b)[..|a + b| - 1] == a + b[..|b| - 1];
      GradedIdsAppend(a, b[..|b| - 1]);
    } else {
      assert a + b == a;
    }
  }

  lemma {:induction false} GradeQuestionsIds(answers: map<AnswerKey, Value>, submissionId: Id, c: ChapterSnap,
                                             qs: seq<Question>, catalog: Catalog)
    ensures GradedIds(GradeQuestions(answers, submissionId, c, qs, catalog)) == QuestionIds(qs)
  {
    if qs != [] {
      var init := GradeQuestions(answers, submissionId, c, qs[..|qs| - 1], catalog);
      var last := GradeQuestion(answers, submissionId, c, qs[|qs| - 1], catalog);
      GradeQuestionsIds(answers, submissionId, c, qs[..|qs| - 1], catalog);
      GradedIdsAppend(init, [last]);
    }
  }

  /** The response lists one entry per snapshot question, in snapshot
      order. */
  lemma {:induction false} GradeAllInOrder(answers: map<AnswerKey, Value>, submissionId: Id,
                                           chs: seq<ChapterSnap>, catalog: Catalog)
    ensures GradedIds(GradeAll(answers, submissionId, chs, catalog)) == SnapQuestionIds(chs)
  {
    if chs != [] {
      var c := chs[|chs| - 1];
      GradeAllInOrder(answers, submissionId, chs[..|chs| - 1], catalog);
      GradeQuestionsIds(answers, submissionId, c, c.questions, catalog);
      GradedIdsAppend(GradeAll(answers, submissionId, chs[..|chs| - 1], catalog),
                      GradeQuestions(answers, submissionId, c, c.questions, catalog));
    }
  }

  // ----------------------------------------------------------- counters

  function CountCorrect(gs: seq<Graded>): nat
  {
    if gs == [] then 0 else CountCorrect(gs[..|gs| - 1]) + (if gs[|gs| - 1].isCorrect then 1 else 0)
  }

  function CountWrong(gs: seq<Graded>): nat
  {
    if gs == [] then 0
    else CountWrong(gs[..|gs| - 1]) + (if gs[|gs| - 1].isAnswered && !gs[|gs| - 1].isCorrect then 1 else 0)
  }

  function CountUnanswered(gs: seq<Graded>): nat
  {
    if gs == [] then 0 else CountUnanswered(gs[..|gs| - 1]) + (if gs[|gs| - 1].isAnswered then 0 else 1)
  }

  /** Entries in which a correct answer is always an answered one. */
  ghost predicate Coherent(gs: seq<Graded>)
  {
    forall i :: 0 <= i < |gs| ==> gs[i].isCorrect ==> gs[i].isAnswered
  }

  /** Every entry is exactly one of correct, wrong and unanswered. */
  lemma {:induction false} CountsPartition(gs: seq<Graded>)
    requires Coherent(gs)
    ensures CountCorrect(gs) + CountWrong(gs) + CountUnanswered(gs) == |gs|
  {
    if gs != [] {
      var init := gs[..|gs| - 1];
      assert Coherent(init) by {
        forall i | 0 <= i < |init| ensures init[i].isCorrect ==> init[i].isAnswered {
          assert init[i] == gs[i];
        }
      }
      CountsPartition(init);
    }
  }

  lemma {:induction false} GradeQuestionsCoherent(answers: map<AnswerKey, Value>, submissionId: Id, c: ChapterSnap,
                                                  qs: seq<Question>, catalog: Catalog)
    ensures Coherent(GradeQuestions(answers, submissionId, c, qs, catalog))
  {
    if qs != [] {
      GradeQuestionsCoherent(answers, submissionId, c, qs[..|qs| - 1], catalog);
    }
  }

  lemma {:induction false} GradeAllCoherent(answers: map<AnswerKey, Value>, submissionId: Id,
                                            chs: seq<ChapterSnap>, catalog: Catalog)
    ensures Coherent(GradeAll(answers, submissionId, chs, catalog))
  {
    if chs != [] {
      var c := chs[|chs| - 1];
      GradeAllCoherent(answers, submissionId, chs[..|chs| - 1], catalog);
      GradeQuestionsCoherent(answers, submissionId, c, c.questions, catalog);
    }
  }

  lemma CountsSnoc(gs: seq<Graded>, g: Graded)
    ensures CountCorrect(gs + [g]) == CountCorrect(gs) + (if g.isCorrect then 1 else 0)
    ensures CountWrong(gs + [g]) == CountWrong(gs) + (if g.isAnswered && !g.isCorrect then 1 else 0)
    ensures CountUnanswered(gs + [g]) == CountUnanswered(gs) + (if g.isAnswered then 0 else 1)
  {
    assert (gs + [g])[..|gs|] == gs;
  }

  lemma {:induction false} CountsAppend(a: seq<Graded>, b: seq<Graded>)
    ensures CountCorrect(a + b) == CountCorrect(a) + CountCorrect(b)
    ensures CountWrong(a + b) == CountWrong(a) + CountWrong(b)
    ensures CountUnanswered(a + b) == CountUnanswered(a) + CountUnanswered(b)
    decreases |b|
  {
    if b == [] {
      assert a + b == a;
    } else {
      var init, g := b[..|b| - 1], b[|b| - 1];
      assert a + b == (a + init) + [g];
      assert b == init + [g];
      CountsAppend(a, init);
      CountsSnoc(a + init, g);
      CountsSnoc(init, g);
    }
  }

  lemma GradeQuestionsSnoc(answers: map<AnswerKey, Value>, submissionId: Id, c: ChapterSnap,
                           qs: seq<Question>, n: nat, catalog: Catalog)
    requires n < |qs|
    ensures GradeQuestions(answers, submissionId, c, qs[..n + 1], catalog)
            == GradeQuestions(answers, submissionId, c, qs[..n], catalog) + [GradeQuestion(answers, submissionId, c, qs[n], catalog)]
  {
    assert qs[..n + 1][..n] == qs[..n];
  }

  lemma GradeAllSnoc(answers: map<AnswerKey, Value>, submissionId: Id, chs: seq<ChapterSnap>, i: nat, catalog: Catalog)
    requires i < |chs|
    ensures GradeAll(answers, submissionId, chs[..i + 1], catalog)
            == GradeAll(answers, submissionId, chs[..i], catalog) + GradeQuestions(answers, submissionId, chs[i], chs[i].questions, catalog)
    ensures TotalQuestions(chs[..i + 1]) == TotalQuestions(chs[..i]) + |chs[i].questions|
  {
    assert chs[..i + 1][..i] == chs[..i];
  }

  /** `score_percentage` in hundredths of a percent, 0 without questions;
      never above 100%. */
  function ScoreHundredths(correct: nat, total: nat): (r: nat)
    ensures total == 0 ==> r == 0
    ensures correct <= total ==> r <= 10000
  {
    if total == 0 then 0
    else
      var r := (20000 * correct + total) / (2 * total);
      if correct <= total then
        assert 20000 * correct + total < 2 * total * 10001;
        DivBelow(20000 * correct + total, 2 * total, 10001);
        r
      else r
  }

  lemma DivBelow(n: nat, d: nat, k: nat)
    requires d > 0 && n < d * k
    ensures n / d < k
  {
    var q := n / d;
    assert d * q <= n;
    MulStrict(d, q, k);
  }

  /** The score is the share of correct answers rounded half up to
      hundredths of a percent. */
  lemma ScoreRounding(correct: nat, total: nat)
    requires total > 0
    ensures var r := ScoreHundredths(correct, total);
            2 * total * r <= 20000 * correct + total < 2 * total * (r + 1)
  {
  }

  lemma MulStrict(t: int, x: int, y: int)
    requires t > 0 && t * x < t * y
    ensures x < y
  {
  }

  /** Every answer correct scores exactly 100%, and below 20000 questions
      only that scores 100% (from there on, one wrong answer rounds up to
      100.00). */
  lemma ScoreFull(correct: nat, total: nat)
    requires correct <= total
    ensures 0 < total && correct == total ==> ScoreHundredths(correct, total) == 10000
    ensures ScoreHundredths(correct, total) == 10000 && total < 20000 ==> correct == total
  {
    var r := ScoreHundredths(correct, total);
    var t2 := 2 * total;
    if total > 0 {
      ScoreRounding(correct, total);
    }
    if 0 < total && correct == total {
      assert t2 * r <= 20001 * total;
      assert t2 * 10001 == 20002 * total;
      MulStrict(t2, r, 10001);
      assert 20001 * total < t2 * (r + 1);
      assert t2 * 10000 == 20000 * total;
      MulStrict(t2, 10000, r + 1);
    }
  }

  /** The response's `statistics` and `questions`. */
  datatype GradeReport = GradeReport(totalQuestions: nat, correctAnswers: nat, wrongAnswers: nat,
                                     unanswered: nat, scoreHundredths: nat, questions: seq<Graded>)

  /** The counters agree with the entries graded so far. */
  ghost predicate Tally(entries: seq<Graded>, correct: nat, wrong: nat, unanswered: nat)
  {
    correct == CountCorrect(entries) && wrong == CountWrong(entries) && unanswered == CountUnanswered(entries)
  }

  /** Grading one more question bumps exactly the counter its entry
      falls under. */
  lemma TallyStep(entries: seq<Graded>, g: Graded, correct: nat, wrong: nat, unanswered: nat)
    requires Tally(entries, correct, wrong, unanswered)
    ensures g.isAnswered && g.isCorrect ==> Tally(entries + [g], correct + 1, wrong, unanswered)
    ensures g.isAnswered && !g.isCorrect ==> Tally(entries + [g], correct, wrong + 1, unanswered)
    ensures !g.isAnswered && !g.isCorrect ==> Tally(entries + [g], correct, wrong, unanswered + 1)
  {
    CountsSnoc(entries, g);
  }

  /** Counters of two runs of entries add up. */
  lemma TallyAppend(a: seq<Graded>, b: seq<Graded>, ca: nat, wa: nat, ua: nat, cb: nat, wb: nat, ub: nat)
    requires Tally(a, ca, wa, ua) && Tally(b, cb, wb, ub)
    ensures Tally(a + b, ca + cb, wa + wb, ua + ub)
  {
    CountsAppend(a, b);
  }

  /** The state of `show`'s outer loop after the first `i` chapters. */
  ghost predicate GradedUpTo(answers: map<AnswerKey, Value>, submissionId: Id, chs: seq<ChapterSnap>,
                             catalog: Catalog, i: nat, entries: seq<Graded>,
                             total: nat, correct: nat, wrong: nat, unanswered: nat)
    requires i <= |chs|
  {
    && entries == GradeAll(answers, submissionId, chs[..i], catalog)
    && total == TotalQuestions(chs[..i])
    && Tally(entries, correct, wrong, unanswered)
  }

  /** Grading chapter `i` moves the outer loop's state one chapter on. */
  lemma GradedStep(answers: map<AnswerKey, Value>, submissionId: Id, chs: seq<ChapterSnap>,
                   catalog: Catalog, i: nat, entries: seq<Graded>,
                   total: nat, correct: nat, wrong: nat, unanswered: nat,
                   more: seq<Graded>, c1: nat, w1: nat, u1: nat)
    requires i < |chs| && GradedUpTo(answers, submissionId, chs, catalog, i, entries, total, correct, wrong, unanswered)
    requires more == GradeQuestions(answers, submissionId, chs[i], chs[i].questions, catalog)
    requires Tally(more, c1, w1, u1)
    ensures GradedUpTo(answers, submissionId, chs, catalog, i + 1, entries + more, total + |chs[i].questions|,
                       correct + c1, wrong + w1, unanswered + u1)
  {
    TallyAppend(entries, more, correct, wrong, unanswered, c1, w1, u1);
    GradeAllSnoc(answers, submissionId, chs, i, catalog);
  }

  /** The state of `show`'s inner loop after the first `n` questions. */
  ghost predicate ChapterUpTo(answers: map<AnswerKey, Value>, submissionId: Id, c: ChapterSnap, catalog: Catalog,
                              n: nat, entries: seq<Graded>, correct: nat, wrong: nat, unanswered: nat)
    requires n <= |c.questions|
  {
    entries == GradeQuestions(answers, submissionId, c, c.questions[..n], catalog)
    && Tally(entries, correct, wrong, unanswered)
  }

  /** Grading question `n` moves the inner loop's state one question on. */
  lemma ChapterStep(answers: map<AnswerKey, Value>, submissionId: Id, c: ChapterSnap, catalog: Catalog,
                    n: nat, entries: seq<Graded>, g: Graded, correct: nat, wrong: nat, unanswered: nat)
    requires n < |c.questions| && entries == GradeQuestions(answers, submissionId, c, c.questions[..n], catalog)
    requires g == GradeQuestion(answers, submissionId, c, c.questions[n], catalog)
    requires Tally(entries + [g], correct, wrong, unanswered)
    ensures ChapterUpTo(answers, submissionId, c, catalog, n + 1, entries + [g], correct, wrong, unanswered)
  {
    GradeQuestionsSnoc(answers, submissionId, c, c.questions, n, catalog);
  }

  /** One question's share of the counters: a correct answer, a wrong one,
      or no answer at all. */
  method Tick(ghost entries: seq<Graded>, g: Graded, correct: nat, wrong: nat, unanswered: nat)
    returns (correct': nat, wrong': nat, unanswered': nat)
    requires Tally(entries, correct, wrong, unanswered)
    requires g.isCorrect ==> g.isAnswered
    ensures Tally(entries + [g], correct', wrong', unanswered')
  {
    TallyStep(entries, g, correct, wrong, unanswered);
    correct', wrong', unanswered' := correct, wrong, unanswered;
    if g.isAnswered {
      if g.isCorrect {
        correct' := correct + 1;
      } else {
        wrong' := wrong + 1;
      }
    } else {
      unanswered' := unanswered + 1;
    }
  }

  /** The inner loop of `show`: one chapter's questions graded in order,
      with the counters for that chapter. */
  method GradeChapter(answers: map<AnswerKey, Value>, submissionId: Id, c: ChapterSnap, catalog: Catalog)
    returns (entries: seq<Graded>, correct: nat, wrong: nat, unanswered: nat)
    ensures entries == GradeQuestions(answers, submissionId, c, c.questions, catalog)
    ensures correct == CountCorrect(entries) && wrong == CountWrong(entries) && unanswered == CountUnanswered(entries)
  {
    correct, wrong, unanswered := 0, 0, 0;
    entries := [];
    var n := 0;
    while n < |c.questions|
      invariant n <= |c.questions| && ChapterUpTo(answers, submissionId, c, catalog, n, entries, correct, wrong, unanswered)
    {
      var g := GradeQuestion(answers, submissionId, c, c.questions[n], catalog);
      correct, wrong, unanswered := Tick(entries, g, correct, wrong, unanswered);
      ChapterStep(answers, submissionId, c, catalog, n, entries, g, correct, wrong, unanswered);
      entries := entries + [g];
      n := n + 1;
    }
    assert c.questions[..n] == c.questions;
  }

  /** `show`'s loop over the snapshot's chapters and questions, and the
      statistics computed from its counters. */
  method GradeSubmission(answers: map<AnswerKey, Value>, submissionId: Id, snapshot: Option<Snapshot>,
                         catalog: Catalog) returns (report: GradeReport)
    ensures var chs := SnapChapters(snapshot);
            && report.questions == GradeAll(answers, submissionId, chs, catalog)
            && report.totalQuestions == TotalQuestions(chs)
            && report.correctAnswers == CountCorrect(report.questions)
            && report.wrongAnswers == CountWrong(report.questions)
            && report.unanswered == CountUnanswered(report.questions)
            && report.correctAnswers + report.wrongAnswers + report.unanswered == report.totalQuestions
            && report.scoreHundredths == ScoreHundredths(report.correctAnswers, report.totalQuestions)
  {
    var chs := SnapChapters(snapshot);
    var total: nat, correct: nat, wrong: nat, unanswered: nat := 0, 0, 0, 0;
    var entries: seq<Graded> := [];
    var i := 0;
    while i < |chs|
      invariant i <= |chs| && GradedUpTo(answers, submissionId, chs, catalog, i, entries, total, correct, wrong, unanswered)
    {
      var more, c1, w1, u1 := GradeChapter(answers, submissionId, chs[i], catalog);
      GradedStep(answers, submissionId, chs, catalog, i, entries, total, correct, wrong, unanswered, more, c1, w1, u1);
      total := total + |chs[i].questions|;
      correct, wrong, unanswered := correct + c1, wrong + w1, unanswered + u1;
      entries := entries + more;
      i := i + 1;
    }
    assert chs[..i] == chs;
    GradeAllCoherent(answers, submissionId, chs, catalog);
    CountsPartition(entries);
    report := GradeReport(total, correct, wrong, unanswered, ScoreHundredths(correct, total), entries);
  }

  // ------------------------------------------------------------ examples

  /** `["b","a"]` matches the key `["a","b"]`. */
  lemma MultiChoiceReordered()
    ensures IsCorrect("multi_choice", [VStr("a"), VStr("b")], VList([VStr("b"), VStr("a")]))
  {
    var key := [VStr("a"), VStr("b")];
    MultiChoiceSelf(key);
    assert multiset([VStr("b"), VStr("a")]) == multiset(key);
    MultiChoiceIgnoresOrder(key, [VStr("b"), VStr("a")], key);
  }

  /** The key itself, sent as the answer, is correct. */
  lemma MultiChoiceSelf(key: seq<Value>)
    requires key != []
    ensures IsCorrect("multi_choice", key, VList(key))
  {
  }

  /** A subset of the key is not enough: of a two-value key, one value
      alone does not match. */
  lemma MultiChoicePartial(x: Value, y: Value)
    requires !Blank(x) && !Blank(y) && StrVal(x) != StrVal(y)
    ensures !IsCorrect("multi_choice", [x, y], VList([x]))
  {
    var key := [x, y];
    assert NonBlank([y]) == [y] + NonBlank([]);
    assert NonBlank(key) == [x] + NonBlank([y]);
    assert NonBlank([x]) == [x] + NonBlank([]);
    assert StrVals([x]) == [StrVal(x)];
    assert StrVals(key) == [StrVal(x)] + StrVals([y]);
    assert |multiset(StrVals(NonBlank(key)))| == 2;
    assert |multiset(StrVals(NonBlank([x])))| == 1;
  }

  /** A numeric payload matches the same number as a string key. */
  lemma SingleChoiceNumeric()
    ensures IsCorrect("single_choice", [VStr("2")], VInt(2))
  {
    assert IntToString(2) == "2";
  }

  /** A list payload is read through its first element. */
  lemma SingleChoiceFirstOfList()
    ensures IsCorrect("single_choice", [VStr("b")], VList([VStr("b"), VStr("c")]))
  {
  }

  /** Text answers are compared ignoring case and surrounding blanks. */
  lemma TextIgnoresCaseAndBlanks()
    ensures IsCorrect("text", [VStr("Paris")], VStr(" paris "))
  {
    NormalizedPadded();
    NormalizedWord();
  }

  lemma NormalizedPadded()
    ensures Normalized(VStr(" paris ")) == "paris"
  {
    TrimPadded();
    LowerWord("paris", "paris");
  }

  lemma NormalizedWord()
    ensures Normalized(VStr("Paris")) == "paris"
  {
    TrimWord();
    LowerWord("Paris", "paris");
  }

  /** `strtolower` of `s` is `t` when they agree character by character. */
  lemma LowerWord(s: string, t: string)
    requires |s| == |t| && forall k :: 0 <= k < |s| ==> LowerChar(s[k]) == t[k]
    ensures ToLower(s) == t
  {
  }

  lemma TrimPadded()
    ensures Trim(" paris ") == "paris"
  {
    assert LeadingCount(" paris ") == 1;
    assert TrailingCount("paris ") == 1;
  }

  lemma TrimWord()
    ensures Trim("Paris") == "Paris"
  {
    assert LeadingCount("Paris") == 0;
    assert TrailingCount("Paris") == 0;
  }

  /** A text question never accepts a non-string payload, even one whose
      string form equals the key. */
  lemma TextNeedsString(key: seq<Value>, payload: Value)
    requires !payload.VStr?
    ensures !IsCorrect("text", key, payload)
  {
  }
}
