/** Course content as the user-facing core sees it: the live induction with
    its chapters and questions (owned by the authoring side, only read
    here), and the typed snapshot of that content stored on a submission. */
module Course {
  import opened Wrappers
  import opened Php

  /** Primary keys of the tables. */
  type Id = nat

  /** An answer option of a choice question, `{id, label}` (`label` is a Dafny keyword, so the field is `caption`). */
  datatype Choice = Choice(id: string, caption: string)

  /** A question row. A snapshot holds verbatim copies of these; an old
      snapshot may lack `correct_answer`, which reads as `VNull`. `options`
      that are null are represented as the empty list. */
  datatype Question = Question(
    id: Id,
    questionText: string,
    qtype: string,
    options: seq<Choice>,
    correctAnswer: Value,
    displayOrder: int)

  /** A chapter row of the live induction, with its questions. */
  datatype LiveChapter = LiveChapter(
    id: Id,
    title: string,
    description: Option<string>,
    videoUrl: Option<string>,
    videoPath: Option<string>,
    videoFilename: Option<string>,
    videoDuration: Option<int>,
    displayOrder: int,
    passPercentage: Option<int>,
    questions: seq<Question>)

  /** An induction row with its chapters, in the order the chapters table
      returns them. */
  datatype Induction = Induction(
    id: Id,
    title: string,
    description: Option<string>,
    isActive: bool,
    chapters: seq<LiveChapter>)

  /** One chapter of a snapshot: the chapter's fields at snapshot time with
      the video URL already resolved. `passPercentage` is `None` where the
      fragment omits the key or stores null. */
  datatype ChapterSnap = ChapterSnap(
    id: Id,
    title: string,
    description: Option<string>,
    videoUrl: Option<string>,
    videoPath: Option<string>,
    videoFilename: Option<string>,
    videoDuration: Option<int>,
    displayOrder: int,
    passPercentage: Option<int>,
    questions: seq<Question>)

  /** The `induction_snapshot` column: the chapters list of the document. */
  datatype Snapshot = Snapshot(chapters: seq<ChapterSnap>)

  /** What the tables say independently of any one induction: which chapter
      ids exist, and the current question rows by id. Used for request
      validation (`exists:` rules) and for `Question::find`. */
  datatype Catalog = Catalog(chapterIds: set<Id>, questions: map<Id, Question>)

  /** One entry of a "missing answers" report: chapter title, question text. */
  datatype MissingAnswer = MissingAnswer(chapter: string, question: string)

  /** The `{id, title, display_order}` summary of a chapter in responses. */
  datatype ChapterRef = ChapterRef(id: Id, title: string, displayOrder: int)

  /** The `{id, question_text}` summary of a question in responses. */
  datatype QuestionRef = QuestionRef(id: Id, questionText: string)

  function QuestionOrder(q: Question): int { q.displayOrder }

  function LiveOrder(c: LiveChapter): int { c.displayOrder }

  function ChapterOrder(c: ChapterSnap): int { c.displayOrder }

  function RefOf(c: ChapterSnap): ChapterRef
  {
    ChapterRef(c.id, c.title, c.displayOrder)
  }

  /** `$snapshot['chapters'] ?? []`. */
  function SnapChapters(s: Option<Snapshot>): seq<ChapterSnap>
  {
    if s.Some? then s.value.chapters else []
  }

  /** The chapter ids present in a list of snapshot chapters. */
  function IdSet(chs: seq<ChapterSnap>): set<Id>
  {
    set c | c in chs :: c.id
  }

  /** The chapter ids of a list of live chapters. */
  function LiveIdSet(chs: seq<LiveChapter>): set<Id>
  {
    set c | c in chs :: c.id
  }

  /** `pluck('id')` on live chapters, in their order. */
  function LiveIds(chs: seq<LiveChapter>): (ids: seq<Id>)
    ensures |ids| == |chs|
    ensures forall i :: 0 <= i < |chs| ==> ids[i] == chs[i].id
  {
    if chs == [] then [] else [chs[0].id] + LiveIds(chs[1..])
  }

  /** A snapshot's `correct_answer` that reads as missing: absent, null or
      the empty list. */
  predicate MissingCorrect(v: Value)
  {
    v == VNull || v == VList([])
  }

  /** The answer key the controllers use for a snapshot question: the
      snapshot's own unless it is missing, in which case the live
      question's, provided that row exists and its key is truthy. */
  function WithFallback(v: Value, catalog: Catalog, questionId: Id): (r: Value)
    ensures !MissingCorrect(v) ==> r == v
    ensures MissingCorrect(v) && questionId in catalog.questions && Truthy(catalog.questions[questionId].correctAnswer)
            ==> r == catalog.questions[questionId].correctAnswer
    ensures MissingCorrect(v) && !(questionId in catalog.questions && Truthy(catalog.questions[questionId].correctAnswer))
            ==> r == v
    ensures r != v ==> !MissingCorrect(r)
  {
    if MissingCorrect(v) && questionId in catalog.questions && Truthy(catalog.questions[questionId].correctAnswer)
    then catalog.questions[questionId].correctAnswer
    else v
  }

  /** Number of questions over a list of chapters. */
  function TotalQuestions(chs: seq<ChapterSnap>): nat
  {
    if chs == [] then 0 else TotalQuestions(chs[..|chs| - 1]) + |chs[|chs| - 1].questions|
  }
}
