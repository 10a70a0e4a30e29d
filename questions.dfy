/** The admin question endpoints: validation of a create or update request,
    and the normalisation of the correct answer that both apply. */
module Questions {
  import opened Wrappers
  import opened Php
  import opened Course
  import opened Store
  import Grading

  /** The question types the `type` rule accepts. */
  predicate KnownType(t: string)
  {
    t == "single_choice" || t == "multi_choice" || t == "text"
  }

  /** `normalizeCorrectAnswer`: null and the empty string become null, a
      list is kept, and any other value becomes a one-element list. Every
      case of the type switch does the same. */
  function NormalizeCorrectAnswer(qtype: string, v: Value): (r: Value)
    ensures (v == VNull || v == VStr("")) ==> r == VNull
    ensures v.VList? ==> r == v
    ensures v != VNull && v != VStr("") && !v.VList? ==> r == VList([v])
    ensures r == VNull || r.VList?
  {
    if v == VNull || v == VStr("") then VNull
    else if qtype == "single_choice" then (if v.VList? then v else VList([v]))
    else if qtype == "multi_choice" then (if v.VList? then v else VList([v]))
    else if qtype == "text" then (if v.VList? then v else VList([v]))
    else (if v.VList? then v else VList([v]))
  }

  /** The type plays no part in the result. */
  lemma NormalizeIgnoresType(t1: string, t2: string, v: Value)
    ensures NormalizeCorrectAnswer(t1, v) == NormalizeCorrectAnswer(t2, v)
  {
  }

  /** Normalising twice is normalising once. */
  lemma NormalizeIdempotent(t: string, v: Value)
    ensures NormalizeCorrectAnswer(t, NormalizeCorrectAnswer(t, v)) == NormalizeCorrectAnswer(t, v)
  {
  }

  /** A stored key is already in the form the admin grader wraps keys
      into. */
  lemma NormalizedIsWrapped(t: string, v: Value)
    ensures Grading.Wrap(NormalizeCorrectAnswer(t, v)) == NormalizeCorrectAnswer(t, v)
  {
  }

  // -------------------------------------------------------- requests

  /** A request field: absent, or present with a value (possibly null). */
  datatype Field<T> = Absent | Present(value: T)

  /** One `{id, label}` element of a request's `options`. */
  datatype ChoiceInput = ChoiceInput(id: Value, caption: Value)

  /** A request's `options`: null, a list of elements, or something that is
      not a list. */
  datatype OptionsInput = NullOptions | ListOptions(items: seq<ChoiceInput>) | NotAList

  /** The fields of a create or update request. `displayOrder` is
      `Present(None)` when the value given is not an integer. */
  datatype QuestionRequest = QuestionRequest(
    questionText: Field<Value>,
    qtype: Field<Value>,
    options: Field<OptionsInput>,
    correctAnswer: Field<Value>,
    displayOrder: Field<Option<int>>)

  /** Laravel's `required|string`: a string that is not blank. */
  predicate FilledString(v: Value)
  {
    v.VStr? && Trim(v.s) != ""
  }

  /** Both fields of an option element are strings. */
  predicate StringPair(c: ChoiceInput)
  {
    c.id.VStr? && c.caption.VStr?
  }

  predicate ChoiceOk(c: ChoiceInput)
  {
    StringPair(c) && FilledString(c.id) && FilledString(c.caption)
  }

  /** `options` is `nullable|array`, and each element needs a string id and
      label. */
  predicate OptionsOk(o: Field<OptionsInput>)
  {
    match o
    case Absent => true
    case Present(NullOptions) => true
    case Present(ListOptions(items)) => forall i :: 0 <= i < |items| ==> ChoiceOk(items[i])
    case Present(NotAList) => false
  }

  /** The rules both endpoints share: options and display order. */
  predicate CommonRulesOk(req: QuestionRequest)
  {
    OptionsOk(req.options) && !(req.displayOrder.Present? && req.displayOrder.value.None?)
  }

  /** The rules of `store`: a text and a known type are required. */
  predicate StoreRulesOk(req: QuestionRequest)
  {
    && req.questionText.Present? && FilledString(req.questionText.value)
    && req.qtype.Present? && req.qtype.value.VStr? && KnownType(req.qtype.value.s)
    && CommonRulesOk(req)
  }

  /** The rules of `update`: text and type are optional, but checked when
      present. */
  predicate UpdateRulesOk(req: QuestionRequest)
  {
    && (req.questionText.Present? ==> FilledString(req.questionText.value))
    && (req.qtype.Present? ==> req.qtype.value.VStr? && KnownType(req.qtype.value.s))
    && CommonRulesOk(req)
  }

  function ChoicesOf(items: seq<ChoiceInput>): (cs: seq<Choice>)
    requires forall i :: 0 <= i < |items| ==> StringPair(items[i])
    ensures |cs| == |items|
    ensures forall i :: 0 <= i < |items| && StringPair(items[i]) ==> cs[i] == Choice(items[i].id.s, items[i].caption.s)
  {
    if items == [] then []
    else
      assert StringPair(items[0]);
      [Choice(items[0].id.s, items[0].caption.s)] + ChoicesOf(items[1..])
  }

  /** The stored options a valid `options` field amounts to; null is the
      empty list. */
  function StoredOptions(o: OptionsInput): seq<Choice>
    requires OptionsOk(Present(o))
  {
    match o
    case NullOptions => []
    case ListOptions(items) => ChoicesOf(items)
  }

  /** The row `store` creates under `id`. Absent options are null and an
      absent display order is the column default 0. */
  function Created(id: Id, req: QuestionRequest): (q: Question)
    requires StoreRulesOk(req)
    ensures q.id == id && q.questionText == req.questionText.value.s && q.qtype == req.qtype.value.s
    ensures q.correctAnswer == NormalizeCorrectAnswer(req.qtype.value.s, if req.correctAnswer.Present? then req.correctAnswer.value else VNull)
    ensures q.displayOrder == (if req.displayOrder.Present? then req.displayOrder.value.value else 0)
    ensures q.options == (if req.options.Present? then StoredOptions(req.options.value) else [])
  {
    var t := req.qtype.value.s;
    var correct := if req.correctAnswer.Present? then req.correctAnswer.value else VNull;
    Question(id, req.questionText.value.s, t,
             if req.options.Present? then StoredOptions(req.options.value) else [],
             NormalizeCorrectAnswer(t, correct),
             if req.displayOrder.Present? then req.displayOrder.value.value else 0)
  }

  /** The row `update` leaves: each present field replaces the stored one;
      the correct answer is normalised, with the new type if one is given
      and the stored one otherwise, only when it is present and not null
      (`isset`); a present null clears it. */
  function Updated(q: Question, req: QuestionRequest): (u: Question)
    requires UpdateRulesOk(req)
    ensures u.id == q.id
    ensures u.qtype == (if req.qtype.Present? then req.qtype.value.s else q.qtype)
    ensures req.correctAnswer.Absent? ==> u.correctAnswer == q.correctAnswer
    ensures req.correctAnswer == Present(VNull) ==> u.correctAnswer == VNull
    ensures req.correctAnswer.Present? && req.correctAnswer.value != VNull ==>
              u.correctAnswer == NormalizeCorrectAnswer(u.qtype, req.correctAnswer.value)
    ensures req.questionText.Absent? ==> u.questionText == q.questionText
    ensures req.questionText.Present? ==> u.questionText == req.questionText.value.s
    ensures req.options.Absent? ==> u.options == q.options
    ensures req.options.Present? ==> u.options == StoredOptions(req.options.value)
    ensures req.displayOrder.Absent? ==> u.displayOrder == q.displayOrder
    ensures req.displayOrder.Present? ==> u.displayOrder == req.displayOrder.value.value
  {
    var t := if req.qtype.Present? then req.qtype.value.s else q.qtype;
    var correct :=
      match req.correctAnswer
      case Absent => q.correctAnswer
      case Present(v) => if v != VNull then NormalizeCorrectAnswer(t, v) else VNull;
    Question(q.id,
             if req.questionText.Present? then req.questionText.value.s else q.questionText,
             t,
             if req.options.Present? then StoredOptions(req.options.value) else q.options,
             correct,
             if req.displayOrder.Present? then req.displayOrder.value.value else q.displayOrder)
  }

  /** An update that does not mention the correct answer keeps it as it
      was, even when it changes the type. */
  lemma UpdateKeepsUnmentionedAnswer(q: Question, req: QuestionRequest)
    requires UpdateRulesOk(req) && req.correctAnswer.Absent?
    ensures Updated(q, req).correctAnswer == q.correctAnswer
  {
  }

  // ---------------------------------------------------------- the table

  /** The questions table: rows by id, the chapter each belongs to, and the
      next id to hand out. */
  class QuestionTable {
    var questions: map<Id, Question>
    var chapterOf: map<Id, Id>
    var nextId: Id

    ghost predicate Valid()
      reads this
    {
      && (forall id :: id in questions ==> questions[id].id == id && id < nextId)
      && questions.Keys == chapterOf.Keys
    }

    constructor()
      ensures Valid() && questions == map[] && chapterOf == map[]
    {
      questions := map[];
      chapterOf := map[];
      nextId := 1;
    }

    /** `store`: a missing chapter is a 404; an invalid request is refused
        with nothing written; otherwise one row is added. */
    method StoreQuestion(chapterIds: set<Id>, chapterId: Id, req: QuestionRequest)
      returns (r: Result<Question, ApiError>)
      requires Valid()
      modifies this
      ensures Valid()
      ensures chapterId !in chapterIds ==> r == Err(NotFound)
      ensures chapterId in chapterIds && !StoreRulesOk(req) ==> r == Err(ValidationFailed)
      ensures r.Err? ==> unchanged(this)
      ensures r.Ok? <==> chapterId in chapterIds && StoreRulesOk(req)
      ensures r.Ok? ==>
                && r.value == Created(old(nextId), req)
                && old(nextId) !in old(questions)
                && questions == old(questions)[old(nextId) := r.value]
                && chapterOf == old(chapterOf)[old(nextId) := chapterId]
                && nextId == old(nextId) + 1
    {
      if chapterId !in chapterIds {
        return Err(NotFound);
      }
      if !StoreRulesOk(req) {
        return Err(ValidationFailed);
      }
      var q := Created(nextId, req);
      questions := questions[nextId := q];
      chapterOf := chapterOf[nextId := chapterId];
      nextId := nextId + 1;
      return Ok(q);
    }

    /** `update`: a missing question is a 404; an invalid request is
        refused; otherwise the row is replaced by its update and nothing
        else changes. */
    method UpdateQuestion(id: Id, req: QuestionRequest) returns (r: Result<Question, ApiError>)
      requires Valid()
      modifies this
      ensures Valid()
      ensures id !in old(questions) ==> r == Err(NotFound)
      ensures id in old(questions) && !UpdateRulesOk(req) ==> r == Err(ValidationFailed)
      ensures r.Err? ==> unchanged(this)
      ensures r.Ok? <==> id in old(questions) && UpdateRulesOk(req)
      ensures r.Ok? ==>
                && r.value == Updated(old(questions)[id], req)
                && questions == old(questions)[id := r.value]
                && chapterOf == old(chapterOf) && nextId == old(nextId)
    {
      if id !in questions {
        return Err(NotFound);
      }
      if !UpdateRulesOk(req) {
        return Err(ValidationFailed);
      }
      var u := Updated(questions[id], req);
      questions := questions[id := u];
      return Ok(u);
    }
  }
}
