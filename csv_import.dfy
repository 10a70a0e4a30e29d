/** The CSV import of an induction, from the header and the rows the CSV
    reader has already split into cells: header checks, row filtering,
    grouping rows into chapters, and the normalisation of each row's
    options and correct answers. */
module CsvImport {
  import opened Wrappers
  import opened Php
  import opened Course

  /** A data row keyed by the normalised header. */
  type Record = map<string, string>

  /** Why an import is refused. */
  datatype ImportError =
    | MissingColumn(column: string)   // a required header column is absent (422)
    | RowLengthMismatch(row: nat)     // a row's cell count differs from the header's
    | NoDataRows                      // only blank lines after the header (422)

  // ------------------------------------------------------------ header

  /** Header cells trimmed and lower-cased. */
  function NormalizeHeader(header: seq<string>): (h: seq<string>)
    ensures |h| == |header|
    ensures forall i :: 0 <= i < |header| ==> h[i] == ToLower(Trim(header[i]))
  {
    if header == [] then [] else [ToLower(Trim(header[0]))] + NormalizeHeader(header[1..])
  }

  const RequiredColumns: seq<string> := ["induction_title", "chapter_title", "question_text", "question_type"]

  /** The first of `cols` that the header lacks. */
  function FirstMissing(h: seq<string>, cols: seq<string>): (r: Option<string>)
    ensures r.None? <==> forall c :: c in cols ==> c in h
    ensures r.Some? ==> exists k :: 0 <= k < |cols| && cols[k] == r.value && r.value !in h
                                    && forall j :: 0 <= j < k ==> cols[j] in h
  {
    if cols == [] then None
    else if cols[0] !in h then Some(cols[0])
    else
      var r := FirstMissing(h, cols[1..]);
      assert forall c :: c in cols ==> c == cols[0] || c in cols[1..];
      assert r.Some? ==> exists k :: 0 <= k < |cols[1..]| && cols[1..][k] == r.value && r.value !in h
                                     && forall j :: 0 <= j < k ==> cols[1..][j] in h;
      r
  }

  // -------------------------------------------------------------- rows

  /** A line the reader returns as a single blank cell. */
  predicate BlankLine(row: seq<string>)
  {
    |row| == 1 && Trim(row[0]) == ""
  }

  /** `array_combine($header, $row)`: each header cell keys the cell below
      it; with a repeated header cell the rightmost cell wins. */
  function Combine(h: seq<string>, row: seq<string>): (m: Record)
    requires |h| == |row|
    ensures forall k :: k in m <==> k in h
  {
    if h == [] then map[]
    else
      var n := |h| - 1;
      var m := Combine(h[..n], row[..n]);
      assert forall k :: k in h <==> k in h[..n] || k == h[n];
      m[h[n] := row[n]]
  }

  /** The cell under a header that no later header repeats is the one
      stored under it. */
  lemma {:induction false} CombineCell(h: seq<string>, row: seq<string>, j: nat)
    requires |h| == |row| && j < |h| && h[j] !in h[j + 1..]
    ensures Combine(h, row)[h[j]] == row[j]
  {
    var n := |h| - 1;
    if j < n {
      assert h[..n][j] == h[j] && row[..n][j] == row[j];
      assert h[..n][j + 1..] == h[j + 1..n];
      assert h[n] in h[j + 1..];
      CombineCell(h[..n], row[..n], j);
    }
  }

  /** The rows kept from the reader's output: blank lines are dropped, and
      the first row whose length differs from the header's is an error. */
  function DataRows(h: seq<string>, raw: seq<seq<string>>): (r: Result<seq<Record>, ImportError>)
    ensures r.Ok? ==> |r.value| <= |raw|
    ensures r.Ok? ==> forall rec :: rec in r.value ==> forall k :: k in rec <==> k in h
  {
    if raw == [] then Ok([])
    else
      var n := |raw| - 1;
      match DataRows(h, raw[..n])
      case Err(e) => Err(e)
      case Ok(rows) =>
        if BlankLine(raw[n]) then Ok(rows)
        else if |raw[n]| != |h| then Err(RowLengthMismatch(n))
        else Ok(rows + [Combine(h, raw[n])])
  }

  /** Once a row is refused, later rows change nothing. */
  lemma {:induction false} DataRowsErrSticky(h: seq<string>, raw: seq<seq<string>>, i: nat)
    requires i <= |raw| && DataRows(h, raw[..i]).Err?
    ensures DataRows(h, raw) == DataRows(h, raw[..i])
    decreases |raw| - i
  {
    if i < |raw| {
      assert raw[..i + 1][..i] == raw[..i];
      DataRowsErrSticky(h, raw, i + 1);
    } else {
      assert raw[..i] == raw;
    }
  }

  /** No row is kept exactly when every line is blank (and none is
      refused). */
  lemma {:induction false} NoRowsIffAllBlank(h: seq<string>, raw: seq<seq<string>>)
    ensures DataRows(h, raw) == Ok([]) <==> forall i :: 0 <= i < |raw| ==> BlankLine(raw[i])
  {
    if raw != [] {
      var n := |raw| - 1;
      NoRowsIffAllBlank(h, raw[..n]);
      assert forall i :: 0 <= i < n ==> raw[..n][i] == raw[i];
      match DataRows(h, raw[..n])
      case Err(_) =>
      case Ok(rows) =>
        if rows != [] {
          assert DataRows(h, raw) != Ok([]);
        }
    }
  }

  // ------------------------------------------------------- the records

  /** `$row[$k] ?? null`. */
  function Lookup(rec: Record, k: string): Option<string>
  {
    if k in rec then Some(rec[k]) else None
  }

  /** `$row[$k] ?? ''`. */
  function Cell(rec: Record, k: string): string
  {
    if k in rec then rec[k] else ""
  }

  /** `isset($row[$k]) ? (int)$row[$k] : dflt`. */
  function IntOr(rec: Record, k: string, dflt: int): (r: int)
    ensures k !in rec ==> r == dflt
    ensures k in rec ==> r == IntCast(rec[k])
  {
    if k in rec then IntCast(rec[k]) else dflt
  }

  datatype ImportedInduction = ImportedInduction(title: string, description: Option<string>, isActive: bool, displayOrder: int)

  datatype ImportedChapter = ImportedChapter(
    title: string,
    description: Option<string>,
    videoUrl: Option<string>,
    displayOrder: int,
    passPercentage: int)

  /** A created question; `chapter` is the position of its chapter among
      the created chapters. */
  datatype ImportedQuestion = ImportedQuestion(
    chapter: nat,
    questionText: string,
    qtype: string,
    options: seq<Choice>,
    correctAnswer: Value,
    displayOrder: int)

  datatype Imported = Imported(induction: ImportedInduction, chapters: seq<ImportedChapter>, questions: seq<ImportedQuestion>)

  /** The induction, from the first row: active unless the cell casts to
      false, display order 0 unless given. */
  function InductionOf(first: Record): (ind: ImportedInduction)
    ensures ind.isActive <==> "induction_is_active" !in first || TruthyString(first["induction_is_active"])
    ensures ind.displayOrder == IntOr(first, "induction_display_order", 0)
    ensures ind.description == Lookup(first, "induction_description")
  {
    ImportedInduction(
      Cell(first, "induction_title"),
      Lookup(first, "induction_description"),
      if "induction_is_active" in first then TruthyString(first["induction_is_active"]) else true,
      IntOr(first, "induction_display_order", 0))
  }

  /** A chapter, from the first row of its group: display order 0 and pass
      percentage 70 unless given. */
  function ChapterOf(rec: Record): (c: ImportedChapter)
    ensures c.displayOrder == IntOr(rec, "chapter_display_order", 0)
    ensures c.passPercentage == IntOr(rec, "pass_percentage", 70)
    ensures c.description == Lookup(rec, "chapter_description") && c.videoUrl == Lookup(rec, "chapter_video_url")
  {
    ImportedChapter(Cell(rec, "chapter_title"), Lookup(rec, "chapter_description"), Lookup(rec, "chapter_video_url"),
                    IntOr(rec, "chapter_display_order", 0), IntOr(rec, "pass_percentage", 70))
  }

  /** `chapter_title|chapter_display_order`, the grouping key. */
  function RowKey(rec: Record): string
  {
    Cell(rec, "chapter_title") + "|" + Cell(rec, "chapter_display_order")
  }

  // --------------------------------------------------- chapter grouping

  /** The position of the first row of `firsts` with key `k`, or `|firsts|`. */
  function IndexOfKey(firsts: seq<Record>, k: string): (r: nat)
    ensures r <= |firsts|
    ensures r < |firsts| ==> RowKey(firsts[r]) == k
    ensures forall j :: 0 <= j < r ==> RowKey(firsts[j]) != k
  {
    if firsts == [] then 0
    else if RowKey(firsts[0]) == k then 0
    else
      var r := IndexOfKey(firsts[1..], k);
      assert forall j :: 1 <= j < r + 1 ==> firsts[j] == firsts[1..][j - 1];
      1 + r
  }

  predicate HasKey(firsts: seq<Record>, k: string)
  {
    IndexOfKey(firsts, k) < |firsts|
  }

  lemma IndexOfKeyAppend(firsts: seq<Record>, x: Record, k: string)
    ensures HasKey(firsts, k) ==> IndexOfKey(firsts + [x], k) == IndexOfKey(firsts, k)
    ensures !HasKey(firsts, k) && RowKey(x) == k ==> IndexOfKey(firsts + [x], k) == |firsts|
    ensures !HasKey(firsts, k) && RowKey(x) != k ==> !HasKey(firsts + [x], k)
  {
    var i0 := IndexOfKey(firsts, k);
    var r := IndexOfKey(firsts + [x], k);
    assert forall j :: 0 <= j < |firsts| ==> (firsts + [x])[j] == firsts[j];
    if i0 < |firsts| {
      assert !(r > i0);
      assert !(r < i0);
    } else if RowKey(x) == k {
      assert !(r < |firsts|);
      assert (firsts + [x])[|firsts|] == x;
    } else {
      assert !(r < |firsts|);
      assert (firsts + [x])[|firsts|] == x;
    }
  }

  /** The first row of each group, in the order groups first appear. */
  function FirstRows(rows: seq<Record>): (fs: seq<Record>)
    ensures |fs| <= |rows|
  {
    if rows == [] then []
    else
      var init := FirstRows(rows[..|rows| - 1]);
      var last := rows[|rows| - 1];
      if HasKey(init, RowKey(last)) then init else init + [last]
  }

  /** No two of `fs` share a key. */
  predicate DistinctKeys(fs: seq<Record>)
  {
    forall a, b :: 0 <= a < b < |fs| ==> RowKey(fs[a]) != RowKey(fs[b])
  }

  /** The groups have distinct keys. */
  lemma {:induction false} FirstRowsDistinct(rows: seq<Record>)
    ensures DistinctKeys(FirstRows(rows))
  {
    if rows != [] {
      var init := FirstRows(rows[..|rows| - 1]);
      var last := rows[|rows| - 1];
      FirstRowsDistinct(rows[..|rows| - 1]);
      if !HasKey(init, RowKey(last)) {
        var fs := init + [last];
        assert FirstRows(rows) == fs;
        forall a, b | 0 <= a < b < |fs| ensures RowKey(fs[a]) != RowKey(fs[b]) {
          assert fs[a] == init[a];
          if b == |init| {
            assert fs[b] == last;
            assert RowKey(init[a]) != RowKey(last);
          } else {
            assert fs[b] == init[b];
          }
        }
      }
    }
  }

  /** Row `p`'s key has a group. */
  lemma {:induction false} FirstRowsCoverAt(rows: seq<Record>, p: nat)
    requires p < |rows|
    ensures HasKey(FirstRows(rows), RowKey(rows[p]))
  {
    var n := |rows| - 1;
    var init := FirstRows(rows[..n]);
    IndexOfKeyAppend(init, rows[n], RowKey(rows[p]));
    if p < n {
      FirstRowsCoverAt(rows[..n], p);
      assert rows[..n][p] == rows[p];
    }
  }

  /** Every row's key has a group. */
  lemma FirstRowsCover(rows: seq<Record>)
    ensures forall p :: 0 <= p < |rows| ==> HasKey(FirstRows(rows), RowKey(rows[p]))
  {
    forall p | 0 <= p < |rows| ensures HasKey(FirstRows(rows), RowKey(rows[p])) {
      FirstRowsCoverAt(rows, p);
    }
  }

  /** `rec` is a row of `rows` whose key no earlier row has. */
  predicate EarliestOfKey(rows: seq<Record>, rec: Record)
  {
    exists p :: 0 <= p < |rows| && rows[p] == rec && NewKeyAt(rows, p)
  }

  /** Every group's first row is a row whose key no earlier row has. */
  lemma {:induction false} FirstRowsEarliest(rows: seq<Record>)
    ensures forall j :: 0 <= j < |FirstRows(rows)| ==> EarliestOfKey(rows, FirstRows(rows)[j])
  {
    if rows != [] {
      var n := |rows| - 1;
      var init := FirstRows(rows[..n]);
      var last := rows[n];
      FirstRowsEarliest(rows[..n]);
      FirstRowsCover(rows[..n]);
      var fs := FirstRows(rows);
      forall j | 0 <= j < |fs| ensures EarliestOfKey(rows, fs[j]) {
        if j < |init| {
          assert fs[j] == init[j];
          assert EarliestOfKey(rows[..n], init[j]);
          var p :| 0 <= p < n && rows[..n][p] == init[j] && NewKeyAt(rows[..n], p);
          NewKeyAtPrefix(rows, n, p);
          assert rows[p] == fs[j];
        } else {
          assert fs[j] == last && !HasKey(init, RowKey(last));
          forall q | 0 <= q < n ensures RowKey(rows[q]) != RowKey(rows[n]) {
            assert rows[..n][q] == rows[q];
          }
          assert NewKeyAt(rows, n);
          assert rows[n] == fs[j];
        }
      }
    }
  }

  /** No row before `p` has the key of row `p`. */
  predicate NewKeyAt(rows: seq<Record>, p: nat)
    requires p < |rows|
  {
    forall q :: 0 <= q < p ==> RowKey(rows[q]) != RowKey(rows[p])
  }

  lemma NewKeyAtPrefix(rows: seq<Record>, n: nat, p: nat)
    requires p < n <= |rows|
    ensures NewKeyAt(rows[..n], p) <==> NewKeyAt(rows, p)
  {
    assert forall q :: 0 <= q <= p ==> rows[..n][q] == rows[q];
  }

  /** One more row adds its group at the end when its key is new. */
  lemma FirstRowsSnoc(rows: seq<Record>, i: nat)
    requires i < |rows|
    ensures var a := FirstRows(rows[..i]);
            FirstRows(rows[..i + 1]) == if HasKey(a, RowKey(rows[i])) then a else a + [rows[i]]
  {
    assert rows[..i + 1][..i] == rows[..i];
    assert rows[..i + 1][i] == rows[i];
  }

  /** Later rows only add groups after the existing ones. */
  lemma {:induction false} FirstRowsPrefix(rows: seq<Record>, i: nat)
    requires i <= |rows|
    ensures var a := FirstRows(rows[..i]);
            var b := FirstRows(rows);
            |a| <= |b| && b[..|a|] == a
    decreases |rows| - i
  {
    if i < |rows| {
      FirstRowsPrefix(rows, i + 1);
      var a := FirstRows(rows[..i]);
      var a2 := FirstRows(rows[..i + 1]);
      var b := FirstRows(rows);
      FirstRowsSnoc(rows, i);
      assert a2[..|a|] == a;
      assert b[..|a|] == b[..|a2|][..|a|];
    } else {
      assert rows[..i] == rows;
    }
  }

  // ---------------------------------------------------------- options

  /** The element types a JSON `question_options` cell can decode to: an
      object with `id` and `label`, or anything else, carried as its string
      form. */
  datatype JsonItem = JsonPair(id: string, caption: string) | JsonText(text: string)

  /** `array_values(array_filter(array_map('trim', explode('|', $s))))`
      with the empty strings dropped. */
  function SplitList(s: string): (r: seq<string>)
    ensures forall i :: 0 <= i < |r| ==> r[i] != "" && '|' !in r[i]
  {
    PipeParts(Explode('|', s))
  }

  function PipeParts(parts: seq<string>): (r: seq<string>)
    requires forall i :: 0 <= i < |parts| ==> '|' !in parts[i]
    ensures forall i :: 0 <= i < |r| ==> r[i] != "" && '|' !in r[i]
    ensures forall x :: x in r <==> (x != "" && exists p :: p in parts && Trim(p) == x)
  {
    if parts == [] then []
    else
      var t := Trim(parts[0]);
      TrimKeepsOut('|', parts[0]);
      var rest := PipeParts(parts[1..]);
      assert forall p :: p in parts <==> p == parts[0] || p in parts[1..];
      (if t != "" then [t] else []) + rest
  }

  /** Trimming removes characters, never adds one. */
  lemma TrimKeepsOut(c: char, s: string)
    requires c !in s
    ensures c !in Trim(s)
  {
    var a := LeadingCount(s);
    var t := s[a..];
    assert Trim(s) == t[..|t| - TrailingCount(t)];
  }

  /** Plain option labels numbered "1", "2", ... in order. */
  function PipeOptions(labels: seq<string>): (cs: seq<Choice>)
    ensures |cs| == |labels|
    ensures forall i :: 0 <= i < |labels| ==> cs[i] == Choice(IntToString(i + 1), labels[i])
  {
    if labels == [] then []
    else PipeOptions(labels[..|labels| - 1]) + [Choice(IntToString(|labels|), labels[|labels| - 1])]
  }

  /** Decoded options: objects keep their id and label, anything else is
      numbered by its position. */
  function JsonOptions(items: seq<JsonItem>): (cs: seq<Choice>)
    ensures |cs| == |items|
    ensures forall i :: 0 <= i < |items| ==>
              cs[i] == match items[i]
                       case JsonPair(id, caption) => Choice(id, caption)
                       case JsonText(t) => Choice(IntToString(i + 1), t)
  {
    if items == [] then []
    else
      var n := |items| - 1;
      var c := match items[n]
               case JsonPair(id, caption) => Choice(id, caption)
               case JsonText(t) => Choice(IntToString(n + 1), t);
      JsonOptions(items[..n]) + [c]
  }

  /** The options of a row. An empty cell, or "0" (which PHP counts as
      empty), gives none; a cell that decodes as a JSON list gives its
      elements; anything else is split on pipes. `decodeJson` stands for
      `json_decode`. */
  function OptionsOf(raw: string, decodeJson: string -> Option<seq<JsonItem>>): (cs: seq<Choice>)
    ensures !TruthyString(raw) ==> cs == []
    ensures TruthyString(raw) && decodeJson(raw).None? ==> cs == PipeOptions(SplitList(raw))
  {
    if !TruthyString(raw) then []
    else
      match decodeJson(raw)
      case Some(items) => JsonOptions(items)
      case None => PipeOptions(SplitList(raw))
  }

  /** Pipe-split options have ids "1".."n", all distinct. */
  lemma PipeIdsDistinct(labels: seq<string>)
    ensures var cs := PipeOptions(labels);
            forall a, b :: 0 <= a < b < |cs| ==> cs[a].id != cs[b].id
  {
    var cs := PipeOptions(labels);
    forall a, b | 0 <= a < b < |cs| ensures cs[a].id != cs[b].id {
      IntToStringInjective(a + 1, b + 1);
    }
  }


  // --------------------------------------------------- correct answers

  /** Lower-cased label to option id; for equal labels the later option
      wins. */
  function LabelMap(cs: seq<Choice>): map<string, string>
  {
    if cs == [] then map[]
    else LabelMap(cs[..|cs| - 1])[ToLower(cs[|cs| - 1].caption) := cs[|cs| - 1].id]
  }

  /** The map's keys are exactly the lower-cased labels. */
  lemma {:induction false} LabelMapKeys(cs: seq<Choice>)
    ensures forall k :: k in LabelMap(cs) <==> exists j :: 0 <= j < |cs| && ToLower(cs[j].caption) == k
  {
    if cs != [] {
      var n := |cs| - 1;
      var pre := cs[..n];
      LabelMapKeys(pre);
      forall k ensures k in LabelMap(cs) <==> exists j :: 0 <= j < |cs| && ToLower(cs[j].caption) == k {
        if k in LabelMap(pre) {
          var j :| 0 <= j < n && ToLower(pre[j].caption) == k;
          assert cs[j] == pre[j];
        }
        if exists j :: 0 <= j < |cs| && ToLower(cs[j].caption) == k {
          var j :| 0 <= j < |cs| && ToLower(cs[j].caption) == k;
          if j < n {
            assert pre[j] == cs[j];
          }
        }
      }
    }
  }

  /** The id stored for a label is that of the last option carrying it. */
  lemma {:induction false} LabelMapLast(cs: seq<Choice>, j: nat)
    requires j < |cs| && forall j2 :: j < j2 < |cs| ==> ToLower(cs[j2].caption) != ToLower(cs[j].caption)
    ensures ToLower(cs[j].caption) in LabelMap(cs)
    ensures LabelMap(cs)[ToLower(cs[j].caption)] == cs[j].id
  {
    var n := |cs| - 1;
    if j < n {
      var pre := cs[..n];
      assert pre[j] == cs[j];
      forall j2 | j < j2 < n ensures ToLower(pre[j2].caption) != ToLower(pre[j].caption) {
        assert pre[j2] == cs[j2];
      }
      LabelMapLast(pre, j);
    }
  }

  /** An answer names the option whose label matches it ignoring case;
      otherwise it is kept as given. */
  function MapAnswer(m: map<string, string>, ans: string): string
  {
    if ToLower(ans) in m then m[ToLower(ans)] else ans
  }

  function MapAnswers(m: map<string, string>, answers: seq<string>): (r: seq<string>)
    ensures |r| == |answers|
    ensures forall i :: 0 <= i < |answers| ==> r[i] == MapAnswer(m, answers[i])
  {
    if answers == [] then [] else [MapAnswer(m, answers[0])] + MapAnswers(m, answers[1..])
  }

  function Strings(xs: seq<string>): (vs: seq<Value>)
    ensures |vs| == |xs| && forall i :: 0 <= i < |xs| ==> vs[i] == VStr(xs[i])
  {
    if xs == [] then [] else [VStr(xs[0])] + Strings(xs[1..])
  }

  /** The stored correct answer of a row. No cell, or an empty one, leaves
      it null. Otherwise the pipe-split answers are mapped to option ids;
      a text question with exactly one answer stores it alone, every other
      case stores the list. */
  function CorrectOf(qtype: string, raw: Option<string>, options: seq<Choice>): (v: Value)
    ensures raw.None? || raw == Some("") ==> v == VNull
    ensures raw.Some? && raw.value != "" ==>
              var mapped := MapAnswers(LabelMap(options), SplitList(raw.value));
              if qtype == "text" && |mapped| == 1 then v == VStr(mapped[0]) else v == VList(Strings(mapped))
  {
    if raw.None? || raw.value == "" then VNull
    else
      var mapped := MapAnswers(LabelMap(options), SplitList(raw.value));
      if qtype == "text" && |mapped| == 1 then VStr(mapped[0]) else VList(Strings(mapped))
  }

  /** An answer that matches no option's label stays as given; one that
      matches becomes the id of the last option with that label. */
  lemma MapAnswerMeaning(cs: seq<Choice>, ans: string, j: nat)
    requires j < |cs|
    ensures (forall i :: 0 <= i < |cs| ==> ToLower(cs[i].caption) != ToLower(ans)) ==> MapAnswer(LabelMap(cs), ans) == ans
    ensures (ToLower(cs[j].caption) == ToLower(ans) && forall j2 :: j < j2 < |cs| ==> ToLower(cs[j2].caption) != ToLower(ans))
            ==> MapAnswer(LabelMap(cs), ans) == cs[j].id
  {
    LabelMapKeys(cs);
    if ToLower(cs[j].caption) == ToLower(ans) && (forall j2 :: j < j2 < |cs| ==> ToLower(cs[j2].caption) != ToLower(ans)) {
      LabelMapLast(cs, j);
    }
  }

  // ------------------------------------------------------ the questions

  /** The question a row creates, attached to chapter `chapter`. */
  function QuestionOf(rec: Record, chapter: nat, decodeJson: string -> Option<seq<JsonItem>>): (q: ImportedQuestion)
    ensures q.chapter == chapter
    ensures q.qtype == (if "question_type" in rec then rec["question_type"] else "text")
    ensures q.options == OptionsOf(Cell(rec, "question_options"), decodeJson)
    ensures q.correctAnswer == CorrectOf(q.qtype, Lookup(rec, "question_correct_answer"), q.options)
    ensures q.displayOrder == IntOr(rec, "question_display_order", 0)
  {
    var qtype := if "question_type" in rec then rec["question_type"] else "text";
    var options := OptionsOf(Cell(rec, "question_options"), decodeJson);
    ImportedQuestion(chapter, Cell(rec, "question_text"), qtype, options,
                     CorrectOf(qtype, Lookup(rec, "question_correct_answer"), options),
                     IntOr(rec, "question_display_order", 0))
  }

  /** One question per row, in row order, each attached to its group. */
  function Questions(rows: seq<Record>, decodeJson: string -> Option<seq<JsonItem>>): (qs: seq<ImportedQuestion>)
    ensures |qs| == |rows|
  {
    if rows == [] then []
    else
      var n := |rows| - 1;
      Questions(rows[..n], decodeJson)
        + [QuestionOf(rows[n], IndexOfKey(FirstRows(rows), RowKey(rows[n])), decodeJson)]
  }

  /** Row `p`'s question belongs to the chapter of the row's key. */
  lemma {:induction false} QuestionInItsChapter(rows: seq<Record>, decodeJson: string -> Option<seq<JsonItem>>, p: nat)
    requires p < |rows|
    ensures var q := Questions(rows, decodeJson)[p];
            var fs := FirstRows(rows);
            q.chapter < |fs| && RowKey(fs[q.chapter]) == RowKey(rows[p]) && q == QuestionOf(rows[p], q.chapter, decodeJson)
  {
    var n := |rows| - 1;
    var fs := FirstRows(rows);
    if p == n {
      FirstRowsCoverAt(rows, n);
      assert Questions(rows, decodeJson)[n] == QuestionOf(rows[n], IndexOfKey(fs, RowKey(rows[n])), decodeJson);
    } else {
      QuestionInItsChapter(rows[..n], decodeJson, p);
      FirstRowsPrefix(rows, n);
      var fsn := FirstRows(rows[..n]);
      var q := Questions(rows[..n], decodeJson)[p];
      assert Questions(rows, decodeJson)[p] == q;
      assert rows[..n][p] == rows[p];
      assert fs[q.chapter] == fsn[q.chapter];
    }
  }

  /** Each row's question belongs to the chapter of the row's key. */
  lemma QuestionsInTheirChapter(rows: seq<Record>, decodeJson: string -> Option<seq<JsonItem>>)
    ensures var qs := Questions(rows, decodeJson);
            var fs := FirstRows(rows);
            forall p :: 0 <= p < |rows| ==>
              qs[p].chapter < |fs| && RowKey(fs[qs[p].chapter]) == RowKey(rows[p])
              && qs[p] == QuestionOf(rows[p], qs[p].chapter, decodeJson)
  {
    forall p | 0 <= p < |rows|
      ensures var q := Questions(rows, decodeJson)[p];
              q.chapter < |FirstRows(rows)| && RowKey(FirstRows(rows)[q.chapter]) == RowKey(rows[p])
              && q == QuestionOf(rows[p], q.chapter, decodeJson)
    {
      QuestionInItsChapter(rows, decodeJson, p);
    }
  }

  /** The chapters, one per group. */
  function Chapters(firsts: seq<Record>): (cs: seq<ImportedChapter>)
    ensures |cs| == |firsts|
    ensures forall j :: 0 <= j < |firsts| ==> cs[j] == ChapterOf(firsts[j])
  {
    if firsts == [] then [] else Chapters(firsts[..|firsts| - 1]) + [ChapterOf(firsts[|firsts| - 1])]
  }

  /** The whole import as a function of its inputs: the header check, the
      row filter, then the induction from the first row, a chapter per
      group and a question per row. */
  function Plan(header: seq<string>, raw: seq<seq<string>>, decodeJson: string -> Option<seq<JsonItem>>)
    : (r: Result<Imported, ImportError>)
    ensures FirstMissing(NormalizeHeader(header), RequiredColumns).Some? ==>
              r == Err(MissingColumn(FirstMissing(NormalizeHeader(header), RequiredColumns).value))
  {
    var h := NormalizeHeader(header);
    match FirstMissing(h, RequiredColumns)
    case Some(col) => Err(MissingColumn(col))
    case None =>
      match DataRows(h, raw)
      case Err(e) => Err(e)
      case Ok(rows) =>
        if rows == [] then Err(NoDataRows)
        else Ok(Imported(InductionOf(rows[0]), Chapters(FirstRows(rows)), Questions(rows, decodeJson)))
  }

  /** A header refusal happens exactly when a required column is missing,
      and it names that column. */
  lemma HeaderRefusal(header: seq<string>, raw: seq<seq<string>>, decodeJson: string -> Option<seq<JsonItem>>)
    ensures var r := Plan(header, raw, decodeJson);
            (r.Err? && r.error.MissingColumn?) <==> exists c :: c in RequiredColumns && c !in NormalizeHeader(header)
    ensures var r := Plan(header, raw, decodeJson);
            r.Err? && r.error.MissingColumn? ==> r.error.column in RequiredColumns && r.error.column !in NormalizeHeader(header)
  {
    var h := NormalizeHeader(header);
    if FirstMissing(h, RequiredColumns).None? {
      match DataRows(h, raw)
      case Err(e) =>
        DataRowsNeverMissing(h, raw);
      case Ok(rows) =>
    }
  }

  /** The row filter can refuse a row, never a column. */
  lemma {:induction false} DataRowsNeverMissing(h: seq<string>, raw: seq<seq<string>>)
    ensures DataRows(h, raw).Err? ==> DataRows(h, raw).error.RowLengthMismatch?
  {
    if raw != [] {
      DataRowsNeverMissing(h, raw[..|raw| - 1]);
    }
  }

  /** A successful import: one question per kept row, in row order, each
      attached to the chapter created for its row's key; one chapter per
      distinct key, made from the key's first row. */
  lemma ImportOutcome(header: seq<string>, raw: seq<seq<string>>, decodeJson: string -> Option<seq<JsonItem>>)
    requires Plan(header, raw, decodeJson).Ok?
    ensures var h := NormalizeHeader(header);
            var out := Plan(header, raw, decodeJson).value;
            && FirstMissing(h, RequiredColumns).None?
            && DataRows(h, raw).Ok? && DataRows(h, raw).value != []
            && var rows := DataRows(h, raw).value;
               && out.induction == InductionOf(rows[0])
               && |out.questions| == |rows|
               && |out.chapters| == |FirstRows(rows)| <= |rows|
               && DistinctKeys(FirstRows(rows))
               && forall p :: 0 <= p < |rows| ==>
                    var c := out.questions[p].chapter;
                    c < |out.chapters| && out.chapters[c] == ChapterOf(FirstRows(rows)[c])
                    && RowKey(FirstRows(rows)[c]) == RowKey(rows[p])
                    && out.questions[p] == QuestionOf(rows[p], c, decodeJson)
  {
    var h := NormalizeHeader(header);
    var rows := DataRows(h, raw).value;
    FirstRowsDistinct(rows);
    QuestionsInTheirChapter(rows, decodeJson);
  }

  /** With the header check passed, every kept row carries the
      `question_type` cell, so the `text` default of the type never
      applies. */
  lemma TypeDefaultUnused(header: seq<string>, raw: seq<seq<string>>, rec: Record)
    requires FirstMissing(NormalizeHeader(header), RequiredColumns).None?
    requires DataRows(NormalizeHeader(header), raw).Ok? && rec in DataRows(NormalizeHeader(header), raw).value
    ensures "question_type" in rec
  {
    assert "question_type" in RequiredColumns;
  }

  // ---------------------------------------------------------- the loops

  /** The `foreach` over the required columns. */
  method CheckColumns(h: seq<string>) returns (missing: Option<string>)
    ensures missing == FirstMissing(h, RequiredColumns)
  {
    var k := 0;
    while k < |RequiredColumns|
      invariant 0 <= k <= |RequiredColumns|
      invariant forall j :: 0 <= j < k ==> RequiredColumns[j] in h
    {
      var col := RequiredColumns[k];
      if col !in h {
        ghost var r := FirstMissing(h, RequiredColumns);
        assert r.Some?;
        ghost var k' :| 0 <= k' < |RequiredColumns| && RequiredColumns[k'] == r.value && r.value !in h
                        && forall j :: 0 <= j < k' ==> RequiredColumns[j] in h;
        assert k' == k;
        return Some(col);
      }
      k := k + 1;
    }
    return None;
  }

  /** The `while (fgetcsv(...))` loop. */
  method CollectRows(h: seq<string>, raw: seq<seq<string>>) returns (r: Result<seq<Record>, ImportError>)
    ensures r == DataRows(h, raw)
  {
    var rows: seq<Record> := [];
    var i := 0;
    while i < |raw|
      invariant 0 <= i <= |raw|
      invariant DataRows(h, raw[..i]) == Ok(rows)
    {
      var row := raw[i];
      assert raw[..i + 1][..i] == raw[..i];
      if BlankLine(row) {
        i := i + 1;
        continue;
      }
      if |row| != |h| {
        DataRowsErrSticky(h, raw, i + 1);
        return Err(RowLengthMismatch(i));
      }
      rows := rows + [Combine(h, row)];
      i := i + 1;
    }
    assert raw[..i] == raw;
    return Ok(rows);
  }

  /** Appending a row with a new key adds exactly that key, at the end,
      and moves no other key. */
  lemma KeysAfterAppend(firsts: seq<Record>, row: Record)
    requires !HasKey(firsts, RowKey(row))
    ensures forall k :: HasKey(firsts + [row], k) <==> HasKey(firsts, k) || k == RowKey(row)
    ensures forall k :: HasKey(firsts, k) ==> IndexOfKey(firsts + [row], k) == IndexOfKey(firsts, k)
    ensures IndexOfKey(firsts + [row], RowKey(row)) == |firsts|
  {
    forall k ensures (HasKey(firsts + [row], k) <==> HasKey(firsts, k) || k == RowKey(row))
                     && (HasKey(firsts, k) ==> IndexOfKey(firsts + [row], k) == IndexOfKey(firsts, k)) {
      IndexOfKeyAppend(firsts, row, k);
    }
    IndexOfKeyAppend(firsts, row, RowKey(row));
  }

  /** `chapterMap` holds exactly the keys of `firsts`, each with its
      position. */
  ghost predicate MapTracks(chapterMap: map<string, nat>, firsts: seq<Record>)
  {
    && (forall k :: k in chapterMap <==> HasKey(firsts, k))
    && (forall k :: k in chapterMap ==> chapterMap[k] == IndexOfKey(firsts, k))
  }

  lemma MapTracksAppend(chapterMap: map<string, nat>, firsts: seq<Record>, row: Record)
    requires MapTracks(chapterMap, firsts) && !HasKey(firsts, RowKey(row))
    ensures MapTracks(chapterMap[RowKey(row) := |firsts|], firsts + [row])
  {
    KeysAfterAppend(firsts, row);
    var m := chapterMap[RowKey(row) := |firsts|];
    forall k | k in m ensures m[k] == IndexOfKey(firsts + [row], k) {
      if k != RowKey(row) {
        assert HasKey(firsts, k);
      }
    }
  }

  /** One step of the grouping loop, in terms of the specification. */
  lemma GroupStep(rows: seq<Record>, i: nat, decodeJson: string -> Option<seq<JsonItem>>)
    requires i < |rows|
    ensures var firsts := FirstRows(rows[..i]);
            var key := RowKey(rows[i]);
            var idx := if HasKey(firsts, key) then IndexOfKey(firsts, key) else |firsts|;
            && FirstRows(rows[..i + 1]) == (if HasKey(firsts, key) then firsts else firsts + [rows[i]])
            && Questions(rows[..i + 1], decodeJson) == Questions(rows[..i], decodeJson) + [QuestionOf(rows[i], idx, decodeJson)]
  {
    assert rows[..i + 1][..i] == rows[..i];
    assert rows[..i + 1][i] == rows[i];
    var firsts := FirstRows(rows[..i]);
    if !HasKey(firsts, RowKey(rows[i])) {
      KeysAfterAppend(firsts, rows[i]);
    }
  }

  /** The state of the grouping loop after the first `i` rows. */
  ghost predicate Grouped(rows: seq<Record>, i: nat, decodeJson: string -> Option<seq<JsonItem>>,
                          chapterMap: map<string, nat>, firsts: seq<Record>,
                          chapters: seq<ImportedChapter>, questions: seq<ImportedQuestion>)
  {
    && i <= |rows|
    && firsts == FirstRows(rows[..i])
    && chapters == Chapters(firsts)
    && questions == Questions(rows[..i], decodeJson)
    && MapTracks(chapterMap, firsts)
  }

  /** A row with a new key adds a chapter at the end and records its
      position. */
  lemma GroupedNew(rows: seq<Record>, i: nat, decodeJson: string -> Option<seq<JsonItem>>,
                   chapterMap: map<string, nat>, firsts: seq<Record>,
                   chapters: seq<ImportedChapter>, questions: seq<ImportedQuestion>)
    requires i < |rows| && Grouped(rows, i, decodeJson, chapterMap, firsts, chapters, questions)
    requires RowKey(rows[i]) !in chapterMap
    ensures Grouped(rows, i + 1, decodeJson, chapterMap[RowKey(rows[i]) := |chapters|], firsts + [rows[i]],
                    chapters + [ChapterOf(rows[i])], questions + [QuestionOf(rows[i], |chapters|, decodeJson)])
  {
    var row := rows[i];
    GroupStep(rows, i, decodeJson);
    assert !HasKey(firsts, RowKey(row));
    MapTracksAppend(chapterMap, firsts, row);
    var fs := firsts + [row];
    assert fs[..|fs| - 1] == firsts;
    assert Chapters(fs) == Chapters(firsts) + [ChapterOf(row)];
  }

  /** A row with a known key reuses the recorded position. */
  lemma GroupedKnown(rows: seq<Record>, i: nat, decodeJson: string -> Option<seq<JsonItem>>,
                     chapterMap: map<string, nat>, firsts: seq<Record>,
                     chapters: seq<ImportedChapter>, questions: seq<ImportedQuestion>)
    requires i < |rows| && Grouped(rows, i, decodeJson, chapterMap, firsts, chapters, questions)
    requires RowKey(rows[i]) in chapterMap
    ensures Grouped(rows, i + 1, decodeJson, chapterMap, firsts,
                    chapters, questions + [QuestionOf(rows[i], chapterMap[RowKey(rows[i])], decodeJson)])
  {
    GroupStep(rows, i, decodeJson);
    assert HasKey(firsts, RowKey(rows[i]));
  }

  /** The `foreach ($rows as $row)` loop: a chapter for each new key,
      remembered in `chapterMap`, and a question for each row. */
  method CreateAll(rows: seq<Record>, decodeJson: string -> Option<seq<JsonItem>>)
    returns (chapters: seq<ImportedChapter>, questions: seq<ImportedQuestion>)
    ensures chapters == Chapters(FirstRows(rows))
    ensures questions == Questions(rows, decodeJson)
  {
    var chapterMap: map<string, nat> := map[];
    chapters, questions := [], [];
    ghost var firsts: seq<Record> := [];
    var i := 0;
    while i < |rows|
      invariant Grouped(rows, i, decodeJson, chapterMap, firsts, chapters, questions)
    {
      var row := rows[i];
      var key := RowKey(row);
      var idx: nat;
      if key !in chapterMap {
        GroupedNew(rows, i, decodeJson, chapterMap, firsts, chapters, questions);
        idx := |chapters|;
        chapters := chapters + [ChapterOf(row)];
        chapterMap := chapterMap[key := idx];
        firsts := firsts + [row];
      } else {
        GroupedKnown(rows, i, decodeJson, chapterMap, firsts, chapters, questions);
        idx := chapterMap[key];
      }
      questions := questions + [QuestionOf(row, idx, decodeJson)];
      i := i + 1;
    }
    assert rows[..i] == rows;
  }

  /** `import` from the normalised header on. */
  method Import(header: seq<string>, raw: seq<seq<string>>, decodeJson: string -> Option<seq<JsonItem>>)
    returns (r: Result<Imported, ImportError>)
    ensures r == Plan(header, raw, decodeJson)
  {
    var h := NormalizeHeader(header);
    var missing := CheckColumns(h);
    if missing.Some? {
      return Err(MissingColumn(missing.value));
    }
    var kept := CollectRows(h, raw);
    if kept.Err? {
      return Err(kept.error);
    }
    var rows := kept.value;
    if rows == [] {
      return Err(NoDataRows);
    }
    var induction := InductionOf(rows[0]);
    var chapters, questions := CreateAll(rows, decodeJson);
    return Ok(Imported(induction, chapters, questions));
  }
}
