/**
 * Assignment creation (functions/assignment-create.js): insert the assignment row, upload its
 * HTML to storage under the new id, record where it went, then attach classes and questions.
 * Each backend call a run makes is listed, in order, so the effects of every path are visible.
 */
module AssignmentCreate {
  import opened Wrappers
  import opened JsValue
  import opened Auth
  import opened Http

  /** The storage bucket holding assignment pages. */
  const Bucket: string := "assignments"

  /**
   * A backend call:
   * `POST /rest/v1/assignments` with one row,
   * `POST <base>/storage/v1/object/assignments/<object>?upsert=true` with the HTML,
   * `DELETE /rest/v1/assignments?id=eq.<id>`,
   * `PATCH /rest/v1/assignments?id=eq.<id>` with `{ storage_path, public_url }`,
   * `POST /rest/v1/assignment_targets` and `POST /rest/v1/assignment_questions` with rows.
   */
  datatype Call =
    | InsertAssignment(row: Row)
    | UploadHtml(objectName: string, content: Value)
    | DeleteAssignment(id: string)
    | PatchAssignment(id: string, storagePath: string, publicUrl: string)
    | InsertTargets(targets: seq<Row>)
    | InsertQuestions(questions: seq<Row>)

  /** The storage upload's outcome. */
  datatype Stored = Stored | NotStored(status: int, text: string)

  /** The 200 body `{ ok: true, assignment_id, public_url }`. */
  datatype Created = Created(assignmentId: Option<Value>, publicUrl: string)

  /** A handler run: the response and the backend calls it made, in order. */
  datatype Outcome = Outcome(response: Response<Created>, calls: seq<Call>)

  /** A property set to `v` in an object literal; `JSON.stringify` drops it when `v` is `undefined`. */
  function Put(row: Row, key: string, v: Option<Value>): (r: Row)
    ensures Field(r, key) == (if v.Some? then v else Field(row, key))
    ensures forall k :: k != key ==> Field(r, k) == Field(row, k)
  {
    if v.Some? then row[key := v.value] else row
  }

  /** The inserted row: the title, `|| null` for the optional texts, and `active: true`. */
  function AssignmentRow(body: Value): (r: Row)
    ensures Field(r, "title") == Prop(body, "title")
    ensures Field(r, "active") == Some(Bool(true))
    ensures forall k :: k in ["description", "section", "due_date"] ==> Field(r, k) == Some(OrNull(Prop(body, k)))
  {
    var r := Put(map[], "title", Prop(body, "title"));
    r["description" := OrNull(Prop(body, "description"))]
     ["section" := OrNull(Prop(body, "section"))]
     ["due_date" := OrNull(Prop(body, "due_date"))]
     ["active" := Bool(true)]
  }

  /** `${assignment.id}/index.html`: a folder per id, so ids that render differently never share an object. */
  function ObjectName(id: Option<Value>): (r: string)
    ensures |r| >= 11 && r[|r| - 11..] == "/index.html" && r[..|r| - 11] == ToStrOpt(id)
    ensures id.Some? && id.value.Str? ==> r == id.value.s + "/index.html"
    ensures id.None? ==> r == "undefined/index.html"
  {
    ToStrOpt(id) + "/index.html"
  }

  /**
   * Where the page is served from: the public endpoint of the path the row records; an
   * unset base URL renders as `undefined`.
   */
  function PublicUrl(base: Option<string>, objectName: string): (r: string)
    ensures r == base.GetOr("undefined") + "/storage/v1/object/public/" + StoragePath(objectName)
  {
    base.GetOr("undefined") + "/storage/v1/object/public/" + Bucket + "/" + objectName
  }

  /** The stored object's path inside storage. */
  function StoragePath(objectName: string): string {
    Bucket + "/" + objectName
  }

  /**
   * The items of an optional list property: `class_ids = []` and `questions = []` default to
   * empty, and anything that is not an array is skipped like an empty one.
   */
  function ListProp(body: Value, key: string): (items: seq<Value>)
    ensures |items| > 0 ==> Prop(body, key) == Some(Arr(items))
    ensures Prop(body, key).Some? && Prop(body, key).value.Arr? ==> items == Prop(body, key).value.items
    ensures !(Prop(body, key).Some? && Prop(body, key).value.Arr?) ==> items == []
  {
    match Prop(body, key)
    case Some(Arr(items)) => items
    case _ => []
  }

  /** `class_ids.map((cid) => ({ assignment_id, class_id: cid }))`. */
  function TargetRows(id: Option<Value>, classIds: seq<Value>): (rows: seq<Row>)
    ensures |rows| == |classIds|
    ensures forall i :: 0 <= i < |rows| ==>
      Field(rows[i], "class_id") == Some(classIds[i]) && Field(rows[i], "assignment_id") == id
  {
    seq(|classIds|, i requires 0 <= i < |classIds| => Put(map["class_id" := classIds[i]], "assignment_id", id))
  }

  /**
   * One question row: its text, `standard_code || null`, and `iep_codes` when it is an array
   * (otherwise `null`). Reading `q.text` of a `null` question throws.
   */
  function QuestionRow(id: Option<Value>, q: Value): (r: Js<Row>)
    ensures r.Ok? <==> q != Null
    ensures r.Ok? ==>
      && Field(r.value, "assignment_id") == id
      && Field(r.value, "text") == Prop(q, "text")
      && Field(r.value, "standard_code") == Some(OrNull(Prop(q, "standard_code")))
      && Field(r.value, "iep_codes") == Some(match Prop(q, "iep_codes") case Some(Arr(c)) => Arr(c) case _ => Null)
  {
    if q.Null? then Throws
    else
      var iep := match Prop(q, "iep_codes") case Some(Arr(c)) => Arr(c) case _ => Null;
      var r := Put(Put(map[], "assignment_id", id), "text", Prop(q, "text"));
      Ok(r["standard_code" := OrNull(Prop(q, "standard_code"))]["iep_codes" := iep])
  }

  /** `questions.map(...)`: one row per question, or a throw at the first `null` one. */
  function QuestionRows(id: Option<Value>, qs: seq<Value>): (r: Js<seq<Row>>)
    ensures r.Ok? <==> forall i :: 0 <= i < |qs| ==> qs[i] != Null
    ensures r.Ok? ==> |r.value| == |qs| && forall i :: 0 <= i < |qs| ==> Ok(r.value[i]) == QuestionRow(id, qs[i])
    decreases |qs|
  {
    if |qs| == 0 then Ok([])
    else
      match QuestionRow(id, qs[0])
      case Throws => Throws
      case Ok(row) =>
        match QuestionRows(id, qs[1..])
        case Throws => Throws
        case Ok(rest) => Ok([row] + rest)
  }

  /** The targets write, only for a non-empty `class_ids` array. */
  function Targets(id: Option<Value>, body: Value): seq<Call> {
    var classIds := ListProp(body, "class_ids");
    if |classIds| > 0 then [InsertTargets(TargetRows(id, classIds))] else []
  }

  /** The optional writes after the patch: targets, then questions, each only for a non-empty list. */
  function Attachments(id: Option<Value>, body: Value, qrows: seq<Row>): seq<Call> {
    Targets(id, body) + (if |ListProp(body, "questions")| > 0 then [InsertQuestions(qrows)] else [])
  }

  /** Some call of the run posts class targets. */
  predicate PostsTargets(calls: seq<Call>) {
    exists i :: 0 <= i < |calls| && calls[i].InsertTargets?
  }

  /** Some call of the run posts questions. */
  predicate PostsQuestions(calls: seq<Call>) {
    exists i :: 0 <= i < |calls| && calls[i].InsertQuestions?
  }

  /** The property holds a non-empty array. */
  predicate NonEmptyArray(v: Option<Value>) {
    v.Some? && v.value.Arr? && |v.value.items| > 0
  }

  /** Everything after the upload succeeded: patch, attach, answer. */
  function Publish(base: Option<string>, body: Value, id: Option<Value>, prefix: seq<Call>): (r: Outcome)
    ensures |r.calls| >= |prefix| + 1 && r.calls[..|prefix|] == prefix
    ensures r.calls[|prefix|] == PatchAssignment(ToStrOpt(id), StoragePath(ObjectName(id)), PublicUrl(base, ObjectName(id)))
    ensures RollsBack(r.calls) <==> RollsBack(prefix)
    ensures r.response.Response? && r.response.setCookie.None?
    ensures r.response.status == 200 <==> QuestionRows(id, ListProp(body, "questions")).Ok?
    ensures r.response.status == 200 ==> r.response.body == Payload(Created(id, PublicUrl(base, ObjectName(id))))
    ensures r.response.status != 200 ==> r.response == Reply(500, ServerError)
    ensures QuestionRows(id, ListProp(body, "questions")).Ok? ==>
      r.calls == prefix + [PatchAssignment(ToStrOpt(id), StoragePath(ObjectName(id)), PublicUrl(base, ObjectName(id)))]
                 + Attachments(id, body, QuestionRows(id, ListProp(body, "questions")).value)
    ensures QuestionRows(id, ListProp(body, "questions")).Throws? ==>
      r.calls == prefix + [PatchAssignment(ToStrOpt(id), StoragePath(ObjectName(id)), PublicUrl(base, ObjectName(id)))]
                 + Targets(id, body)
  {
    var name := ObjectName(id);
    var url := PublicUrl(base, name);
    var calls := prefix + [PatchAssignment(ToStrOpt(id), StoragePath(name), url)];
    var targets := Targets(id, body);
    assert !RollsBack(targets);
    RollsBackConcat(prefix, [PatchAssignment(ToStrOpt(id), StoragePath(name), url)]);
    match QuestionRows(id, ListProp(body, "questions"))
    case Throws =>
      RollsBackConcat(calls, targets);
      Outcome(Reply(500, ServerError), calls + targets)
    case Ok(qrows) =>
      AttachmentsKeep(id, body, qrows);
      RollsBackConcat(calls, Attachments(id, body, qrows));
      Outcome(Reply(200, Payload(Created(id, url))), calls + Attachments(id, body, qrows))
  }

  lemma AttachmentsKeep(id: Option<Value>, body: Value, qrows: seq<Row>)
    ensures !RollsBack(Attachments(id, body, qrows))
  {
    var a := Attachments(id, body, qrows);
    forall i | 0 <= i < |a| ensures !a[i].DeleteAssignment? {
      assert a[i].InsertTargets? || a[i].InsertQuestions?;
    }
  }

  /** A run rolls back when either of its parts does. */
  lemma RollsBackConcat(a: seq<Call>, b: seq<Call>)
    ensures RollsBack(a + b) <==> RollsBack(a) || RollsBack(b)
  {
    if RollsBack(a + b) {
      var i :| 0 <= i < |a + b| && (a + b)[i].DeleteAssignment?;
      if i < |a| { assert a[i] == (a + b)[i]; } else { assert b[i - |a|] == (a + b)[i]; }
    }
    if RollsBack(a) {
      var i :| 0 <= i < |a| && a[i].DeleteAssignment?;
      assert (a + b)[i] == a[i];
    }
    if RollsBack(b) {
      var i :| 0 <= i < |b| && b[i].DeleteAssignment?;
      assert (a + b)[|a| + i] == b[i];
    }
  }

  /** The run `a + b` posts some kind of write when `a` or `b` does. */
  lemma PostsConcat(a: seq<Call>, b: seq<Call>)
    ensures PostsTargets(a + b) <==> PostsTargets(a) || PostsTargets(b)
    ensures PostsQuestions(a + b) <==> PostsQuestions(a) || PostsQuestions(b)
  {
    if PostsTargets(a + b) {
      var i :| 0 <= i < |a + b| && (a + b)[i].InsertTargets?;
      if i < |a| { assert a[i] == (a + b)[i]; } else { assert b[i - |a|] == (a + b)[i]; }
    }
    if PostsQuestions(a + b) {
      var i :| 0 <= i < |a + b| && (a + b)[i].InsertQuestions?;
      if i < |a| { assert a[i] == (a + b)[i]; } else { assert b[i - |a|] == (a + b)[i]; }
    }
    if PostsTargets(a) {
      var i :| 0 <= i < |a| && a[i].InsertTargets?;
      assert (a + b)[i] == a[i];
    }
    if PostsQuestions(a) {
      var i :| 0 <= i < |a| && a[i].InsertQuestions?;
      assert (a + b)[i] == a[i];
    }
    if PostsTargets(b) {
      var i :| 0 <= i < |b| && b[i].InsertTargets?;
      assert (a + b)[|a| + i] == b[i];
    }
    if PostsQuestions(b) {
      var i :| 0 <= i < |b| && b[i].InsertQuestions?;
      assert (a + b)[|a| + i] == b[i];
    }
  }

  /** Every targets write of the run carries `rows`. */
  predicate TargetsAre(calls: seq<Call>, rows: seq<Row>) {
    forall i :: 0 <= i < |calls| && calls[i].InsertTargets? ==> calls[i].targets == rows
  }

  /** Every questions write of the run carries `rows`. */
  predicate QuestionsAre(calls: seq<Call>, rows: seq<Row>) {
    forall i :: 0 <= i < |calls| && calls[i].InsertQuestions? ==> calls[i].questions == rows
  }

  /** A run's writes carry given rows when both of its parts' writes do. */
  lemma RowsConcat(a: seq<Call>, b: seq<Call>, trows: seq<Row>, qrows: seq<Row>)
    requires TargetsAre(a, trows) && TargetsAre(b, trows)
    requires QuestionsAre(a, qrows) && QuestionsAre(b, qrows)
    ensures TargetsAre(a + b, trows) && QuestionsAre(a + b, qrows)
  {
    forall i | |a| <= i < |a + b| ensures (a + b)[i] == b[i - |a|] { }
  }

  /**
   * After a prefix that posts neither targets nor questions, `Publish` posts the targets
   * exactly for a non-empty `class_ids` list, and the questions exactly for a non-empty
   * `questions` list without a `null`; each write carries the rows built from that list.
   */
  lemma PublishPosts(base: Option<string>, body: Value, id: Option<Value>, prefix: seq<Call>)
    requires !PostsTargets(prefix) && !PostsQuestions(prefix)
    ensures var r := Publish(base, body, id, prefix);
      var qrows := QuestionRows(id, ListProp(body, "questions"));
      && (PostsTargets(r.calls) <==> |ListProp(body, "class_ids")| > 0)
      && (PostsQuestions(r.calls) <==> |ListProp(body, "questions")| > 0 && qrows.Ok?)
      && TargetsAre(r.calls, TargetRows(id, ListProp(body, "class_ids")))
      && (qrows.Ok? ==> QuestionsAre(r.calls, qrows.value))
  {
    var patch := PatchAssignment(ToStrOpt(id), StoragePath(ObjectName(id)), PublicUrl(base, ObjectName(id)));
    var qs := ListProp(body, "questions");
    match QuestionRows(id, qs)
    case Throws =>
      PostsAfterPatch(prefix, patch, id, body, [], []);
      assert Publish(base, body, id, prefix).calls == prefix + [patch] + Targets(id, body) + [];
    case Ok(qrows) =>
      var q := if |qs| > 0 then [InsertQuestions(qrows)] else [];
      PostsAfterPatch(prefix, patch, id, body, q, qrows);
      assert Attachments(id, body, qrows) == Targets(id, body) + q;
      assert Publish(base, body, id, prefix).calls == prefix + [patch] + Targets(id, body) + q;
  }

  /** The writes of a run that continues a quiet prefix with the patch, the targets and `q`. */
  lemma PostsAfterPatch(prefix: seq<Call>, patch: Call, id: Option<Value>, body: Value, q: seq<Call>, qrows: seq<Row>)
    requires !PostsTargets(prefix) && !PostsQuestions(prefix) && patch.PatchAssignment?
    requires q == [] || q == [InsertQuestions(qrows)]
    ensures var calls := prefix + [patch] + Targets(id, body) + q;
      && (PostsTargets(calls) <==> |ListProp(body, "class_ids")| > 0)
      && (PostsQuestions(calls) <==> q != [])
      && TargetsAre(calls, TargetRows(id, ListProp(body, "class_ids")))
      && QuestionsAre(calls, qrows)
  {
    var trows := TargetRows(id, ListProp(body, "class_ids"));
    TargetsWrite(id, body, qrows);
    if q != [] { assert q[0].InsertQuestions?; }
    PrefixCarries(prefix, patch, trows, qrows);
    WritesInOrder(prefix + [patch], Targets(id, body), q, trows, qrows);
  }

  /** Patch and earlier calls, then the targets write, then the questions write. */
  lemma WritesInOrder(head: seq<Call>, targets: seq<Call>, q: seq<Call>, trows: seq<Row>, qrows: seq<Row>)
    requires !PostsTargets(head) && !PostsQuestions(head) && TargetsAre(head, trows) && QuestionsAre(head, qrows)
    requires !PostsQuestions(targets) && TargetsAre(targets, trows) && QuestionsAre(targets, qrows)
    requires !PostsTargets(q) && TargetsAre(q, trows) && QuestionsAre(q, qrows)
    ensures PostsTargets(head + targets + q) <==> PostsTargets(targets)
    ensures PostsQuestions(head + targets + q) <==> PostsQuestions(q)
    ensures TargetsAre(head + targets + q, trows) && QuestionsAre(head + targets + q, qrows)
  {
    PostsConcat(head, targets);
    PostsConcat(head + targets, q);
    RowsConcat(head, targets, trows, qrows);
    RowsConcat(head + targets, q, trows, qrows);
  }

  /** The targets write is present exactly for a non-empty `class_ids`, and carries its rows. */
  lemma TargetsWrite(id: Option<Value>, body: Value, qrows: seq<Row>)
    ensures PostsTargets(Targets(id, body)) <==> |ListProp(body, "class_ids")| > 0
    ensures !PostsQuestions(Targets(id, body))
    ensures TargetsAre(Targets(id, body), TargetRows(id, ListProp(body, "class_ids")))
    ensures QuestionsAre(Targets(id, body), qrows)
  {
    if |ListProp(body, "class_ids")| > 0 {
      assert Targets(id, body) == [InsertTargets(TargetRows(id, ListProp(body, "class_ids")))];
      assert Targets(id, body)[0].InsertTargets?;
    } else {
      assert Targets(id, body) == [];
    }
  }

  /** A prefix with no targets or questions writes, followed by the patch, carries any rows. */
  lemma PrefixCarries(prefix: seq<Call>, patch: Call, trows: seq<Row>, qrows: seq<Row>)
    requires !PostsTargets(prefix) && !PostsQuestions(prefix) && patch.PatchAssignment?
    ensures TargetsAre(prefix + [patch], trows) && QuestionsAre(prefix + [patch], qrows)
  {
    PostsConcat(prefix, [patch]);
  }

  /** Everything after the insert returned its rows: upload, and undo the insert if that fails. */
  function Store(base: Option<string>, body: Value, rows: seq<Row>, stored: Stored, insert: Call): (r: Outcome)
    ensures |rows| == 0 ==> r == Outcome(Reply(500, ServerError), [insert])
    ensures |rows| > 0 ==>
      && |r.calls| >= 2 && r.calls[0] == insert
      && r.calls[1] == UploadHtml(ObjectName(Field(rows[0], "id")), Prop(body, "htmlText").GetOr(Null))
    ensures |rows| > 0 && stored.NotStored? ==>
      && r.response == Reply(stored.status, Text("Upload failed: " + stored.text))
      && r.calls == [insert, r.calls[1], DeleteAssignment(ToStrOpt(Field(rows[0], "id")))]
    ensures |rows| > 0 && stored.Stored? ==>
      r == Publish(base, body, Field(rows[0], "id"), [insert, r.calls[1]])
  {
    if |rows| == 0 then Outcome(Reply(500, ServerError), [insert])
    else
      var id := Field(rows[0], "id");
      var upload := UploadHtml(ObjectName(id), Prop(body, "htmlText").GetOr(Null));
      match stored
      case NotStored(status, text) =>
        Outcome(Reply(status, Text("Upload failed: " + text)), [insert, upload, DeleteAssignment(ToStrOpt(id))])
      case Stored => Publish(base, body, id, [insert, upload])
  }

  /** The `try` block: parse, validate, insert, then store. */
  function Create(pr: Primitives, reqBody: Option<string>, base: Option<string>, inserted: Fetched<Row>, stored: Stored): (r: Outcome)
    ensures DestructuredBody(pr, reqBody).Throws? ==> r == Outcome(Reply(500, ServerError), [])
    ensures r.calls == [] ==> r.response.Response? && r.response.status in {400, 500}
    ensures DestructuredBody(pr, reqBody).Ok? ==>
      var body := DestructuredBody(pr, reqBody).value;
      if !TruthyOpt(Prop(body, "title")) || !TruthyOpt(Prop(body, "htmlText"))
      then r == Outcome(Reply(400, Text("title and htmlText are required")), [])
      else
        && |r.calls| >= 1 && r.calls[0] == InsertAssignment(AssignmentRow(body))
        && (inserted.Failed? ==> r == Outcome(Reply(inserted.status, Text(inserted.shown)), r.calls[..1]))
        && (inserted.Rows? ==> r == Store(base, body, inserted.rows, stored, r.calls[0]))
  {
    match DestructuredBody(pr, reqBody)
    case Throws => Outcome(Reply(500, ServerError), [])
    case Ok(body) =>
      if !TruthyOpt(Prop(body, "title")) || !TruthyOpt(Prop(body, "htmlText"))
      then Outcome(Reply(400, Text("title and htmlText are required")), [])
      else
        var insert := InsertAssignment(AssignmentRow(body));
        match inserted
        case Failed(status, shown) => Outcome(Reply(status, Text(shown)), [insert])
        case Rows(rows) => Store(base, body, rows, stored, insert)
  }

  /**
   * `handler(event)` with the insert's and the upload's outcomes supplied. `base` is the
   * deployment's SUPABASE_URL.
   */
  function Handle(pr: Primitives, req: Request, secret: Option<string>, now: int,
                  base: Option<string>, inserted: Fetched<Row>, stored: Stored): (r: Outcome)
    ensures TeacherGate<Created>(pr, req, "POST", secret, now).Some? ==>
      r.calls == [] && r.response == TeacherGate<Created>(pr, req, "POST", secret, now).value
    ensures TeacherGate<Created>(pr, req, "POST", secret, now).None? ==>
      r == Create(pr, req.body, base, inserted, stored)
  {
    match TeacherGate(pr, req, "POST", secret, now)
    case Some(stop) => Outcome(stop, [])
    case None => Create(pr, req.body, base, inserted, stored)
  }

  /** The body carries the two required fields. */
  predicate Valid(body: Value) {
    TruthyOpt(Prop(body, "title")) && TruthyOpt(Prop(body, "htmlText"))
  }

  /** Some call of the run deletes an assignment. */
  predicate RollsBack(calls: seq<Call>) {
    exists i :: 0 <= i < |calls| && calls[i].DeleteAssignment?
  }

  /**
   * The inserted row is deleted exactly when it was inserted and its page could not be
   * uploaded; no other path undoes anything.
   */
  lemma RollbackExactlyOnUploadFailure(pr: Primitives, reqBody: Option<string>, base: Option<string>, inserted: Fetched<Row>, stored: Stored)
    ensures RollsBack(Create(pr, reqBody, base, inserted, stored).calls) <==>
      && DestructuredBody(pr, reqBody).Ok? && Valid(DestructuredBody(pr, reqBody).value)
      && inserted.Rows? && |inserted.rows| > 0 && stored.NotStored?
  {
    if DestructuredBody(pr, reqBody).Ok? && Valid(DestructuredBody(pr, reqBody).value) && inserted.Rows? {
      StoreRollsBack(base, DestructuredBody(pr, reqBody).value, inserted.rows, stored,
        InsertAssignment(AssignmentRow(DestructuredBody(pr, reqBody).value)));
    } else if DestructuredBody(pr, reqBody).Ok? && Valid(DestructuredBody(pr, reqBody).value) {
      assert Create(pr, reqBody, base, inserted, stored).calls == [InsertAssignment(AssignmentRow(DestructuredBody(pr, reqBody).value))];
    }
  }

  /** After the insert, only a failed upload of a returned row undoes it. */
  lemma StoreRollsBack(base: Option<string>, body: Value, rows: seq<Row>, stored: Stored, insert: Call)
    requires insert.InsertAssignment?
    ensures RollsBack(Store(base, body, rows, stored, insert).calls) <==> |rows| > 0 && stored.NotStored?
  {
    var r := Store(base, body, rows, stored, insert);
    if |rows| > 0 && stored.NotStored? {
      assert r.calls[2].DeleteAssignment?;
    } else if |rows| > 0 {
      var prefix := r.calls[..2];
      assert !RollsBack(prefix) by {
        assert prefix == [prefix[0], prefix[1]];
      }
    } else {
      assert r.calls == [insert];
    }
  }

  /**
   * A created assignment's page is uploaded under `<id>/index.html`, and the row is patched
   * with that storage path and with the very URL the response returns.
   */
  lemma CreatedPageIsRecorded(pr: Primitives, reqBody: Option<string>, base: Option<string>, inserted: Fetched<Row>, stored: Stored)
    requires Create(pr, reqBody, base, inserted, stored).response.Response?
    requires Create(pr, reqBody, base, inserted, stored).response.body.Payload?
    ensures var r := Create(pr, reqBody, base, inserted, stored);
      var created := r.response.body.payload;
      var name := ObjectName(created.assignmentId);
      && r.response.status == 200
      && |r.calls| >= 3 && r.calls[1].UploadHtml? && r.calls[1].objectName == name
      && r.calls[2] == PatchAssignment(ToStrOpt(created.assignmentId), StoragePath(name), created.publicUrl)
      && created.publicUrl == PublicUrl(base, name)
      && !RollsBack(r.calls)
  {
    var r := Create(pr, reqBody, base, inserted, stored);
    assert DestructuredBody(pr, reqBody).Ok?;
    var body := DestructuredBody(pr, reqBody).value;
    assert Valid(body) && inserted.Rows? && |inserted.rows| > 0 && stored.Stored?;
    StoredPageIsRecorded(base, body, inserted.rows, r.calls[0]);
  }

  /** After an upload that succeeded, the patch records the uploaded object and the URL returned. */
  lemma StoredPageIsRecorded(base: Option<string>, body: Value, rows: seq<Row>, insert: Call)
    requires |rows| > 0 && insert.InsertAssignment?
    ensures var r := Store(base, body, rows, Stored, insert);
      var id := Field(rows[0], "id");
      var name := ObjectName(id);
      && |r.calls| >= 3 && r.calls[1].UploadHtml? && r.calls[1].objectName == name
      && r.calls[2] == PatchAssignment(ToStrOpt(id), StoragePath(name), PublicUrl(base, name))
      && (r.response.body.Payload? ==> r.response.status == 200 && r.response.body.payload == Created(id, PublicUrl(base, name)))
      && !RollsBack(r.calls)
  {
    StoreRollsBack(base, body, rows, Stored, insert);
  }

  /**
   * A `null` among the questions fails the request with 500 only after the assignment was
   * inserted, uploaded and patched, and nothing is undone: the assignment stays.
   */
  lemma NullQuestionLeavesAssignment(pr: Primitives, reqBody: Option<string>, base: Option<string>, rows: seq<Row>, i: int)
    requires DestructuredBody(pr, reqBody).Ok? && Valid(DestructuredBody(pr, reqBody).value)
    requires |rows| > 0
    requires 0 <= i < |ListProp(DestructuredBody(pr, reqBody).value, "questions")|
    requires ListProp(DestructuredBody(pr, reqBody).value, "questions")[i] == Null
    ensures var r := Create(pr, reqBody, base, Rows(rows), Stored);
      && r.response == Reply(500, ServerError)
      && r.calls[0].InsertAssignment? && r.calls[2].PatchAssignment?
      && !RollsBack(r.calls)
  {
    RollbackExactlyOnUploadFailure(pr, reqBody, base, Rows(rows), Stored);
  }

  /** The run got as far as the patch: a valid body, an inserted row and a stored page. */
  predicate Published(pr: Primitives, reqBody: Option<string>, inserted: Fetched<Row>, stored: Stored) {
    && DestructuredBody(pr, reqBody).Ok? && Valid(DestructuredBody(pr, reqBody).value)
    && inserted.Rows? && |inserted.rows| > 0 && stored.Stored?
  }

  /**
   * Over every request, the class targets are posted exactly when the run got as far as the
   * patch and `class_ids` is a non-empty array, and they are one row per class id, each for
   * the new assignment.
   */
  lemma TargetsPostedIff(pr: Primitives, reqBody: Option<string>, base: Option<string>, inserted: Fetched<Row>, stored: Stored)
    ensures PostsTargets(Create(pr, reqBody, base, inserted, stored).calls) <==>
      Published(pr, reqBody, inserted, stored) && NonEmptyArray(Prop(DestructuredBody(pr, reqBody).value, "class_ids"))
    ensures Published(pr, reqBody, inserted, stored) ==>
      TargetsAre(Create(pr, reqBody, base, inserted, stored).calls,
                 TargetRows(Field(inserted.rows[0], "id"), ListProp(DestructuredBody(pr, reqBody).value, "class_ids")))
  {
    CreateWrites(pr, reqBody, base, inserted, stored);
  }

  /**
   * Over every request, the questions are posted exactly when the run got as far as the
   * patch and `questions` is a non-empty array without a `null`, and they are the rows built
   * from that array for the new assignment.
   */
  lemma QuestionsPostedIff(pr: Primitives, reqBody: Option<string>, base: Option<string>, inserted: Fetched<Row>, stored: Stored)
    ensures PostsQuestions(Create(pr, reqBody, base, inserted, stored).calls) <==>
      && Published(pr, reqBody, inserted, stored)
      && NonEmptyArray(Prop(DestructuredBody(pr, reqBody).value, "questions"))
      && Null !in ListProp(DestructuredBody(pr, reqBody).value, "questions")
    ensures Published(pr, reqBody, inserted, stored) ==>
      var qrows := QuestionRows(Field(inserted.rows[0], "id"), ListProp(DestructuredBody(pr, reqBody).value, "questions"));
      qrows.Ok? ==> QuestionsAre(Create(pr, reqBody, base, inserted, stored).calls, qrows.value)
  {
    CreateWrites(pr, reqBody, base, inserted, stored);
  }

  /** `Create` either reaches `Publish` after the insert and the upload, or posts nothing. */
  lemma CreateWrites(pr: Primitives, reqBody: Option<string>, base: Option<string>, inserted: Fetched<Row>, stored: Stored)
    ensures var r := Create(pr, reqBody, base, inserted, stored);
      if Published(pr, reqBody, inserted, stored) then
        var body := DestructuredBody(pr, reqBody).value;
        var id := Field(inserted.rows[0], "id");
        var qrows := QuestionRows(id, ListProp(body, "questions"));
        && (PostsTargets(r.calls) <==> |ListProp(body, "class_ids")| > 0)
        && (PostsQuestions(r.calls) <==> |ListProp(body, "questions")| > 0 && qrows.Ok?)
        && TargetsAre(r.calls, TargetRows(id, ListProp(body, "class_ids")))
        && (qrows.Ok? ==> QuestionsAre(r.calls, qrows.value))
      else !PostsTargets(r.calls) && !PostsQuestions(r.calls)
  {
    var r := Create(pr, reqBody, base, inserted, stored);
    if DestructuredBody(pr, reqBody).Ok? && Valid(DestructuredBody(pr, reqBody).value) && inserted.Rows? {
      var body := DestructuredBody(pr, reqBody).value;
      StoreWrites(base, body, inserted.rows, stored, InsertAssignment(AssignmentRow(body)));
    } else if DestructuredBody(pr, reqBody).Ok? && Valid(DestructuredBody(pr, reqBody).value) {
      assert r.calls == [InsertAssignment(AssignmentRow(DestructuredBody(pr, reqBody).value))];
    } else {
      assert r.calls == [];
    }
  }

  /** `Store` reaches `Publish` after a quiet prefix when the page was stored, and posts nothing otherwise. */
  lemma StoreWrites(base: Option<string>, body: Value, rows: seq<Row>, stored: Stored, insert: Call)
    requires insert.InsertAssignment?
    ensures var r := Store(base, body, rows, stored, insert);
      if |rows| > 0 && stored.Stored? then
        var id := Field(rows[0], "id");
        var qrows := QuestionRows(id, ListProp(body, "questions"));
        && (PostsTargets(r.calls) <==> |ListProp(body, "class_ids")| > 0)
        && (PostsQuestions(r.calls) <==> |ListProp(body, "questions")| > 0 && qrows.Ok?)
        && TargetsAre(r.calls, TargetRows(id, ListProp(body, "class_ids")))
        && (qrows.Ok? ==> QuestionsAre(r.calls, qrows.value))
      else !PostsTargets(r.calls) && !PostsQuestions(r.calls)
  {
    var r := Store(base, body, rows, stored, insert);
    if |rows| > 0 && stored.Stored? {
      var prefix := [insert, r.calls[1]];
      assert !PostsTargets(prefix) && !PostsQuestions(prefix);
      PublishPosts(base, body, Field(rows[0], "id"), prefix);
    } else if |rows| > 0 {
      assert r.calls == [insert, r.calls[1], r.calls[2]];
    } else {
      assert r.calls == [insert];
    }
  }

  /** A request with no body is refused before anything is written. */
  lemma EmptyBodyWritesNothing(pr: Primitives, reqBody: Option<string>, base: Option<string>, inserted: Fetched<Row>, stored: Stored)
    requires Lawful(pr)
    requires reqBody.None? || reqBody == Some("")
    ensures Create(pr, reqBody, base, inserted, stored) == Outcome(Reply(400, Text("title and htmlText are required")), [])
  {
  }
}
