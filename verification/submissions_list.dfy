/**
 * The teacher's view of one assignment's submissions (functions/submissions-list.js),
 * optionally narrowed to the students of one class.
 */
module SubmissionsList {
  import opened Wrappers
  import opened Seqs
  import opened JsValue
  import opened Auth
  import opened Http

  /** The 200 body `{ submissions }`. */
  datatype Listed = Listed(submissions: seq<Row>)

  /** A handler run: the response and the backend calls it made, in order. */
  datatype Outcome = Outcome(response: Response<Listed>, calls: seq<Call>)

  /** A backend read: one assignment's submissions, newest first, or the ids of one class's students. */
  datatype Call = SubmissionsOf(assignmentId: string) | StudentsOf(classId: string)

  /** The REST path each read requests. */
  function Path(c: Call): string {
    match c
    case SubmissionsOf(a) =>
      "/rest/v1/submissions?select=id,assignment_id,student_id,student_name,content,content_url,submitted_at&assignment_id=eq."
      + a + "&order=submitted_at.desc"
    case StudentsOf(c) => "/rest/v1/students?select=id&class_id=eq." + c
  }

  /** `new Set((studentIds.data || []).map((r) => r.id))`. */
  function RosterIds(roster: seq<Row>): set<Option<Value>> {
    set i | 0 <= i < |roster| :: Field(roster[i], "id")
  }

  /** The row test of the class filter: a truthy `student_id` that the class roster holds. */
  predicate InClass(ids: set<Option<Value>>, s: Row) {
    TruthyOpt(Field(s, "student_id")) && Field(s, "student_id") in ids
  }

  /**
   * `S.data.filter(...)`: the submissions of students in the class, in their original order.
   * A row is kept iff its `student_id` is truthy and on the roster.
   */
  function ClassFilter(subs: seq<Row>, roster: seq<Row>): (r: seq<Row>)
    ensures IsSubseq(r, subs)
    ensures forall s :: s in r <==> s in subs && InClass(RosterIds(roster), s)
    ensures forall s :: multiset(r)[s] == if InClass(RosterIds(roster), s) then multiset(subs)[s] else 0
  {
    var ids := RosterIds(roster);
    var r := Filter(subs, s => InClass(ids, s));
    SubseqMembers(r, subs);
    FilterMultiplicity(subs, s => InClass(ids, s));
    assert forall s :: s in r ==> InClass(ids, s) by {
      forall s | s in r ensures InClass(ids, s) {
        var i :| 0 <= i < |r| && r[i] == s;
      }
    }
    r
  }

  /** What the submissions read turns into, once it succeeded with `rows`. */
  function Shaped(rows: seq<Row>, classId: Option<string>, roster: Fetched<Row>): (r: Response<Listed>)
    ensures r.Response?
    ensures Given(classId) && roster.Failed? ==> r == Reply(roster.status, Text(roster.shown))
    ensures !Given(classId) ==> r == Reply(200, Payload(Listed(rows)))
    ensures Given(classId) && roster.Rows? ==> r == Reply(200, Payload(Listed(ClassFilter(rows, roster.rows))))
    ensures r.body.Payload? ==>
      && r.status == 200
      && IsSubseq(r.body.payload.submissions, rows)
      && (Given(classId) ==> roster.Rows? && forall s :: s in r.body.payload.submissions <==>
            s in rows && InClass(RosterIds(roster.rows), s))
  {
    if !Given(classId) then
      SubseqRefl(rows);
      Reply(200, Payload(Listed(rows)))
    else
      match roster
      case Failed(status, shown) => Reply(status, Text(shown))
      case Rows(students) => Reply(200, Payload(Listed(ClassFilter(rows, students))))
  }

  /** Everything after authorisation: the parameter check, the backend reads and the filter. */
  function Listing(assignmentId: Option<string>, classId: Option<string>, subs: Fetched<Row>, roster: Fetched<Row>): (r: Outcome)
    ensures !Given(assignmentId) ==> r == Outcome(Reply(400, Text("assignment_id required")), [])
    ensures Given(assignmentId) ==> |r.calls| >= 1 && r.calls[0] == SubmissionsOf(assignmentId.value)
    ensures |r.calls| == (if !Given(assignmentId) then 0
                          else if subs.Failed? || !Given(classId) then 1 else 2)
    ensures Given(assignmentId) && subs.Rows? && Given(classId) ==>
      r.calls == [SubmissionsOf(assignmentId.value), StudentsOf(classId.value)]
    ensures Given(assignmentId) && subs.Failed? ==> r.response == Reply(subs.status, Text(subs.shown))
    ensures Given(assignmentId) && subs.Rows? ==> r.response == Shaped(subs.rows, classId, roster)
  {
    if !Given(assignmentId) then Outcome(Reply(400, Text("assignment_id required")), [])
    else
      var first := [SubmissionsOf(assignmentId.value)];
      match subs
      case Failed(status, shown) => Outcome(Reply(status, Text(shown)), first)
      case Rows(rows) =>
        var calls := if Given(classId) then first + [StudentsOf(classId.value)] else first;
        Outcome(Shaped(rows, classId, roster), calls)
  }

  /** `handler(event)` with the two backend reads supplied as their outcomes. */
  function Handle(pr: Primitives, req: Request, secret: Option<string>, now: int,
                  subs: Fetched<Row>, roster: Fetched<Row>): (r: Outcome)
    ensures TeacherGate<Listed>(pr, req, "GET", secret, now).Some? ==>
      r.calls == [] && r.response == TeacherGate<Listed>(pr, req, "GET", secret, now).value
    ensures TeacherGate<Listed>(pr, req, "GET", secret, now).None? ==>
      r == Listing(Param(req, "assignment_id"), Param(req, "class_id"), subs, roster)
  {
    match TeacherGate(pr, req, "GET", secret, now)
    case Some(stop) => Outcome(stop, [])
    case None => Listing(Param(req, "assignment_id"), Param(req, "class_id"), subs, roster)
  }

  /** Every sequence is a subsequence of itself. */
  lemma {:induction false} SubseqRefl<T>(xs: seq<T>)
    ensures IsSubseq(xs, xs)
    decreases |xs|
  {
    if |xs| > 0 {
      SubseqRefl(xs[1..]);
    }
  }

  /** Narrowing to a class twice is narrowing once. */
  lemma ClassFilterIdempotent(subs: seq<Row>, roster: seq<Row>)
    ensures ClassFilter(ClassFilter(subs, roster), roster) == ClassFilter(subs, roster)
  {
    var ids := RosterIds(roster);
    FilterIdempotent(subs, s => InClass(ids, s));
  }

  /** An empty class roster leaves no submissions. */
  lemma EmptyClassListsNothing(subs: seq<Row>)
    ensures ClassFilter(subs, []) == []
  {
    var none: set<Option<Value>> := {};
    assert RosterIds([]) == none;
    FilterNone(subs, s => InClass(none, s));
  }
}
