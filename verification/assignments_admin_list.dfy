/**
 * The teacher's assignment list (functions/assignments-admin-list.js): assignments, plus
 * per-assignment submitted/missing counts against a class roster when a class is given.
 */
module AssignmentsAdminList {
  import opened Wrappers
  import opened Strings
  import opened Seqs
  import opened JsValue
  import opened Auth
  import opened Http

  /** `{ submitted, missing }` for one assignment. */
  datatype Count = Count(submitted: nat, missing: nat)

  /** The 200 body `{ assignments, counts }`; `counts` is keyed by the assignment id as a property key. */
  datatype AdminList = AdminList(assignments: seq<Row>, counts: map<string, Count>)

  /** A handler run: the response and the backend reads it made, in order. */
  datatype Outcome = Outcome(response: Response<AdminList>, calls: seq<Call>)

  /** The student ids that `byAssign` collects for one assignment; `None` is `undefined`. */
  type Submitted = set<Option<Value>>

  /** The property key `byAssign[s.assignment_id]` / `counts[asn.id]` uses. */
  function AssignmentKey(row: Row, idField: string): string {
    ToStrOpt(Field(row, idField))
  }

  /**
   * `s.student_id || s.student_name?.toLowerCase().trim()`: the id when truthy, otherwise the
   * normalised name; a name that is neither a string nor nullish has no `toLowerCase` and throws.
   */
  function SubmissionKey(s: Row): (r: Js<Option<Value>>)
    ensures TruthyOpt(Field(s, "student_id")) ==> r == Ok(Field(s, "student_id"))
    ensures !TruthyOpt(Field(s, "student_id")) && r.Ok? && r.value.Some? ==>
      && Field(s, "student_name").Some? && Field(s, "student_name").value.Str?
      && r.value.value == Str(Trim(Lower(Field(s, "student_name").value.s)))
    ensures !TruthyOpt(Field(s, "student_id")) && Field(s, "student_name") in {None, Some(Null)} ==> r == Ok(None)
    ensures !TruthyOpt(Field(s, "student_id")) && Field(s, "student_name").Some? && Field(s, "student_name").value.Str? ==>
      r == Ok(Some(Str(Trim(Lower(Field(s, "student_name").value.s)))))
    ensures (!TruthyOpt(Field(s, "student_id")) && Field(s, "student_name").Some?
             && !Field(s, "student_name").value.Null? && !Field(s, "student_name").value.Str?) ==> r == Throws
  {
    var id := Field(s, "student_id");
    if TruthyOpt(id) then Ok(id)
    else
      match Field(s, "student_name")
      case None => Ok(None)
      case Some(Null) => Ok(None)
      case Some(Str(name)) => Ok(Some(Str(Trim(Lower(name)))))
      case Some(_) => Throws
  }

  /** Some submission, at index `i`, is for assignment key `a` with student key `k`. */
  predicate SubmittedAt(subs: seq<Row>, i: int, a: string, k: Option<Value>)
    requires 0 <= i < |subs|
  {
    AssignmentKey(subs[i], "assignment_id") == a && SubmissionKey(subs[i]) == Ok(k)
  }

  /** Some submission is for assignment key `a` with student key `k`. */
  predicate SubmittedBy(subs: seq<Row>, a: string, k: Option<Value>) {
    exists i :: 0 <= i < |subs| && SubmittedAt(subs, i, a, k)
  }

  /** `byAssign[asn.id] || new Set()`. */
  function SubmittedFor(g: map<string, Submitted>, a: string): Submitted {
    if a in g then g[a] else {}
  }

  /** An (assignment key, student key) pair: what one submission contributes to `byAssign`. */
  type Pair = (string, Option<Value>)

  /** Each submission's pair, in order; the first key that throws makes the loop throw. */
  function Keys(subs: seq<Row>): (r: Js<seq<Pair>>)
    ensures r.Ok? <==> forall i :: 0 <= i < |subs| ==> SubmissionKey(subs[i]).Ok?
    ensures r.Ok? ==> |r.value| == |subs|
    ensures r.Ok? ==> forall i :: 0 <= i < |subs| ==> r.value[i] == (AssignmentKey(subs[i], "assignment_id"), SubmissionKey(subs[i]).value)
    decreases |subs|
  {
    if |subs| == 0 then Ok([])
    else
      var init := subs[..|subs| - 1];
      var s := subs[|subs| - 1];
      assert forall i :: 0 <= i < |init| ==> init[i] == subs[i];
      match Keys(init)
      case Throws => Throws
      case Ok(pairs) =>
        match SubmissionKey(s)
        case Throws => Throws
        case Ok(k) => Ok(pairs + [(AssignmentKey(s, "assignment_id"), k)])
  }

  /** The body of the `byAssign` loop over already computed pairs. */
  function GroupPairs(pairs: seq<Pair>): (g: map<string, Submitted>)
    ensures forall a, k :: a in g && k in g[a] <==> (a, k) in pairs
    decreases |pairs|
  {
    if |pairs| == 0 then map[]
    else
      var init := pairs[..|pairs| - 1];
      var (a, k) := pairs[|pairs| - 1];
      assert pairs == init + [(a, k)];
      var g := GroupPairs(init);
      g[a := SubmittedFor(g, a) + {k}]
  }

  /**
   * The `byAssign` loop: for each assignment key, the set of student keys submitted for it.
   * A student key is in an assignment's set iff some submission carries both, so repeated
   * submissions are one member. Any submission whose key throws makes the whole loop throw.
   */
  function Group(subs: seq<Row>): (r: Js<map<string, Submitted>>)
    ensures r.Ok? <==> forall i :: 0 <= i < |subs| ==> SubmissionKey(subs[i]).Ok?
    ensures r.Ok? ==> forall a, k :: a in r.value && k in r.value[a] <==> SubmittedBy(subs, a, k)
  {
    match Keys(subs)
    case Throws => Throws
    case Ok(pairs) =>
      var g := GroupPairs(pairs);
      PairsAreSubmissions(subs, pairs);
      Ok(g)
  }

  /** The pairs of `Keys` are exactly the (assignment key, student key) of some submission. */
  lemma PairsAreSubmissions(subs: seq<Row>, pairs: seq<Pair>)
    requires Keys(subs) == Ok(pairs)
    ensures forall a, k :: (a, k) in pairs <==> SubmittedBy(subs, a, k)
  {
    forall a, k ensures (a, k) in pairs <==> SubmittedBy(subs, a, k) {
      if (a, k) in pairs {
        var i :| 0 <= i < |pairs| && pairs[i] == (a, k);
        assert SubmittedAt(subs, i, a, k);
      }
      if SubmittedBy(subs, a, k) {
        var i :| 0 <= i < |subs| && SubmittedAt(subs, i, a, k);
        assert pairs[i] == (a, k);
      }
    }
  }

  /**
   * `submitted`/`missing` of one assignment: how many roster entries are, and are not, in its
   * submitted set. Roster entries are counted per occurrence, so the two always add up to the
   * roster length.
   */
  function Tally(enrolled: seq<Option<Value>>, done: Submitted): (c: Count)
    ensures c.submitted + c.missing == |enrolled|
    ensures c.submitted == |Filter(enrolled, id => id in done)|
  {
    FilterPartition(enrolled, id => id in done, id => id !in done);
    Count(|Filter(enrolled, id => id in done)|, |Filter(enrolled, id => id !in done)|)
  }

  /** `(roster.data || []).map((r) => r.id)`. */
  function Enrolled(roster: seq<Row>): (ids: seq<Option<Value>>)
    ensures |ids| == |roster|
  {
    seq(|roster|, i requires 0 <= i < |roster| => Field(roster[i], "id"))
  }

  /** The set of property keys of the returned assignments. */
  function AssignmentKeys(assignments: seq<Row>): set<string> {
    set i | 0 <= i < |assignments| :: AssignmentKey(assignments[i], "id")
  }

  /** The loop over `A.data`: one entry per returned assignment key. */
  function CountsFor(assignments: seq<Row>, g: map<string, Submitted>, enrolled: seq<Option<Value>>): (counts: map<string, Count>)
    ensures counts.Keys == AssignmentKeys(assignments)
    ensures forall a :: a in counts ==> counts[a] == Tally(enrolled, SubmittedFor(g, a))
    decreases |assignments|
  {
    if |assignments| == 0 then map[]
    else
      var init := assignments[..|assignments| - 1];
      var a := AssignmentKey(assignments[|assignments| - 1], "id");
      assert AssignmentKeys(assignments) == AssignmentKeys(init) + {a} by {
        assert forall i :: 0 <= i < |init| ==> init[i] == assignments[i];
      }
      CountsFor(init, g, enrolled)[a := Tally(enrolled, SubmittedFor(g, a))]
  }

  /**
   * A backend read: the assignments (newest first; only those targeted at the class when one
   * is given), all submissions, or one class's students.
   */
  datatype Call = Assignments(forClass: Option<string>) | AllSubmissions | StudentsOf(classId: string)

  /** The REST path each read requests. */
  function Path(c: Call): string {
    match c
    case Assignments(classId) =>
      "/rest/v1/assignments?order=created_at.desc"
      + if Given(classId)
        then "&select=*,assignment_targets!inner(class_id)&assignment_targets.class_id=eq." + classId.value
        else "&select=*"
    case AllSubmissions => "/rest/v1/submissions?select=id,assignment_id,student_id,student_name&order=submitted_at.desc"
    case StudentsOf(c) => "/rest/v1/students?select=id,name,class_id&class_id=eq." + c
  }

  /** Everything after authorisation: the backend reads and the shaping of their results. */
  function Listing(classId: Option<string>, assignments: Fetched<Row>, subs: Fetched<Row>, roster: Fetched<Row>): (r: Outcome)
    ensures r.calls == if assignments.Rows? && Given(classId)
                       then [Assignments(classId), AllSubmissions, StudentsOf(classId.value)]
                       else [Assignments(classId)]
    ensures assignments.Failed? ==> r.response == Reply(assignments.status, Text(assignments.shown))
    ensures assignments.Rows? && !Given(classId) ==> r.response == Reply(200, Payload(AdminList(assignments.rows, map[])))
    ensures Given(classId) && assignments.Rows? && (subs.Failed? || roster.Failed?) ==>
      r.response == Reply(200, Payload(AdminList(assignments.rows, map[])))
    ensures r.response.Response? && r.response.body.Payload? && r.response.body.payload.counts != map[] ==>
      Given(classId) && subs.Rows? && roster.Rows? && Group(subs.rows).Ok?
    ensures (Given(classId) && assignments.Rows? && subs.Rows? && roster.Rows? && Group(subs.rows).Throws?) ==>
      r.response == Reply(500, ServerError)
    ensures (Given(classId) && assignments.Rows? && subs.Rows? && roster.Rows? && Group(subs.rows).Ok?) ==>
      && r.response.Response? && r.response.status == 200
      && r.response.body.Payload? && r.response.body.payload.assignments == assignments.rows
      && r.response.body.payload.counts.Keys == AssignmentKeys(assignments.rows)
      && (forall a :: a in r.response.body.payload.counts ==>
           r.response.body.payload.counts[a] == Tally(Enrolled(roster.rows), SubmittedFor(Group(subs.rows).value, a)))
      && (forall a :: a in r.response.body.payload.counts ==>
           r.response.body.payload.counts[a].submitted + r.response.body.payload.counts[a].missing == |roster.rows|)
  {
    var first := [Assignments(classId)];
    match assignments
    case Failed(status, shown) => Outcome(Reply(status, Text(shown)), first)
    case Rows(asns) =>
      if !Given(classId) then Outcome(Reply(200, Payload(AdminList(asns, map[]))), first)
      else
        var calls := first + [AllSubmissions, StudentsOf(classId.value)];
        if subs.Failed? || roster.Failed? then Outcome(Reply(200, Payload(AdminList(asns, map[]))), calls)
        else
          match Group(subs.rows)
          case Throws => Outcome(Reply(500, ServerError), calls)
          case Ok(g) => Outcome(Reply(200, Payload(AdminList(asns, CountsFor(asns, g, Enrolled(roster.rows))))), calls)
  }

  /**
   * `handler(event)` with the three backend reads supplied as their outcomes. A request the
   * gate stops makes no backend read.
   */
  function Handle(pr: Primitives, req: Request, secret: Option<string>, now: int,
                  assignments: Fetched<Row>, subs: Fetched<Row>, roster: Fetched<Row>): (r: Outcome)
    ensures TeacherGate<AdminList>(pr, req, "GET", secret, now).Some? ==>
      r.calls == [] && r.response == TeacherGate<AdminList>(pr, req, "GET", secret, now).value
    ensures TeacherGate<AdminList>(pr, req, "GET", secret, now).None? ==>
      r == Listing(Param(req, "class_id"), assignments, subs, roster)
  {
    match TeacherGate(pr, req, "GET", secret, now)
    case Some(stop) => Outcome(stop, [])
    case None => Listing(Param(req, "class_id"), assignments, subs, roster)
  }

  /** An assignment nobody submitted for has `submitted = 0` and `missing` = the roster length. */
  lemma UnsubmittedAssignmentAllMissing(enrolled: seq<Option<Value>>, g: map<string, Submitted>, a: string)
    requires a !in g
    ensures Tally(enrolled, SubmittedFor(g, a)) == Count(0, |enrolled|)
  {
    FilterNone(enrolled, id => id in SubmittedFor(g, a));
  }

  /** A pair already grouped adds nothing when it comes again. */
  lemma {:induction false} GroupPairsRepeat(pairs: seq<Pair>, p: Pair)
    requires p.0 in GroupPairs(pairs) && p.1 in GroupPairs(pairs)[p.0]
    ensures GroupPairs(pairs + [p]) == GroupPairs(pairs)
  {
    assert (pairs + [p])[..|pairs|] == pairs;
    var g := GroupPairs(pairs);
    assert SubmittedFor(g, p.0) + {p.1} == g[p.0];
    assert g[p.0 := g[p.0]] == g;
  }

  /** Appending a submission whose key does not throw appends its pair. */
  lemma KeysAppend(subs: seq<Row>, s: Row)
    requires Keys(subs).Ok? && SubmissionKey(s).Ok?
    ensures Keys(subs + [s]) == Ok(Keys(subs).value + [(AssignmentKey(s, "assignment_id"), SubmissionKey(s).value)])
  {
    assert (subs + [s])[..|subs|] == subs;
  }

  /** Re-submitting for an assignment under a student key it already has leaves the grouping as it was. */
  lemma ResubmissionGroupedOnce(subs: seq<Row>, s: Row)
    requires Group(subs).Ok? && SubmissionKey(s).Ok?
    requires var a := AssignmentKey(s, "assignment_id");
      a in Group(subs).value && SubmissionKey(s).value in Group(subs).value[a]
    ensures Group(subs + [s]) == Group(subs)
  {
    KeysAppend(subs, s);
    GroupPairsRepeat(Keys(subs).value, (AssignmentKey(s, "assignment_id"), SubmissionKey(s).value));
  }

  /** ... and so changes nothing the listing returns or reads. */
  lemma ResubmissionCountedOnce(classId: Option<string>, assignments: Fetched<Row>, subs: seq<Row>, s: Row, roster: Fetched<Row>)
    requires Group(subs).Ok? && SubmissionKey(s).Ok?
    requires var a := AssignmentKey(s, "assignment_id");
      a in Group(subs).value && SubmissionKey(s).value in Group(subs).value[a]
    ensures Listing(classId, assignments, Rows(subs + [s]), roster) == Listing(classId, assignments, Rows(subs), roster)
  {
    ResubmissionGroupedOnce(subs, s);
    ListingSeesOnlyGroup(classId, assignments, subs + [s], subs, roster);
  }

  /** The listing reads the submissions only through their grouping. */
  lemma ListingSeesOnlyGroup(classId: Option<string>, assignments: Fetched<Row>, subs: seq<Row>, subs': seq<Row>, roster: Fetched<Row>)
    requires Group(subs) == Group(subs')
    ensures Listing(classId, assignments, Rows(subs), roster) == Listing(classId, assignments, Rows(subs'), roster)
  {
  }
}
