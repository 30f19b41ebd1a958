/**
 * The configuration self-check endpoint (env-check.js): which required variables are set,
 * and each variable's length, without ever revealing a value.
 */
module EnvCheck {
  import opened Wrappers
  import opened Seqs
  import opened Http

  /** Variables the deployment cannot work without. */
  const Required: seq<string> := ["SUPABASE_URL", "SUPABASE_SERVICE_ROLE_KEY", "SESSION_SECRET"]

  /** Variables reported on but not demanded. */
  const Optional: seq<string> := ["SUPABASE_ANON_KEY"]

  /** `[...required, ...optional]`. */
  const Reported: seq<string> := Required + Optional

  /** The process environment: a variable is either absent or a string. */
  type Env = map<string, string>

  /** One entry of `variables`. */
  datatype VarReport = VarReport(present: bool, length: nat)

  /** The 200 body `{ ok, missing, variables }`, and the 405 body `{ error }`. */
  datatype EnvBody =
    | Report(ok: bool, missing: seq<string>, variables: map<string, VarReport>)
    | Error(error: string)

  /** `present: typeof val === 'string' && val.length > 0`, `length: ... ? val.length : 0`. */
  function Describe(env: Env, key: string): (v: VarReport)
    ensures v.present <==> v.length > 0
    ensures v.present <==> key in env && env[key] != ""
    ensures v.length == if key in env then |env[key]| else 0
  {
    if key in env then VarReport(|env[key]| > 0, |env[key]|) else VarReport(false, 0)
  }

  /** A reported variable that is set and non-empty. */
  predicate Present(env: Env, key: string) {
    Describe(env, key).present
  }

  /** The report loop: one entry per reported variable, and none for anything else. */
  function Variables(env: Env): (vars: map<string, VarReport>)
    ensures vars.Keys == set k | k in Reported
    ensures forall k :: k in vars ==> vars[k] == Describe(env, k)
  {
    map k | k in Reported :: Describe(env, k)
  }

  /**
   * `required.filter((k) => !report[k].present)`: the required variables that are unset or
   * empty, in the order they are declared.
   */
  function Missing(env: Env): (m: seq<string>)
    ensures IsSubseq(m, Required)
    ensures forall k :: k in m <==> k in Required && !Present(env, k)
  {
    var m := Filter(Required, k => !Present(env, k));
    SubseqMembers(m, Required);
    assert forall k :: k in m ==> !Present(env, k) by {
      forall k | k in m ensures !Present(env, k) {
        var i :| 0 <= i < |m| && m[i] == k;
      }
    }
    m
  }

  /** The report body: `ok` exactly when every required variable is set. */
  function Check(env: Env): (b: EnvBody)
    ensures b.Report?
    ensures b.ok <==> forall k :: k in Required ==> Present(env, k)
    ensures b.ok <==> b.missing == []
    ensures forall k :: k in b.missing <==> k in Required && !Present(env, k)
    ensures b.variables == Variables(env)
  {
    var m := Missing(env);
    assert m != [] ==> m[0] in m;
    Report(|m| == 0, m, Variables(env))
  }

  /** `handler(event)`: anything but GET is refused; GET always answers 200 with the report. */
  function Handle(httpMethod: string, env: Env): (r: Response<EnvBody>)
    ensures r.Response? && r.setCookie.None?
    ensures r.status == 200 <==> httpMethod == "GET"
    ensures httpMethod != "GET" ==> r == Reply(405, Payload(Error("Method Not Allowed")))
    ensures httpMethod == "GET" ==> r.body == Payload(Check(env))
  {
    if httpMethod != "GET" then Reply(405, Payload(Error("Method Not Allowed")))
    else Reply(200, Payload(Check(env)))
  }

  /** What the report can see of a variable: its length, 0 when unset. */
  function LengthOf(env: Env, key: string): nat {
    if key in env then |env[key]| else 0
  }

  /**
   * The report exposes lengths, never values: two environments whose reported variables have
   * the same lengths get the same answer.
   */
  lemma ReportRevealsOnlyLengths(httpMethod: string, env: Env, env': Env)
    requires forall k :: k in Reported ==> LengthOf(env, k) == LengthOf(env', k)
    ensures Handle(httpMethod, env) == Handle(httpMethod, env')
  {
    SameLengthsSameReport(Reported, env, env');
    forall i | 0 <= i < |Required| ensures Present(env, Required[i]) == Present(env', Required[i]) {
      assert Reported[i] == Required[i];
      assert Present(env, Required[i]) <==> LengthOf(env, Required[i]) > 0;
      assert Present(env', Required[i]) <==> LengthOf(env', Required[i]) > 0;
    }
    FilterCongruent(Required, k => !Present(env, k), k => !Present(env', k));
  }

  /** Same lengths give the same entry, for any list of names. */
  lemma SameLengthsSameReport(names: seq<string>, env: Env, env': Env)
    requires forall k :: k in names ==> LengthOf(env, k) == LengthOf(env', k)
    ensures (map k | k in names :: Describe(env, k)) == (map k | k in names :: Describe(env', k))
  {
  }

  /** Unsetting a variable and setting it to the empty string are reported the same way. */
  lemma EmptyCountsAsUnset(env: Env, key: string)
    ensures Check(env[key := ""]) == Check(env - {key})
  {
    ReportRevealsOnlyLengths("GET", env[key := ""], env - {key});
  }
}
