/**
  Filtering Jenkins jobs (pkg/jenkins/client_job.go): a job matches a filter expression when the
  expression matches one of its string fields. The expression engine is uninterpreted.
 */
module JenkinsJob {
  import opened Regex

  /** `Job`: a job as the Jenkins REST interface describes it. */
  datatype Job = Job(name: string, url: string, color: string) {

    /** The string fields, in declaration order, as reflection visits them. */
    function Fields(): seq<string> {
      [name, url, color]
    }

    /** `Match`: every job matches the empty filter; none matches a filter that does not
        compile; otherwise the compiled filter must match one of the fields. */
    predicate Match(e: Engine, filter: string) {
      if |filter| == 0 then true
      else if !e.compiles(filter) then false
      else AnyField(e, Regexp(filter), Fields())
    }
  }

  /** The visit of the fields: true at the first field the expression matches. */
  function AnyField(e: Engine, r: Regexp, fields: seq<string>): (b: bool)
    ensures b <==> exists s :: s in fields && MatchString(e, r, s)
  {
    if fields == [] then false
    else MatchString(e, r, fields[0]) || AnyField(e, r, fields[1..])
  }

  /** A job matches a compiling, non-empty filter exactly when the filter matches its name, its
      URL or its color; the empty filter matches every job and a filter that does not compile
      matches none. */
  lemma MatchIsSomeField(e: Engine, j: Job, filter: string)
    ensures filter == "" ==> j.Match(e, filter)
    ensures filter != "" && !e.compiles(filter) ==> !j.Match(e, filter)
    ensures filter != "" && e.compiles(filter) ==>
      (j.Match(e, filter) <==>
        e.matches(filter, j.name) || e.matches(filter, j.url) || e.matches(filter, j.color))
  {
    var fields := j.Fields();
    assert forall s :: s in fields <==> s == j.name || s == j.url || s == j.color;
    if filter != "" && e.compiles(filter) {
      var r := Regexp(filter);
      if j.Match(e, filter) {
        var s :| s in fields && MatchString(e, r, s);
      } else {
        assert !MatchString(e, r, j.name) && !MatchString(e, r, j.url) && !MatchString(e, r, j.color);
      }
    }
  }

  /** The order in which the fields are visited does not matter: any arrangement of the same
      fields gives the same answer. */
  lemma {:induction false} MatchIgnoresFieldOrder(e: Engine, j: Job, filter: string, fields: seq<string>)
    requires multiset(fields) == multiset(j.Fields())
    requires filter != "" && e.compiles(filter)
    ensures j.Match(e, filter) == AnyField(e, Regexp(filter), fields)
  {
    forall s
      ensures s in fields <==> s in j.Fields()
    {
      assert s in fields <==> s in multiset(fields);
      assert s in j.Fields() <==> s in multiset(j.Fields());
    }
  }
}
