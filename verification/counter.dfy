/** The match counts shown beside each criterion (`FilterSettingsActivity.
    updateList`): one count query per prefix of the list, the counts of
    consecutive prefixes as each instance's `start` and `end`, and the largest
    count as every instance's `max`. */
module Counter {
  import opened Base
  import opened Criteria
  import opened Composer

  /** The connective `updateList` writes, without the leading space of the
      `sql` getter's. */
  function CountConnective(op: Op): (r: string)
    ensures r == [] <==> op.Juxtapose?
  {
    match op
    case Or => "OR "
    case AndNot => "AND NOT "
    case And => "AND "
    case Juxtapose => ""
  }

  /** The clause `updateList` writes: the active-and-visible base followed by
      a space, or `Task.ID IN (<substituted sql>)` with the sql untrimmed and
      passed through `PermaSql`. */
  function CountClause(x: CriterionInstance, svc: Services): (r: Result<string>)
    ensures !Substitutes(x) ==> r == Success(svc.activeAndVisible + " ")
    ensures Substitutes(x) ==> (r.Failure? <==> GetValue(x).None?)
    ensures r.Failure? ==> r.error == NullPointerException
    ensures Substitutes(x) && r.Success? ==>
      r.value == svc.taskId + " IN (" + svc.permaSql(Substitution(x, svc).value) + ")"
  {
    if !Substitutes(x) then Success(svc.activeAndVisible + " ")
    else
      var s :- Substitution(x, svc);
      Success(svc.taskId + " IN (" + svc.permaSql(s) + ")")
  }

  /** The count query text for the instances of `l`:
      `SELECT COUNT(*) FROM tasks WHERE ` and each connective and clause. */
  function CountQuery(l: seq<CriterionInstance>, svc: Services): (r: Result<string>)
    ensures r.Success? ==> svc.selectCount + " WHERE " <= r.value
  {
    if |l| == 0 then Success(svc.selectCount + " WHERE ")
    else
      var s :- CountQuery(l[..|l| - 1], svc);
      var x := l[|l| - 1];
      var c :- CountClause(x, svc);
      Success(s + CountConnective(OpOf(x.typeCode)) + c)
  }

  /** The count of tasks the query for the first `k + 1` instances matches,
      hidden and completed tasks included (0 when building that query
      throws, a case `updateList` never reaches). */
  function PrefixCount(l: seq<CriterionInstance>, k: int, svc: Services): nat
    requires 0 <= k < |l|
  {
    match CountQuery(l[..k + 1], svc)
    case Success(q) => svc.count(svc.showHiddenAndCompleted(q))
    case Failure(_) => 0
  }

  /** The count `updateList` shows as the instance's `start`: the previous
      prefix's count, and for the first instance its own. */
  function StartCount(l: seq<CriterionInstance>, k: int, svc: Services): nat
    requires 0 <= k < |l|
  {
    if k == 0 then PrefixCount(l, 0, svc) else PrefixCount(l, k - 1, svc)
  }

  /** The counts of all prefixes. */
  function Ends(l: seq<CriterionInstance>, svc: Services): (r: seq<nat>)
    ensures |r| == |l|
    ensures forall k :: 0 <= k < |l| ==> r[k] == PrefixCount(l, k, svc)
  {
    seq(|l|, k requires 0 <= k < |l| => PrefixCount(l, k, svc))
  }

  /** The largest number of `xs`, and 0 for none. */
  function MaxOf(xs: seq<nat>): (r: nat)
    ensures forall i :: 0 <= i < |xs| ==> xs[i] <= r
    ensures r == 0 || r in xs
  {
    if |xs| == 0 then 0
    else
      var m := MaxOf(xs[..|xs| - 1]);
      assert forall i :: 0 <= i < |xs| - 1 ==> xs[..|xs| - 1][i] == xs[i];
      if xs[|xs| - 1] > m then xs[|xs| - 1] else m
  }

  /** Appending an instance appends its connective and clause to the query
      text of the instances before it. */
  lemma CountQueryAppend(l: seq<CriterionInstance>, x: CriterionInstance, svc: Services)
    requires CountQuery(l, svc).Success? && CountClause(x, svc).Success?
    ensures CountQuery(l + [x], svc)
      == Success(CountQuery(l, svc).value + CountConnective(OpOf(x.typeCode)) + CountClause(x, svc).value)
  {
    assert (l + [x])[..|l|] == l;
    assert (l + [x])[|l|] == x;
  }

  /** The count query can be built exactly when no clause throws. */
  lemma {:induction false} CountQueryTotal(l: seq<CriterionInstance>, svc: Services)
    ensures CountQuery(l, svc).Success? <==> forall i :: 0 <= i < |l| ==> CountClause(l[i], svc).Success?
    decreases |l|
  {
    if |l| > 0 {
      var init := l[..|l| - 1];
      CountQueryTotal(init, svc);
      assert forall i :: 0 <= i < |init| ==> init[i] == l[i];
    }
  }

  /** The first `n` instances as the loop of `updateList` leaves them: each
      with its prefix count as `end` and its start count as `start`. */
  function Counted(l: seq<CriterionInstance>, n: int, svc: Services): (r: seq<CriterionInstance>)
    requires 0 <= n <= |l|
    ensures |r| == n
  {
    if n == 0 then []
    else Counted(l, n - 1, svc) + [l[n - 1].(start := StartCount(l, n - 1, svc), end := PrefixCount(l, n - 1, svc))]
  }

  /** Each counted instance keeps its fields, with its prefix count as `end`
      and its start count as `start`. */
  lemma {:induction false} CountedAt(l: seq<CriterionInstance>, n: int, k: int, svc: Services)
    requires 0 <= k < n <= |l|
    ensures Counted(l, n, svc)[k] == l[k].(start := StartCount(l, k, svc), end := PrefixCount(l, k, svc))
    decreases n
  {
    if k < n - 1 {
      CountedAt(l, n - 1, k, svc);
    }
  }

  /** Extending the query for the first `i` instances by instance `i` gives
      the query for the first `i + 1`, whose count is that prefix's count. */
  lemma PrefixStep(l: seq<CriterionInstance>, i: int, sql: string, svc: Services)
    requires 0 <= i < |l|
    requires CountClause(l[i], svc).Success?
    requires CountQuery(l[..i], svc) == Success(sql)
    ensures var q := sql + CountConnective(OpOf(l[i].typeCode)) + CountClause(l[i], svc).value;
      && CountQuery(l[..i + 1], svc) == Success(q)
      && PrefixCount(l, i, svc) == svc.count(svc.showHiddenAndCompleted(q))
  {
    assert l[..i + 1] == l[..i] + [l[i]];
    CountQueryAppend(l[..i], l[i], svc);
  }

  /** The counted instances grow by instance `i` with its prefix count as
      `end` and the remembered previous count (for the first instance, the
      same count) as `start`. */
  lemma CountedStep(l: seq<CriterionInstance>, i: int, last: int, n: nat, svc: Services)
    requires 0 <= i < |l|
    requires last == (if i == 0 then -1 else PrefixCount(l, i - 1, svc))
    requires n == PrefixCount(l, i, svc)
    ensures Counted(l, i + 1, svc) == Counted(l, i, svc) + [l[i].(start := if last == -1 then n else last, end := n)]
  {
  }

  /** One step of the loop of `updateList`: extend the query by instance `i`
      and count the tasks it matches. */
  method CountOne(l: seq<CriterionInstance>, i: int, sql: string, last: int, svc: Services)
    returns (q: string, n: nat)
    requires 0 <= i < |l|
    requires CountClause(l[i], svc).Success?
    requires CountQuery(l[..i], svc) == Success(sql)
    requires last == (if i == 0 then -1 else PrefixCount(l, i - 1, svc))
    ensures CountQuery(l[..i + 1], svc) == Success(q)
    ensures n == PrefixCount(l, i, svc)
    ensures Counted(l, i + 1, svc) == Counted(l, i, svc) + [l[i].(start := if last == -1 then n else last, end := n)]
  {
    PrefixStep(l, i, sql, svc);
    q := sql + CountConnective(OpOf(l[i].typeCode)) + CountClause(l[i], svc).value;
    n := svc.count(svc.showHiddenAndCompleted(q));
    CountedStep(l, i, last, n, svc);
  }

  /** The loop of `updateList`: extend the query by each instance's
      connective and clause, count, and record the count as `end` and the
      previous count (for the first instance, the same count) as `start`. */
  method CountPrefixes(l: seq<CriterionInstance>, svc: Services) returns (r: Result<seq<CriterionInstance>>)
    ensures r.Success? <==> forall i :: 0 <= i < |l| ==> CountClause(l[i], svc).Success?
    ensures r.Failure? ==> r.error == NullPointerException
    ensures r.Success? ==> r.value == Counted(l, |l|, svc)
  {
    var last: int := -1;
    var sql := svc.selectCount + " WHERE ";
    var counted: seq<CriterionInstance> := [];
    var i := 0;
    while i < |l|
      invariant 0 <= i <= |l|
      invariant CountQuery(l[..i], svc) == Success(sql)
      invariant counted == Counted(l, i, svc)
      invariant last == (if i == 0 then -1 else PrefixCount(l, i - 1, svc))
    {
      var x := l[i];
      var clause := CountClause(x, svc);
      if clause.Failure? {
        return Failure(clause.error);
      }
      var n;
      sql, n := CountOne(l, i, sql, last, svc);
      var start := if last == -1 then n else last;
      counted := counted + [x.(start := start, end := n)];
      last := n;
      i := i + 1;
    }
    assert l[..|l|] == l;
    CountQueryTotal(l, svc);
    return Success(counted);
  }

  /** The list as `updateList` leaves it: every instance keeps its fields
      except that `end` is the count of its prefix, `start` the count of the
      prefix before it (for the first instance, its own), and `max` the
      largest prefix count. */
  predicate Annotated(l: seq<CriterionInstance>, svc: Services, v: seq<CriterionInstance>) {
    && |v| == |l|
    && forall i :: 0 <= i < |l| ==>
      v[i] == l[i].(start := StartCount(l, i, svc), end := PrefixCount(l, i, svc), max := MaxOf(Ends(l, svc)))
  }

  /** Every instance of `l` with `max` set to `m`. */
  function WithMax(l: seq<CriterionInstance>, m: int): (r: seq<CriterionInstance>)
    ensures |r| == |l|
    ensures forall k :: 0 <= k < |l| ==> r[k] == l[k].(max := m)
  {
    seq(|l|, k requires 0 <= k < |l| => l[k].(max := m))
  }

  /** `updateList`: the counted instances, each then given the largest count
      as `max`. A clause that dereferences a missing value throws. */
  method UpdateList(l: seq<CriterionInstance>, svc: Services) returns (r: Result<seq<CriterionInstance>>)
    ensures r.Success? <==> forall i :: 0 <= i < |l| ==> CountClause(l[i], svc).Success?
    ensures r.Failure? ==> r.error == NullPointerException
    ensures r.Success? ==> Annotated(l, svc, r.value)
  {
    var counted := CountPrefixes(l, svc);
    if counted.Failure? {
      return Failure(counted.error);
    }
    var c := counted.value;
    forall k | 0 <= k < |l|
      ensures c[k] == l[k].(start := StartCount(l, k, svc), end := PrefixCount(l, k, svc))
    {
      CountedAt(l, |l|, k, svc);
    }
    var max := LargestEnd(c);
    assert EndsOf(c) == Ends(l, svc);
    r := Success(WithMax(c, max));
  }

  /** What the annotated list shows: the counts of consecutive prefixes as
      each instance's `start` and `end`, the first instance starting at its
      own count, one common `max` no smaller than any count and equal to
      one of them when positive, and everything else unchanged. */
  lemma AnnotatedCounts(l: seq<CriterionInstance>, svc: Services, v: seq<CriterionInstance>)
    requires Annotated(l, svc, v)
    ensures forall i :: 0 <= i < |l| ==> v[i].end == PrefixCount(l, i, svc)
    ensures |l| > 0 ==> v[0].start == v[0].end
    ensures forall i :: 0 < i < |l| ==> v[i].start == v[i - 1].end
    ensures forall i, j :: 0 <= i < |l| && 0 <= j < |l| ==> v[j].end <= v[i].max
    ensures forall i :: 0 <= i < |l| ==> v[i].max == 0 || exists j :: 0 <= j < |l| && v[i].max == v[j].end
    ensures forall i :: 0 <= i < |l| ==>
      v[i] == l[i].(start := v[i].start, end := v[i].end, max := v[i].max)
  {
    var e := Ends(l, svc);
    forall i | 0 <= i < |l| && v[i].max != 0
      ensures exists j :: 0 <= j < |l| && v[i].max == v[j].end
    {
      var j :| 0 <= j < |e| && e[j] == MaxOf(e);
      assert v[i].max == v[j].end;
    }
  }

  /** The `end` counts of a list. */
  function EndsOf(l: seq<CriterionInstance>): (r: seq<nat>)
    ensures |r| == |l|
    ensures forall k :: 0 <= k < |l| ==> r[k] == if l[k].end < 0 then 0 else l[k].end
  {
    seq(|l|, k requires 0 <= k < |l| => if l[k].end < 0 then 0 else l[k].end)
  }

  /** The running maximum of the loop, starting from 0. */
  method LargestEnd(l: seq<CriterionInstance>) returns (max: nat)
    ensures max == MaxOf(EndsOf(l))
  {
    var ends := EndsOf(l);
    max := 0;
    var i := 0;
    while i < |ends|
      invariant 0 <= i <= |ends|
      invariant max == MaxOf(ends[..i])
    {
      assert ends[..i + 1][..i] == ends[..i];
      max := if ends[i] > max then ends[i] else max;
      i := i + 1;
    }
    assert ends[..|ends|] == ends;
  }

}
