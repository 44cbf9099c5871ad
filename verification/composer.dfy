/** The filter's query and new-task bindings (`FilterSettingsActivity`'s `sql`
    and `values` getters and `getValue`): the criterion list folded left to
    right into a WHERE clause, and the key/value pairs a task created inside
    the filter receives. */
module Composer {
  import opened Base
  import opened Strings
  import opened Criteria

  /** The collaborators whose bodies are not part of this model:
      `activeAndVisible()` and `Task.ID` as their SQL text, the
      `SELECT COUNT(*) FROM tasks` prefix, `UnaryCriterion.sanitize`,
      `PermaSql.replacePlaceholdersForQuery`,
      `QueryUtils.showHiddenAndCompleted` and the row count of a query. */
  datatype Services = Services(
    activeAndVisible: string,
    taskId: string,
    selectCount: string,
    sanitize: string -> string,
    permaSql: string -> string,
    showHiddenAndCompleted: string -> string,
    count: string -> nat)

  /** `getValue`: the instance value, or the empty string when there is none
      but the criterion's sql still has a placeholder to fill. */
  function GetValue(x: CriterionInstance): (r: Option<string>)
    ensures ValueFromCriterion(x).Some? ==> r == ValueFromCriterion(x)
    ensures r.None? <==>
      && (x.typeCode == TYPE_UNIVERSE || (x.criterion.kind.TextInput? && x.selectedText.None?))
      && (x.criterion.sql.None? || PLACEHOLDER !in x.criterion.sql.value)
    ensures r.Some? && ValueFromCriterion(x).None? ==> r.value == []
  {
    var v := ValueFromCriterion(x);
    if v.None? && x.criterion.sql.Some? && PLACEHOLDER in x.criterion.sql.value then Some([]) else v
  }

  /** How an instance combines with the clauses before it. A universe
      instance, and any code outside the four, gets no connective at all. */
  datatype Op = Or | And | AndNot | Juxtapose

  function OpOf(typeCode: int): (r: Op)
    ensures r.Or? <==> typeCode == TYPE_ADD
    ensures r.AndNot? <==> typeCode == TYPE_SUBTRACT
    ensures r.And? <==> typeCode == TYPE_INTERSECT
  {
    if typeCode == TYPE_ADD then Or
    else if typeCode == TYPE_SUBTRACT then AndNot
    else if typeCode == TYPE_INTERSECT then And
    else Juxtapose
  }

  /** The connective text the `sql` getter writes. */
  function Connective(op: Op): (r: string)
    ensures r == [] <==> op.Juxtapose?
    ensures r != [] ==> r[0] == ' ' && r[|r| - 1] == ' '
  {
    match op
    case Or => " OR "
    case AndNot => " AND NOT "
    case And => " AND "
    case Juxtapose => ""
  }

  /** The instance contributes its own subquery rather than the
      active-and-visible base. */
  predicate Substitutes(x: CriterionInstance) {
    x.typeCode != TYPE_UNIVERSE && x.criterion.sql.Some?
  }

  /** The criterion sql with every placeholder replaced by the sanitized value;
      a missing value is dereferenced with `!!` and throws. */
  function Substitution(x: CriterionInstance, svc: Services): (r: Result<string>)
    requires x.criterion.sql.Some?
    ensures r.Failure? <==> GetValue(x).None?
    ensures r.Failure? ==> r.error == NullPointerException
    ensures r.Success? ==>
      r.value == ReplaceChar(x.criterion.sql.value, PLACEHOLDER, svc.sanitize(GetValue(x).value))
    ensures r.Success? && PLACEHOLDER !in svc.sanitize(GetValue(x).value) ==> PLACEHOLDER !in r.value
  {
    match GetValue(x)
    case None => Failure(NullPointerException)
    case Some(v) =>
      ReplaceAllChar(x.criterion.sql.value, PLACEHOLDER, svc.sanitize(v));
      Success(ReplaceAll(x.criterion.sql.value, [PLACEHOLDER], svc.sanitize(v)))
  }

  /** The clause the `sql` getter writes for one instance: the active-and-
      visible base for the universe and for a criterion without sql, and
      otherwise `Task.ID IN (<trimmed substituted sql>)`. */
  function Clause(x: CriterionInstance, svc: Services): (r: Result<string>)
    ensures !Substitutes(x) ==> r == Success(svc.activeAndVisible)
    ensures Substitutes(x) ==> (r.Failure? <==> GetValue(x).None?)
    ensures r.Failure? ==> r.error == NullPointerException
    ensures Substitutes(x) && r.Success? ==>
      var inner := Trim(Substitution(x, svc).value);
      r.value == svc.taskId + " IN (" + inner + ")"
  {
    if !Substitutes(x) then Success(svc.activeAndVisible)
    else
      var s :- Substitution(x, svc);
      Success(svc.taskId + " IN (" + Trim(s) + ")")
  }

  /** Connective and clause of one instance. */
  function Fragment(x: CriterionInstance, svc: Services): (r: Result<string>)
    ensures r.Failure? <==> Clause(x, svc).Failure?
    ensures r.Success? ==> r.value == Connective(OpOf(x.typeCode)) + Clause(x, svc).value
  {
    var c :- Clause(x, svc);
    Success(Connective(OpOf(x.typeCode)) + c)
  }

  /** The `sql` getter: " WHERE " followed by each instance's fragment, in
      list order; the first instance that dereferences a missing value
      throws. */
  function Sql(l: seq<CriterionInstance>, svc: Services): (r: Result<string>)
    ensures r.Success? ==> " WHERE " <= r.value
    ensures r.Failure? ==> r.error == NullPointerException
  {
    if |l| == 0 then Success(" WHERE ")
    else
      var s :- Sql(l[..|l| - 1], svc);
      var f :- Fragment(l[|l| - 1], svc);
      Success(s + f)
  }

  /** The getter throws exactly when some instance's clause dereferences a
      missing value. */
  lemma SqlThrowsIff(l: seq<CriterionInstance>, svc: Services)
    ensures Sql(l, svc).Failure? <==> exists i :: 0 <= i < |l| && Clause(l[i], svc).Failure?
  {
    if i :| 0 <= i < |l| && Clause(l[i], svc).Failure? {
      ClauseFailureThrows(l, i, svc);
    } else {
      SqlIsConcatenation(l, svc);
    }
  }

  /** A throwing clause anywhere makes the whole getter throw. */
  lemma {:induction false} ClauseFailureThrows(l: seq<CriterionInstance>, i: int, svc: Services)
    requires 0 <= i < |l| && Clause(l[i], svc).Failure?
    ensures Sql(l, svc).Failure?
    decreases |l|
  {
    var init := l[..|l| - 1];
    if i < |l| - 1 {
      assert init[i] == l[i];
      ClauseFailureThrows(init, i, svc);
    }
  }

  /** Composing the universe alone gives exactly " WHERE " followed by the
      active-and-visible base. */
  lemma UniverseAlone(u: CriterionInstance, svc: Services)
    requires u.typeCode == TYPE_UNIVERSE
    ensures Sql([u], svc) == Success(" WHERE " + svc.activeAndVisible)
  {
    assert [u][..0] == [];
    assert OpOf(u.typeCode) == Juxtapose;
    assert Connective(Juxtapose) + svc.activeAndVisible == svc.activeAndVisible;
  }

  /** Joins strings end to end. */
  function Concat(parts: seq<string>): string {
    if |parts| == 0 then [] else Concat(parts[..|parts| - 1]) + parts[|parts| - 1]
  }

  /** The fragments of a list none of whose clauses throws. */
  function Fragments(l: seq<CriterionInstance>, svc: Services): (r: seq<string>)
    requires forall i :: 0 <= i < |l| ==> Clause(l[i], svc).Success?
    ensures |r| == |l|
    ensures forall i :: 0 <= i < |l| ==> Fragment(l[i], svc) == Success(r[i])
  {
    seq(|l|, i requires 0 <= i < |l| => Fragment(l[i], svc).value)
  }

  /** The fragments of a prefix are a prefix of the fragments. */
  lemma FragmentsPrefix(l: seq<CriterionInstance>, init: seq<CriterionInstance>, svc: Services)
    requires |l| > 0 && init == l[..|l| - 1]
    requires forall i :: 0 <= i < |l| ==> Clause(l[i], svc).Success?
    requires forall i :: 0 <= i < |init| ==> Clause(init[i], svc).Success?
    ensures Fragments(l, svc) == Fragments(init, svc) + [Fragment(l[|l| - 1], svc).value]
  {
    var fs := Fragments(l, svc);
    assert fs[..|l| - 1] == Fragments(init, svc);
    assert fs == fs[..|l| - 1] + [fs[|l| - 1]];
  }

  /** The `sql` getter read as a whole: when no clause throws, it is
      " WHERE " followed by the fragments of the instances in list order. */
  lemma {:induction false} SqlIsConcatenation(l: seq<CriterionInstance>, svc: Services)
    requires forall i :: 0 <= i < |l| ==> Clause(l[i], svc).Success?
    ensures Sql(l, svc) == Success(" WHERE " + Concat(Fragments(l, svc)))
    decreases |l|
  {
    if |l| > 0 {
      var init := l[..|l| - 1];
      assert forall i :: 0 <= i < |init| ==> init[i] == l[i];
      SqlIsConcatenation(init, svc);
      SqlConcatenationStep(l, init, svc);
    } else {
      var e: seq<string> := [];
      assert Fragments(l, svc) == e && Concat(e) == [];
      assert " WHERE " + [] == " WHERE ";
    }
  }

  /** The inductive step of `SqlIsConcatenation`: the text for the whole
      list is the text for all but the last instance followed by the last
      instance's fragment. */
  lemma SqlConcatenationStep(l: seq<CriterionInstance>, init: seq<CriterionInstance>, svc: Services)
    requires |l| > 0 && init == l[..|l| - 1]
    requires forall i :: 0 <= i < |l| ==> Clause(l[i], svc).Success?
    requires forall i :: 0 <= i < |init| ==> Clause(init[i], svc).Success?
    requires Sql(init, svc) == Success(" WHERE " + Concat(Fragments(init, svc)))
    ensures Sql(l, svc) == Success(" WHERE " + Concat(Fragments(l, svc)))
  {
    FragmentsPrefix(l, init, svc);
    JoinStep(Sql(l, svc).value, Sql(init, svc).value, Concat(Fragments(init, svc)),
      Fragment(l[|l| - 1], svc).value, Concat(Fragments(l, svc)));
  }

  /** Appending `f` to a text that is " WHERE " + `c` gives " WHERE " + (`c` + `f`). */
  lemma JoinStep(whole: string, s: string, c: string, f: string, cf: string)
    requires whole == s + f && s == " WHERE " + c && cf == c + f
    ensures whole == " WHERE " + cf
  {
  }

  /** Appending an instance appends its fragment and leaves the text for the
      instances before it untouched. */
  lemma SqlAppend(l: seq<CriterionInstance>, x: CriterionInstance, svc: Services)
    requires Sql(l, svc).Success? && Clause(x, svc).Success?
    ensures Sql(l + [x], svc)
      == Success(Sql(l, svc).value + (Connective(OpOf(x.typeCode)) + Clause(x, svc).value))
  {
    assert (l + [x])[..|l|] == l;
    assert (l + [x])[|l|] == x;
  }

  // ------------------------------------------------------------- semantics

  /** A list the emitted text reads correctly for: a universe instance first,
      and every later instance ADD, SUBTRACT or INTERSECT, so that every
      clause after the first is preceded by a connective. */
  predicate WellFormed(l: seq<CriterionInstance>) {
    && |l| > 0
    && l[0].typeCode == TYPE_UNIVERSE
    && forall i :: 1 <= i < |l| ==> TYPE_ADD <= l[i].typeCode <= TYPE_INTERSECT
  }

  /** In a well-formed list every instance but the first is preceded by a
      connective, and the first by none. */
  lemma WellFormedConnectives(l: seq<CriterionInstance>)
    requires WellFormed(l)
    ensures Connective(OpOf(l[0].typeCode)) == []
    ensures forall i :: 1 <= i < |l| ==> Connective(OpOf(l[i].typeCode)) != []
  {
    forall i | 1 <= i < |l|
      ensures Connective(OpOf(l[i].typeCode)) != []
    {
      assert !OpOf(l[i].typeCode).Juxtapose?;
    }
  }

  /** Evaluation of the emitted clauses for one task under SQL precedence
      (NOT binds tighter than AND, AND tighter than OR), where `holds(x)` says
      whether the task satisfies the clause of instance `x`. The state is the
      disjunction of the closed AND-groups and the value of the open one. */
  function EvalState(l: seq<CriterionInstance>, holds: CriterionInstance -> bool): (bool, bool)
    requires WellFormed(l)
  {
    if |l| == 1 then (false, holds(l[0]))
    else
      var st := EvalState(l[..|l| - 1], holds);
      var x := l[|l| - 1];
      match OpOf(x.typeCode)
      case Or => (st.0 || st.1, holds(x))
      case And => (st.0, st.1 && holds(x))
      case AndNot => (st.0, st.1 && !holds(x))
      case Juxtapose => st
  }

  /** Whether a task is selected by the filter's WHERE clause. */
  predicate Eval(l: seq<CriterionInstance>, holds: CriterionInstance -> bool)
    requires WellFormed(l)
  {
    var st := EvalState(l, holds);
    st.0 || st.1
  }

  /** Reference semantics: the clause list is a disjunction of AND-groups,
      each starting at the first instance or at an ADD instance. A task is
      selected when, in some group, it satisfies every member's clause, and
      for SUBTRACT members fails it. */
  predicate GroupStart(l: seq<CriterionInstance>, i: int)
    requires 0 <= i < |l|
  {
    i == 0 || l[i].typeCode == TYPE_ADD
  }

  /** The start of the group instance `j` belongs to. */
  function LastStart(l: seq<CriterionInstance>, j: int): (r: int)
    requires 0 <= j < |l|
    ensures 0 <= r <= j && GroupStart(l, r)
    ensures forall k :: r < k <= j ==> !GroupStart(l, k)
  {
    if GroupStart(l, j) then j else LastStart(l, j - 1)
  }

  predicate Passes(x: CriterionInstance, holds: CriterionInstance -> bool) {
    if x.typeCode == TYPE_SUBTRACT then !holds(x) else holds(x)
  }

  predicate GroupHolds(l: seq<CriterionInstance>, s: int, holds: CriterionInstance -> bool)
    requires 0 <= s < |l|
  {
    forall j :: s <= j < |l| && LastStart(l, j) == s ==> Passes(l[j], holds)
  }

  predicate Selected(l: seq<CriterionInstance>, holds: CriterionInstance -> bool) {
    exists s :: 0 <= s < |l| && GroupStart(l, s) && GroupHolds(l, s, holds)
  }

  /** Group membership of the instances of a prefix does not change when the
      list grows. */
  lemma {:induction false} LastStartPrefix(l: seq<CriterionInstance>, n: int, j: int)
    requires 0 <= j < n <= |l|
    ensures LastStart(l[..n], j) == LastStart(l, j)
    decreases j
  {
    if !GroupStart(l, j) {
      LastStartPrefix(l, n, j - 1);
    }
  }

  /** Some group starting before `upto` holds. */
  predicate Closed(l: seq<CriterionInstance>, upto: int, holds: CriterionInstance -> bool)
    requires upto <= |l|
  {
    exists s :: 0 <= s < upto && GroupStart(l, s) && GroupHolds(l, s, holds)
  }

  /** Appending an instance extends the last group by it, or opens a new
      group; every other group is unchanged. */
  lemma GroupHoldsAppend(l: seq<CriterionInstance>, x: CriterionInstance, s: int, holds: CriterionInstance -> bool)
    requires 0 <= s < |l|
    ensures LastStart(l + [x], |l|) != s ==> (GroupHolds(l + [x], s, holds) <==> GroupHolds(l, s, holds))
    ensures LastStart(l + [x], |l|) == s ==>
      (GroupHolds(l + [x], s, holds) <==> GroupHolds(l, s, holds) && Passes(x, holds))
  {
    var l' := l + [x];
    assert l'[..|l|] == l;
    forall j | 0 <= j < |l|
      ensures LastStart(l', j) == LastStart(l, j)
    {
      LastStartPrefix(l', |l|, j);
    }
    assert l'[|l|] == x;
  }

  lemma ClosedAppend(l: seq<CriterionInstance>, x: CriterionInstance, upto: int, holds: CriterionInstance -> bool)
    requires 0 <= upto <= LastStart(l + [x], |l|) && upto <= |l|
    ensures Closed(l + [x], upto, holds) <==> Closed(l, upto, holds)
  {
    var l' := l + [x];
    forall s | 0 <= s < upto
      ensures GroupStart(l', s) == GroupStart(l, s)
      ensures GroupHolds(l', s, holds) <==> GroupHolds(l, s, holds)
    {
      GroupHoldsAppend(l, x, s, holds);
    }
  }

  /** No group starts after the last one. */
  lemma ClosedToEnd(l: seq<CriterionInstance>, holds: CriterionInstance -> bool)
    requires |l| > 0
    ensures var last := LastStart(l, |l| - 1);
      Closed(l, |l|, holds) <==> Closed(l, last, holds) || GroupHolds(l, last, holds)
  {
    var last := LastStart(l, |l| - 1);
    if Closed(l, |l|, holds) && !Closed(l, last, holds) {
      var s :| 0 <= s < |l| && GroupStart(l, s) && GroupHolds(l, s, holds);
      assert s == last;
    }
  }

  /** The state after a list: the open group is the last one, and the
      closed part is the disjunction of the groups before it. */
  predicate StateMeans(l: seq<CriterionInstance>, st: (bool, bool), holds: CriterionInstance -> bool)
    requires |l| > 0
  {
    var last := LastStart(l, |l| - 1);
    && (st.1 <==> GroupHolds(l, last, holds))
    && (st.0 <==> Closed(l, last, holds))
  }

  lemma EvalStateStep(l: seq<CriterionInstance>, x: CriterionInstance, holds: CriterionInstance -> bool)
    requires WellFormed(l) && TYPE_ADD <= x.typeCode <= TYPE_INTERSECT
    requires StateMeans(l, EvalState(l, holds), holds)
    ensures WellFormed(l + [x])
    ensures StateMeans(l + [x], EvalState(l + [x], holds), holds)
  {
    var l' := l + [x];
    assert l'[..|l|] == l;
    var last := LastStart(l, |l| - 1);
    assert LastStart(l', |l| - 1) == last by {
      LastStartPrefix(l', |l|, |l| - 1);
    }
    GroupHoldsAppend(l, x, last, holds);
    if x.typeCode == TYPE_ADD {
      assert LastStart(l', |l|) == |l|;
      ClosedAppend(l, x, |l|, holds);
      ClosedToEnd(l, holds);
      assert Closed(l', |l|, holds) <==> Closed(l, last, holds) || GroupHolds(l, last, holds);
    } else {
      ClosedAppend(l, x, last, holds);
    }
  }

  lemma {:induction false} EvalStateSpec(l: seq<CriterionInstance>, holds: CriterionInstance -> bool)
    requires WellFormed(l)
    ensures StateMeans(l, EvalState(l, holds), holds)
    decreases |l|
  {
    var n := |l|;
    if n > 1 {
      var init := l[..n - 1];
      EvalStateSpec(init, holds);
      EvalStateStep(init, l[n - 1], holds);
      assert init + [l[n - 1]] == l;
    }
  }

  /** The precedence evaluation selects exactly the tasks the group reading
      selects. */
  lemma EvalIsGroups(l: seq<CriterionInstance>, holds: CriterionInstance -> bool)
    requires WellFormed(l)
    ensures Eval(l, holds) <==> Selected(l, holds)
  {
    EvalStateSpec(l, holds);
    ClosedToEnd(l, holds);
  }

  /** An INTERSECT or SUBTRACT instance appended at the end only narrows the
      selection; an ADD instance only widens it, and selects every task its
      own clause selects. */
  lemma AppendNarrowsOrWidens(l: seq<CriterionInstance>, x: CriterionInstance, holds: CriterionInstance -> bool)
    requires WellFormed(l) && TYPE_ADD <= x.typeCode <= TYPE_INTERSECT
    ensures WellFormed(l + [x])
    ensures x.typeCode != TYPE_ADD ==> (Eval(l + [x], holds) ==> Eval(l, holds))
    ensures x.typeCode == TYPE_SUBTRACT && holds(x) ==> !Eval(l + [x], holds) || Eval(l, holds)
    ensures x.typeCode == TYPE_ADD ==> (Eval(l, holds) ==> Eval(l + [x], holds))
    ensures x.typeCode == TYPE_ADD && holds(x) ==> Eval(l + [x], holds)
  {
    assert (l + [x])[..|l|] == l;
  }

  /** A strict left-to-right fold of the same instances, which is not what
      the unparenthesised text means. */
  predicate LeftFold(l: seq<CriterionInstance>, holds: CriterionInstance -> bool)
    requires |l| > 0
  {
    if |l| == 1 then holds(l[0])
    else
      var acc := LeftFold(l[..|l| - 1], holds);
      var x := l[|l| - 1];
      match OpOf(x.typeCode)
      case Or => acc || holds(x)
      case And => acc && holds(x)
      case AndNot => acc && !holds(x)
      case Juxtapose => acc
  }

  /** `[universe, ADD a, INTERSECT b]` reads as `universe OR (a AND b)`, not
      as `(universe OR a) AND b`: a task in the universe but in neither `a`
      nor `b` is selected by the text yet rejected by the left fold. */
  lemma PrecedenceIsNotLeftFold(u: CriterionInstance, a: CriterionInstance, b: CriterionInstance,
                                holds: CriterionInstance -> bool)
    requires u.typeCode == TYPE_UNIVERSE && a.typeCode == TYPE_ADD && b.typeCode == TYPE_INTERSECT
    requires holds(u) && !holds(a) && !holds(b)
    ensures WellFormed([u, a, b])
    ensures Eval([u, a, b], holds) && !LeftFold([u, a, b], holds)
  {
    var l := [u, a, b];
    assert l[..2] == [u, a] && [u, a][..1] == [u];
    assert EvalState([u], holds) == (false, true);
    assert EvalState([u, a], holds) == (true, false);
    assert LeftFold([u, a], holds);
  }

  // ------------------------------------------------------ new-task values

  /** `replace("?", v)` on a binding's key or value template. */
  function Fill(template: string, v: string): (r: string)
    ensures r == ReplaceChar(template, PLACEHOLDER, v)
  {
    ReplaceAllChar(template, PLACEHOLDER, v);
    ReplaceAll(template, [PLACEHOLDER], v)
  }

  /** Puts the filled pairs into `m` in order, a later pair overwriting an
      earlier one with the same filled key. */
  function PutAll(m: map<string, string>, pairs: seq<(string, string)>, v: string): (r: map<string, string>)
    ensures m.Keys <= r.Keys
    ensures forall j :: 0 <= j < |pairs| ==> Fill(pairs[j].0, v) in r
  {
    if |pairs| == 0 then m
    else
      var n := |pairs| - 1;
      var init := pairs[..n];
      assert forall j :: 0 <= j < n ==> init[j] == pairs[j];
      PutAll(m, init, v)[Fill(pairs[n].0, v) := Fill(pairs[n].1, v)]
  }

  /** The filled key of one pair. */
  function KeyAt(pairs: seq<(string, string)>, j: int, v: string): string
    requires 0 <= j < |pairs|
  {
    Fill(pairs[j].0, v)
  }

  /** Every key of the result was already in `m` or is the filled key of a pair. */
  lemma {:induction false} PutAllKeys(m: map<string, string>, pairs: seq<(string, string)>, v: string, k: string)
    requires k in PutAll(m, pairs, v) && k !in m
    ensures exists j :: 0 <= j < |pairs| && KeyAt(pairs, j, v) == k
    decreases |pairs|
  {
    var n := |pairs| - 1;
    var init := pairs[..n];
    if KeyAt(pairs, n, v) != k {
      assert forall j :: 0 <= j < n ==> init[j] == pairs[j];
      PutAllKeys(m, init, v, k);
      var j :| 0 <= j < n && KeyAt(init, j, v) == k;
      assert KeyAt(pairs, j, v) == k;
    }
  }

  /** A pair whose filled key no later pair repeats determines that key's
      value: the last write wins. */
  lemma {:induction false} PutAllLastWins(m: map<string, string>, pairs: seq<(string, string)>, v: string, j: int)
    requires 0 <= j < |pairs|
    requires forall j' :: j < j' < |pairs| ==> KeyAt(pairs, j', v) != KeyAt(pairs, j, v)
    ensures PutAll(m, pairs, v)[KeyAt(pairs, j, v)] == Fill(pairs[j].1, v)
    decreases |pairs|
  {
    var n := |pairs| - 1;
    if j < n {
      var init := pairs[..n];
      forall i | 0 <= i < n
        ensures KeyAt(init, i, v) == KeyAt(pairs, i, v)
      {
      }
      assert KeyAt(pairs, n, v) != KeyAt(pairs, j, v);
      PutAllLastWins(m, init, v, j);
    }
  }

  /** A key of `m` that no pair writes keeps its value. */
  lemma {:induction false} PutAllKeeps(m: map<string, string>, pairs: seq<(string, string)>, v: string, k: string)
    requires k in m
    requires forall j :: 0 <= j < |pairs| ==> KeyAt(pairs, j, v) != k
    ensures PutAll(m, pairs, v)[k] == m[k]
    decreases |pairs|
  {
    if |pairs| > 0 {
      var n := |pairs| - 1;
      var init := pairs[..n];
      forall i | 0 <= i < n
        ensures KeyAt(init, i, v) == KeyAt(pairs, i, v)
      {
      }
      assert KeyAt(pairs, n, v) != k;
      PutAllKeeps(m, init, v, k);
    }
  }

  /** The instance takes part in the bindings: INTERSECT with a non-empty
      binding list. */
  predicate Contributes(x: CriterionInstance) {
    && x.typeCode == TYPE_INTERSECT
    && x.criterion.valuesForNewTasks.Some?
    && |x.criterion.valuesForNewTasks.value| > 0
  }

  /** One instance of the `values` loop: only INTERSECT instances with
      bindings contribute, and a missing value throws at the first binding. */
  function Contribute(m: map<string, string>, x: CriterionInstance): (r: Result<map<string, string>>)
    ensures !Contributes(x) ==> r == Success(m)
    ensures Contributes(x) ==> (r.Failure? <==> GetValue(x).None?)
    ensures r.Failure? ==> r.error == NullPointerException
    ensures Contributes(x) && r.Success? ==>
      r.value == PutAll(m, x.criterion.valuesForNewTasks.value, GetValue(x).value)
  {
    if x.criterion.valuesForNewTasks.None? || x.typeCode != TYPE_INTERSECT then Success(m)
    else
      var pairs := x.criterion.valuesForNewTasks.value;
      if |pairs| == 0 then Success(m)
      else match GetValue(x)
        case None => Failure(NullPointerException)
        case Some(v) => Success(PutAll(m, pairs, v))
  }

  /** The `values` getter. */
  function Values(l: seq<CriterionInstance>): (r: Result<map<string, string>>)
    ensures r.Failure? <==> exists i :: 0 <= i < |l| && Contributes(l[i]) && GetValue(l[i]).None?
    ensures r.Failure? ==> r.error == NullPointerException
    ensures (forall i :: 0 <= i < |l| ==> !Contributes(l[i])) ==> r == Success(map[])
  {
    if |l| == 0 then Success(map[])
    else
      var init := l[..|l| - 1];
      assert forall i :: 0 <= i < |init| ==> init[i] == l[i];
      var m :- Values(init);
      Contribute(m, l[|l| - 1])
  }

  /** A later instance overwrites the bindings of earlier ones: appending a
      contributing instance puts its filled pairs over the bindings so far,
      and appending any other instance changes nothing. */
  lemma ValuesAppend(l: seq<CriterionInstance>, x: CriterionInstance)
    requires Values(l).Success?
    ensures !Contributes(x) ==> Values(l + [x]) == Values(l)
    ensures Contributes(x) && GetValue(x).Some? ==>
      Values(l + [x]) == Success(PutAll(Values(l).value, x.criterion.valuesForNewTasks.value, GetValue(x).value))
  {
    assert (l + [x])[..|l|] == l;
  }
}
