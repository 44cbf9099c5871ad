/** The list edits and the save step of the custom-filter editor
    (`FilterSettingsActivity`): the starting universe, replacing the whole
    list, deleting and moving an instance, the connective toggle, and the
    checks `save` makes before it stores a filter. */
module FilterSettings {
  import opened Base
  import opened Strings
  import opened Criteria
  import opened Codec
  import opened Composer
  import opened Counter

  /** `universe()`: a one-element list holding a fresh instance of the
      catalog's starting universe, marked as the universe. */
  function Universe(startingUniverse: CustomFilterCriterion, id: string): (r: seq<CriterionInstance>)
    ensures |r| == 1
    ensures r[0].criterion == startingUniverse && r[0].id == id
    ensures r[0].typeCode == TYPE_UNIVERSE
    ensures r[0].selectedIndex == -1 && r[0].selectedText.None?
    ensures r[0].start == 0 && r[0].end == 0 && r[0].max == 0
  {
    [NewInstance(startingUniverse, id).(typeCode := TYPE_UNIVERSE)]
  }

  /** The list `setCriteria` keeps: the given one, or the universe alone
      when it is empty. */
  function Initial(l: seq<CriterionInstance>, startingUniverse: CustomFilterCriterion, id: string)
    : (r: seq<CriterionInstance>)
    ensures |r| >= 1
    ensures |l| > 0 ==> r == l
    ensures |l| == 0 ==> r == Universe(startingUniverse, id)
  {
    if |l| == 0 then Universe(startingUniverse, id) else l
  }

  /** The universe alone composes to the active-and-visible base and its
      count query never throws. */
  lemma UniverseComposes(startingUniverse: CustomFilterCriterion, id: string, svc: Services)
    ensures Sql(Universe(startingUniverse, id), svc) == Success(" WHERE " + svc.activeAndVisible)
    ensures forall i :: 0 <= i < 1 ==> CountClause(Universe(startingUniverse, id)[i], svc).Success?
  {
    UniverseAlone(Universe(startingUniverse, id)[0], svc);
  }

  /** `setCriteria`: keep the list (the universe alone for an empty one) and
      recount it. The universe alone never throws while counting. */
  method SetCriteria(l: seq<CriterionInstance>, startingUniverse: CustomFilterCriterion, id: string, svc: Services)
    returns (r: Result<seq<CriterionInstance>>)
    ensures |l| == 0 ==> r.Success?
    ensures r.Success? <==> forall i :: 0 <= i < |Initial(l, startingUniverse, id)| ==>
      CountClause(Initial(l, startingUniverse, id)[i], svc).Success?
    ensures r.Success? ==> Annotated(Initial(l, startingUniverse, id), svc, r.value)
    ensures r.Success? && |l| == 0 ==> |r.value| == 1 && r.value[0].typeCode == TYPE_UNIVERSE
    ensures r.Failure? ==> r.error == NullPointerException
  {
    if |l| == 0 {
      UniverseComposes(startingUniverse, id, svc);
    }
    r := UpdateList(Initial(l, startingUniverse, id), svc);
  }

  /** `l` without its element at `i`. */
  function Remove(l: seq<CriterionInstance>, i: int): (r: seq<CriterionInstance>)
    requires 0 <= i < |l|
    ensures |r| == |l| - 1
    ensures forall j :: 0 <= j < i ==> r[j] == l[j]
    ensures forall j :: i <= j < |r| ==> r[j] == l[j + 1]
    ensures multiset(r) + multiset{l[i]} == multiset(l)
  {
    assert l == l[..i] + [l[i]] + l[i + 1..];
    l[..i] + l[i + 1..]
  }

  /** `l` with `x` inserted before position `i`. */
  function Insert(l: seq<CriterionInstance>, i: int, x: CriterionInstance): (r: seq<CriterionInstance>)
    requires 0 <= i <= |l|
    ensures |r| == |l| + 1
    ensures r[i] == x
    ensures forall j :: 0 <= j < i ==> r[j] == l[j]
    ensures forall j :: i < j < |r| ==> r[j] == l[j - 1]
    ensures multiset(r) == multiset(l) + multiset{x}
  {
    assert l == l[..i] + l[i..];
    l[..i] + [x] + l[i..]
  }

  /** `MutableList.removeAt(i)`: throws for an index outside the list. */
  function RemoveAt(l: seq<CriterionInstance>, i: int): (r: Result<seq<CriterionInstance>>)
    ensures r.Success? <==> 0 <= i < |l|
    ensures r.Failure? ==> r.error == IndexOutOfBoundsException(i)
    ensures r.Success? ==> r.value == Remove(l, i)
  {
    if 0 <= i < |l| then Success(Remove(l, i)) else Failure(IndexOutOfBoundsException(i))
  }

  /** The clauses of the list without instance `index` are those of the
      other instances. */
  lemma RemoveClauses(l: seq<CriterionInstance>, index: int, svc: Services)
    requires 0 <= index < |l|
    ensures (forall i :: 0 <= i < |l| - 1 ==> CountClause(Remove(l, index)[i], svc).Success?)
      <==> (forall i :: 0 <= i < |l| && i != index ==> CountClause(l[i], svc).Success?)
  {
    var rest := Remove(l, index);
    if forall i :: 0 <= i < |l| - 1 ==> CountClause(rest[i], svc).Success? {
      forall i | 0 <= i < |l| && i != index
        ensures CountClause(l[i], svc).Success?
      {
        if i < index {
          assert l[i] == rest[i];
        } else {
          assert l[i] == rest[i - 1];
        }
      }
    }
  }

  /** `onDelete(index)`: remove exactly that instance and recount the rest. */
  method OnDelete(l: seq<CriterionInstance>, index: int, svc: Services) returns (r: Result<seq<CriterionInstance>>)
    ensures !(0 <= index < |l|) ==> r == Failure(IndexOutOfBoundsException(index))
    ensures 0 <= index < |l| ==>
      (r.Success? <==> forall i :: 0 <= i < |l| && i != index ==> CountClause(l[i], svc).Success?)
    ensures 0 <= index < |l| && r.Success? ==> Annotated(Remove(l, index), svc, r.value)
  {
    var removed := RemoveAt(l, index);
    if removed.Failure? {
      return Failure(removed.error);
    }
    RemoveClauses(l, index, svc);
    r := UpdateList(removed.value, svc);
  }

  /** `onMove(from, to)`: take the instance out at `from` and put it back at
      `to` of the shortened list; either index outside its list throws. The
      counts are not recomputed here. */
  function OnMove(l: seq<CriterionInstance>, from: int, to: int): (r: Result<seq<CriterionInstance>>)
    ensures r.Success? <==> 0 <= from < |l| && 0 <= to < |l|
    ensures !(0 <= from < |l|) ==> r == Failure(IndexOutOfBoundsException(from))
    ensures 0 <= from < |l| && !(0 <= to < |l|) ==> r == Failure(IndexOutOfBoundsException(to))
    ensures r.Success? ==> |r.value| == |l| && r.value[to] == l[from]
    ensures r.Success? ==> multiset(r.value) == multiset(l)
    ensures r.Success? ==> Remove(r.value, to) == Remove(l, from)
  {
    var rest :- RemoveAt(l, from);
    if 0 <= to <= |rest| then
      var moved := Insert(rest, to, l[from]);
      assert Remove(moved, to) == rest;
      Success(moved)
    else Failure(IndexOutOfBoundsException(to))
  }

  /** Moving an instance keeps every other instance in its relative order:
      those outside the moved range stay put, those inside shift by one
      towards the vacated slot. */
  lemma MoveShifts(l: seq<CriterionInstance>, from: int, to: int)
    requires 0 <= from < |l| && 0 <= to < |l|
    ensures var r := OnMove(l, from, to).value;
      && (forall j :: 0 <= j < |l| && j < from && j < to ==> r[j] == l[j])
      && (forall j :: 0 <= j < |l| && j > from && j > to ==> r[j] == l[j])
      && (forall j :: from <= j < to ==> r[j] == l[j + 1])
      && (forall j :: to < j <= from ==> r[j] == l[j - 1])
  {
    var rest := Remove(l, from);
    var r := Insert(rest, to, l[from]);
    assert OnMove(l, from, to).value == r;
    forall j | 0 <= j < |l| && j < from && j < to
      ensures r[j] == l[j]
    {
      assert r[j] == rest[j];
    }
    forall j | 0 <= j < |l| && j > from && j > to
      ensures r[j] == l[j]
    {
      assert r[j] == rest[j - 1];
    }
    forall j | from <= j < to
      ensures r[j] == l[j + 1]
    {
      assert r[j] == rest[j];
    }
    forall j | to < j <= from
      ensures r[j] == l[j - 1]
    {
      assert r[j] == rest[j - 1];
    }
  }

  /** Putting a removed instance back at its place restores the list. */
  lemma InsertRemoved(l: seq<CriterionInstance>, i: int)
    requires 0 <= i < |l|
    ensures Insert(Remove(l, i), i, l[i]) == l
  {
    assert l == l[..i] + [l[i]] + l[i + 1..];
  }

  /** Moving an instance back where it came from restores the list. */
  lemma MoveBack(l: seq<CriterionInstance>, from: int, to: int)
    requires 0 <= from < |l| && 0 <= to < |l|
    ensures OnMove(OnMove(l, from, to).value, to, from) == Success(l)
  {
    var r := OnMove(l, from, to).value;
    InsertRemoved(r, to);
    InsertRemoved(l, from);
    assert OnMove(r, to, from) == Success(Insert(Remove(r, to), from, r[to]));
  }

  /** The three buttons of the connective toggle, and any other view id. */
  datatype ButtonId = ButtonOr | ButtonNot | ButtonAnd | OtherButton(viewId: int)

  /** `getSelected`: the button shown checked for an instance. */
  function GetSelected(x: CriterionInstance): (r: ButtonId)
    ensures r == ButtonOr <==> x.typeCode == TYPE_ADD
    ensures r == ButtonNot <==> x.typeCode == TYPE_SUBTRACT
    ensures r == ButtonAnd <==> x.typeCode != TYPE_ADD && x.typeCode != TYPE_SUBTRACT
  {
    if x.typeCode == TYPE_ADD then ButtonOr
    else if x.typeCode == TYPE_SUBTRACT then ButtonNot
    else ButtonAnd
  }

  /** `getType`: the combination code a checked button stands for; any
      button but "or" and "not" means intersect. */
  function GetType(selected: ButtonId): (r: int)
    ensures r == TYPE_ADD <==> selected == ButtonOr
    ensures r == TYPE_SUBTRACT <==> selected == ButtonNot
    ensures r == TYPE_INTERSECT <==> selected != ButtonOr && selected != ButtonNot
  {
    match selected
    case ButtonOr => TYPE_ADD
    case ButtonNot => TYPE_SUBTRACT
    case _ => TYPE_INTERSECT
  }

  /** Opening the toggle and confirming without a change keeps an add,
      subtract or intersect code, and turns the universe (or any other
      code) into intersect. */
  lemma ToggleRoundTrip(x: CriterionInstance)
    ensures TYPE_ADD <= x.typeCode <= TYPE_INTERSECT ==> GetType(GetSelected(x)) == x.typeCode
    ensures !(TYPE_ADD <= x.typeCode <= TYPE_INTERSECT) ==> GetType(GetSelected(x)) == TYPE_INTERSECT
  {
  }

  /** The index of the first instance with identity `id`, if any. */
  function FindId(l: seq<CriterionInstance>, id: string): (r: Option<nat>)
    ensures r.Some? ==> r.value < |l| && l[r.value].id == id
    ensures r.Some? ==> forall j :: 0 <= j < r.value ==> l[j].id != id
    ensures r.None? ==> forall j :: 0 <= j < |l| ==> l[j].id != id
  {
    if |l| == 0 then None
    else if l[0].id == id then Some(0)
    else match FindId(l[1..], id)
      case None => None
      case Some(k) => Some(k + 1)
  }

  /** The list effect of confirming the toggle dialog of `onClick`: the
      first instance with identity `replaceId` gets the checked button's
      code, and nothing else changes; a missing instance throws (`!!`). The
      recount that follows is `UpdateList`. */
  function ApplyToggle(l: seq<CriterionInstance>, replaceId: string, checked: ButtonId)
    : (r: Result<seq<CriterionInstance>>)
    ensures r.Failure? <==> forall j :: 0 <= j < |l| ==> l[j].id != replaceId
    ensures r.Failure? ==> r.error == NullPointerException
    ensures r.Success? ==> |r.value| == |l|
    ensures r.Success? ==>
      exists k :: (0 <= k < |l| && l[k].id == replaceId
        && (forall j :: 0 <= j < k ==> l[j].id != replaceId)
        && r.value[k] == l[k].(typeCode := GetType(checked))
        && forall j :: 0 <= j < |l| && j != k ==> r.value[j] == l[j])
  {
    match FindId(l, replaceId)
    case None => Failure(NullPointerException)
    case Some(k) => Success(l[k := l[k].(typeCode := GetType(checked))])
  }

  /** `it <= ' '`: what `newName`'s `trim` removes. */
  predicate IsControlOrSpace(c: char) {
    c <= ' '
  }

  /** `trim { it <= ' ' }`: the slice of `s` left after characters up to
      the space are dropped from both ends. */
  function TrimControl(s: string): (r: string)
    ensures |r| <= |s|
    ensures exists a :: StrippedTo(s, r, a, IsControlOrSpace)
    ensures |r| > 0 ==> !IsControlOrSpace(r[0]) && !IsControlOrSpace(r[|r| - 1])
    ensures |r| == 0 <==> forall i :: 0 <= i < |s| ==> IsControlOrSpace(s[i])
  {
    if |s| == 0 then
      assert StrippedTo(s, s, 0, IsControlOrSpace);
      s
    else if IsControlOrSpace(s[0]) then
      assert forall i :: 1 <= i < |s| ==> s[1..][i - 1] == s[i];
      var r := TrimControl(s[1..]);
      StripFront(s, r, IsControlOrSpace);
      r
    else if IsControlOrSpace(s[|s| - 1]) then
      assert forall i :: 0 <= i < |s| - 1 ==> s[..|s| - 1][i] == s[i];
      var r := TrimControl(s[..|s| - 1]);
      StripBack(s, s[..|s| - 1], r, IsControlOrSpace);
      r
    else
      assert s[0..0 + |s|] == s;
      assert StrippedTo(s, s, 0, IsControlOrSpace);
      s
  }

  /** What `save` does when it does not throw: ask for a name, store
      nothing because nothing changed, or store the filter built from the
      list. */
  datatype SaveOutcome =
    | NameRequired
    | NothingToSave
    | Saved(title: string, values: map<string, string>, criterion: string, sql: string)

  /** `save`. The name is trimmed and must not be empty; `changed` is
      `hasChanges()`. The new-task values are computed first, then the
      serialized list, which must not be blank, then the composed sql; each
      step may throw. The DAO write and the result intent are not modelled. */
  function Save(name: string, changed: bool, l: seq<CriterionInstance>, tok: Tokens, svc: Services)
    : (r: Result<SaveOutcome>)
    requires |tok.escape| > 0
    ensures r == Success(NameRequired) <==> |TrimControl(name)| == 0
    ensures r == Success(NothingToSave) <==> |TrimControl(name)| > 0 && !changed
    ensures r.Failure? && r.error.RuntimeException? ==>
      Values(l).Success? && IsBlank(Serialize(l, tok))
    ensures r.Failure? ==> Values(l).Failure? || IsBlank(Serialize(l, tok)) || Sql(l, svc).Failure?
    ensures (|TrimControl(name)| > 0 && changed && Values(l).Success? && !IsBlank(Serialize(l, tok))
      && Sql(l, svc).Success?) ==> r.Success? && r.value.Saved?
    ensures r.Success? && r.value.Saved? ==>
      && r.value.title == TrimControl(name)
      && Values(l) == Success(r.value.values)
      && r.value.criterion == Serialize(l, tok) && !IsBlank(r.value.criterion)
      && Sql(l, svc) == Success(r.value.sql)
  {
    var newName := TrimControl(name);
    if |newName| == 0 then Success(NameRequired)
    else if !changed then Success(NothingToSave)
    else
      var values :- Values(l);
      var criterion := Serialize(l, tok);
      if IsBlank(criterion) then Failure(RuntimeException("Criterion cannot be empty"))
      else
        var sql :- Sql(l, svc);
        Success(Saved(newName, values, criterion, sql))
  }

  /** Saving a changed, named filter fails on the blank check exactly when
      the list is empty, for lists the codec can write: an empty list
      serializes to the empty text, a non-empty one to its records. */
  lemma BlankCriterionIffEmpty(name: string, l: seq<CriterionInstance>, tok: Tokens, svc: Services)
    requires ValidTokens(tok)
    requires forall i :: 0 <= i < |l| ==> Encodable(l[i], tok)
    requires |TrimControl(name)| > 0
    ensures (Save(name, true, l, tok, svc) == Failure(RuntimeException("Criterion cannot be empty")))
      <==> |l| == 0
  {
    var r := Save(name, true, l, tok, svc);
    if |l| > 0 {
      SerializedLines(l, tok);
      var text := Serialize(l, tok);
      assert !IsWhitespace(text[0]);
      assert !IsBlank(text);
    } else {
      assert Values(l) == Success(map[]);
      assert Serialize(l, tok) == [];
      assert r == Failure(RuntimeException("Criterion cannot be empty"));
    }
  }

}
