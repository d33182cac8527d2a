/**
 Running a plan builds the draft: exactly when no draft name is given twice or still the name of a column
 that is renamed later, and not every column is dropped.
 */
module DdlCorrectness {
  import opened Wrappers
  import opened TableDdl
  import Lists

  predicate DistinctNames(columns: seq<Column>)
  {
    forall i, j :: 0 <= i < j < |columns| ==> columns[i].name != columns[j].name
  }

  predicate DistinctSources(draft: seq<Column>)
  {
    forall i, j :: 0 <= i < j < |draft| && draft[i].sourceName.Some? ==> draft[j].sourceName != draft[i].sourceName
  }

  predicate SourcesExist(original: seq<Column>, draft: seq<Column>)
  {
    forall j :: 0 <= j < |draft| && draft[j].sourceName.Some? ==> Find(original, draft[j].sourceName.value).Some?
  }

  predicate WellFormed(original: seq<Column>, draft: seq<Column>)
  {
    DistinctNames(original) && DistinctSources(draft) && SourcesExist(original, draft)
  }

  /** No earlier draft column has taken this one's name, and no later one still has it in the table. */
  predicate IsFree(draft: seq<Column>, i: nat)
    requires i < |draft|
  {
    && (forall j :: 0 <= j < i ==> draft[j].name != draft[i].name)
    && (forall j :: i < j < |draft| ==> !IsSource(draft[j], draft[i].name))
  }

  predicate AllFree(draft: seq<Column>, low: nat, high: nat)
    requires high <= |draft|
  {
    forall i :: low <= i < high ==> IsFree(draft, i)
  }

  /** There are columns, and every one of them is dropped. */
  predicate LosesAll(original: seq<Column>, draft: seq<Column>)
  {
    original != [] && forall i :: 0 <= i < |original| ==> !IsRetained(draft, original[i].name)
  }

  // ----- the table when the first `k` draft columns are done

  function IndexOf(draft: seq<Column>, name: string): (index: Option<nat>)
    ensures index.Some? ==> index.value < |draft| && IsSource(draft[index.value], name)
    ensures index.None? <==> !IsRetained(draft, name)
  {
    if draft == [] then None
    else
      var rest := IndexOf(draft[1..], name);
      if IsSource(draft[0], name) then Some(0)
      else if rest.Some? then Some(rest.value + 1)
      else
        assert forall j :: 1 <= j < |draft| ==> draft[j] == draft[1..][j - 1];
        None
  }

  lemma IndexIsUnique(draft: seq<Column>, name: string, j: nat)
    requires DistinctSources(draft) && j < |draft| && IsSource(draft[j], name)
    ensures IndexOf(draft, name) == Some(j)
  {
    assert IsRetained(draft, name);
    var k := IndexOf(draft, name).value;
    assert draft[k].sourceName == draft[j].sourceName;
  }

  function Kept(column: Column, draft: seq<Column>, k: nat): seq<Column>
  {
    match IndexOf(draft, column.name)
    case None => []
    case Some(j) => [if j < k then Shape(draft[j]) else Shape(column)]
  }

  function Retained(original: seq<Column>, draft: seq<Column>, k: nat): seq<Column>
  {
    if original == [] then [] else Kept(original[0], draft, k) + Retained(original[1..], draft, k)
  }

  function Added(draft: seq<Column>): seq<Column>
  {
    if draft == [] then []
    else
      var n := |draft| - 1;
      Added(draft[..n]) + (if draft[n].sourceName.None? then [Shape(draft[n])] else [])
  }

  function TableAt(original: seq<Column>, draft: seq<Column>, k: nat): seq<Column>
    requires k <= |draft|
  {
    Retained(original, draft, k) + Added(draft[..k])
  }

  // ----- names

  lemma HasNameOfBoth(left: seq<Column>, right: seq<Column>, name: string)
    ensures HasName(left + right, name) <==> HasName(left, name) || HasName(right, name)
  {
    if i :| 0 <= i < |left| && left[i].name == name {
      assert (left + right)[i].name == name;
    }
    if i :| 0 <= i < |right| && right[i].name == name {
      assert (left + right)[|left| + i].name == name;
    }
  }

  ghost predicate NameIsDone(draft: seq<Column>, k: nat, name: string)
  {
    exists i :: 0 <= i < k && i < |draft| && draft[i].name == name
  }

  ghost predicate NameIsAhead(draft: seq<Column>, k: nat, name: string)
  {
    exists j :: k <= j < |draft| && IsSource(draft[j], name)
  }

  lemma {:induction false} RetainedNames(original: seq<Column>, draft: seq<Column>, k: nat, name: string)
    ensures HasName(Retained(original, draft, k), name) ==> NameIsDone(draft, k, name) || NameIsAhead(draft, k, name)
  {
    if original != [] {
      var head := Kept(original[0], draft, k);
      RetainedNames(original[1..], draft, k, name);
      HasNameOfBoth(head, Retained(original[1..], draft, k), name);
      if HasName(head, name) {
        var j := IndexOf(draft, original[0].name).value;
        assert head[0].name == name;
        if j < k {
          assert draft[j].name == name;
        } else {
          assert IsSource(draft[j], name);
        }
      }
    }
  }

  lemma {:induction false} RetainedHasName(original: seq<Column>, draft: seq<Column>, k: nat, column: Column, j: nat)
    requires column in original && DistinctSources(draft) && j < |draft| && IsSource(draft[j], column.name)
    ensures HasName(Retained(original, draft, k), if j < k then draft[j].name else column.name)
  {
    var head, rest := Kept(original[0], draft, k), Retained(original[1..], draft, k);
    if original[0] == column {
      IndexIsUnique(draft, column.name, j);
      assert head[0].name == if j < k then draft[j].name else column.name;
    } else {
      RetainedHasName(original[1..], draft, k, column, j);
    }
    HasNameOfBoth(head, rest, if j < k then draft[j].name else column.name);
  }

  lemma {:induction false} AddedNames(draft: seq<Column>, name: string)
    ensures HasName(Added(draft), name) <==>
            exists i :: 0 <= i < |draft| && draft[i].sourceName.None? && draft[i].name == name
    decreases |draft|
  {
    if draft != [] {
      var n := |draft| - 1;
      var last := if draft[n].sourceName.None? then [Shape(draft[n])] else [];
      AddedNames(draft[..n], name);
      HasNameOfBoth(Added(draft[..n]), last, name);
      if draft[n].sourceName.None? && draft[n].name == name {
        assert last[0].name == name;
      }
    }
  }

  /** The names in the table: those done, and the sources still ahead. */
  lemma NamesAt(original: seq<Column>, draft: seq<Column>, k: nat, name: string)
    requires WellFormed(original, draft) && k <= |draft|
    ensures HasName(TableAt(original, draft, k), name) <==> NameIsDone(draft, k, name) || NameIsAhead(draft, k, name)
  {
    hide Retained, Added, HasName;
    HasNameOfBoth(Retained(original, draft, k), Added(draft[..k]), name);
    RetainedNames(original, draft, k, name);
    AddedNames(draft[..k], name);
    if NameIsDone(draft, k, name) {
      var i :| 0 <= i < k && draft[i].name == name;
      if draft[i].sourceName.Some? {
        RetainedHasName(original, draft, k, Find(original, draft[i].sourceName.value).value, i);
      } else {
        assert draft[..k][i].name == name;
      }
    } else if NameIsAhead(draft, k, name) {
      var j :| k <= j < |draft| && IsSource(draft[j], name);
      RetainedHasName(original, draft, k, Find(original, name).value, j);
    }
  }

  // ----- one edit

  lemma {:induction false} ReplacedIsRetained(original: seq<Column>, draft: seq<Column>, k: nat)
    requires DistinctSources(draft) && k < |draft| && draft[k].sourceName.Some? && AllFree(draft, 0, k)
    ensures Replaced(Retained(original, draft, k), draft[k].sourceName.value, Shape(draft[k])) ==
            Retained(original, draft, k + 1)
  {
    if original != [] {
      ReplacedIsRetained(original[1..], draft, k);
      var source := draft[k].sourceName.value;
      match IndexOf(draft, original[0].name) {
        case None =>
          assert Retained(original, draft, k) == Retained(original[1..], draft, k);
          assert Retained(original, draft, k + 1) == Retained(original[1..], draft, k + 1);
        case Some(j) =>
          var table := Retained(original, draft, k);
          assert table[1..] == Retained(original[1..], draft, k);
          if j < k {
            assert IsFree(draft, j);
            assert !IsSource(draft[k], draft[j].name);
          } else if j > k {
            assert draft[j].sourceName != draft[k].sourceName;
          }
      }
    }
  }

  lemma {:induction false} ReplacedKeeps(table: seq<Column>, name: string, column: Column)
    requires !HasName(table, name)
    ensures Replaced(table, name, column) == table
  {
    if table != [] {
      assert table[0].name != name;
      assert forall i :: 0 <= i < |table[1..]| ==> table[1..][i] == table[i + 1];
      ReplacedKeeps(table[1..], name, column);
    }
  }

  lemma {:induction false} ReplacedOfBoth(left: seq<Column>, right: seq<Column>, name: string, column: Column)
    ensures Replaced(left + right, name, column) == Replaced(left, name, column) + Replaced(right, name, column)
  {
    if left == [] {
      assert left + right == right;
    } else {
      assert (left + right)[1..] == left[1..] + right;
      ReplacedOfBoth(left[1..], right, name, column);
    }
  }

  lemma AddedStep(draft: seq<Column>, k: nat)
    requires k < |draft|
    ensures Added(draft[..k + 1]) == Added(draft[..k]) + if draft[k].sourceName.None? then [Shape(draft[k])] else []
  {
    assert draft[..k + 1][..k] == draft[..k];
  }

  /** Replacing the source by the draft column leads to the next table. */
  lemma ChangeReachesNext(original: seq<Column>, draft: seq<Column>, k: nat)
    requires WellFormed(original, draft) && k < |draft| && draft[k].sourceName.Some? && AllFree(draft, 0, k)
    ensures Replaced(TableAt(original, draft, k), draft[k].sourceName.value, Shape(draft[k])) ==
            TableAt(original, draft, k + 1)
  {
    hide Retained, Replaced, Added, HasName;
    var source := draft[k].sourceName.value;
    ReplacedIsRetained(original, draft, k);
    ReplacedOfBoth(Retained(original, draft, k), Added(draft[..k]), source, Shape(draft[k]));
    AddedNames(draft[..k], source);
    forall i | 0 <= i < k ensures draft[..k][i].name != source {
      assert IsFree(draft, i);
      assert !IsSource(draft[k], draft[i].name);
    }
    ReplacedKeeps(Added(draft[..k]), source, Shape(draft[k]));
    AddedStep(draft, k);
  }

  lemma {:induction false} RetainedIgnoresAdded(original: seq<Column>, draft: seq<Column>, k: nat)
    requires k < |draft| && draft[k].sourceName.None?
    ensures Retained(original, draft, k) == Retained(original, draft, k + 1)
  {
    hide Shape, IndexOf;
    if original != [] {
      RetainedIgnoresAdded(original[1..], draft, k);
      assert Kept(original[0], draft, k) == Kept(original[0], draft, k + 1);
    }
  }

  lemma AddReachesNext(original: seq<Column>, draft: seq<Column>, k: nat)
    requires k < |draft| && draft[k].sourceName.None?
    ensures TableAt(original, draft, k) + [Shape(draft[k])] == TableAt(original, draft, k + 1)
  {
    hide Retained, Added;
    RetainedIgnoresAdded(original, draft, k);
    AddedStep(draft, k);
  }

  lemma {:induction false} RetainedKeepsSame(original: seq<Column>, draft: seq<Column>, k: nat, before: Column)
    requires k < |draft| && draft[k].sourceName == Some(before.name) && Shape(draft[k]) == Shape(before)
    requires forall i :: 0 <= i < |original| && original[i].name == before.name ==> original[i] == before
    ensures Retained(original, draft, k) == Retained(original, draft, k + 1)
  {
    hide Shape, IndexOf;
    if original != [] {
      RetainedKeepsSame(original[1..], draft, k, before);
      assert Kept(original[0], draft, k) == Kept(original[0], draft, k + 1);
    }
  }

  lemma KeepReachesNext(original: seq<Column>, draft: seq<Column>, k: nat, rules: Rules)
    requires WellFormed(original, draft) && k < |draft| && AllFree(draft, 0, k)
    requires EditOf(original, draft[k], rules).Keep?
    ensures IsFree(draft, k) && TableAt(original, draft, k) == TableAt(original, draft, k + 1)
  {
    hide Retained, Added;
    var before := Find(original, draft[k].sourceName.value).value;
    RetainedKeepsSame(original, draft, k, before);
    AddedStep(draft, k);
    assert draft[k].name == draft[k].sourceName.value;
    OwnNameIsFree(draft, k);
  }

  /** A column that keeps its name finds it free: an earlier draft column would not have been free itself. */
  lemma OwnNameIsFree(draft: seq<Column>, k: nat)
    requires k < |draft| && AllFree(draft, 0, k) && DistinctSources(draft) && IsSource(draft[k], draft[k].name)
    ensures IsFree(draft, k)
  {
    forall j | 0 <= j < k ensures draft[j].name != draft[k].name {
      assert IsFree(draft, j);
    }
  }

  /** An emitted statement runs exactly when its name is free, and then leads to the next table. */
  lemma EmitReachesNext(original: seq<Column>, draft: seq<Column>, k: nat, rules: Rules)
    requires WellFormed(original, draft) && k < |draft| && AllFree(draft, 0, k)
    requires EditOf(original, draft[k], rules).Emit?
    ensures Execute(EditOf(original, draft[k], rules).statement, TableAt(original, draft, k)) ==
            if IsFree(draft, k) then Some(TableAt(original, draft, k + 1)) else None
  {
    hide TableAt, HasName, SameColumn;
    NamesAt(original, draft, k, draft[k].name);
    match draft[k].sourceName {
      case None =>
        AddReachesNext(original, draft, k);
        AheadIsNotFree(draft, k);
      case Some(source) =>
        NamesAt(original, draft, k, source);
        assert IsSource(draft[k], source);
        ChangeReachesNext(original, draft, k);
        if draft[k].name != source {
          AheadIsNotFree(draft, k);
        } else {
          OwnNameIsFree(draft, k);
        }
    }
  }

  lemma AheadIsNotFree(draft: seq<Column>, k: nat)
    requires k < |draft| && !IsSource(draft[k], draft[k].name)
    ensures NameIsDone(draft, k, draft[k].name) || NameIsAhead(draft, k, draft[k].name) <==> !IsFree(draft, k)
  {
    if NameIsAhead(draft, k, draft[k].name) {
      var j :| k <= j < |draft| && IsSource(draft[j], draft[k].name);
      assert j != k;
    }
  }

  // ----- whole runs

  lemma {:induction false} RunOfEdits(original: seq<Column>, draft: seq<Column>, k: nat, rules: Rules)
    requires WellFormed(original, draft) && k <= |draft| && AllFree(draft, 0, k)
    requires Refusals(original, draft[k..], rules) == []
    ensures Run(Edits(original, draft[k..], rules), TableAt(original, draft, k)) ==
            if AllFree(draft, k, |draft|) then Some(TableAt(original, draft, |draft|)) else None
    decreases |draft| - k
  {
    hide EditOf, Execute, TableAt, IsFree, Edits, Refusals, WellFormed;
    if k == |draft| {
      assert draft[k..] == [];
      NothingToEdit(original, rules);
    } else {
      EditStep(original, draft, rules, k);
      var rest := Edits(original, draft[k + 1..], rules);
      match EditOf(original, draft[k], rules) {
        case Refuse(_) =>
        case Keep =>
          KeepReachesNext(original, draft, k, rules);
          RunOfEdits(original, draft, k + 1, rules);
          assert [] + rest == rest;
        case Emit(statement) =>
          EmitReachesNext(original, draft, k, rules);
          assert ([statement] + rest)[1..] == rest;
          if IsFree(draft, k) {
            RunOfEdits(original, draft, k + 1, rules);
          }
      }
    }
  }

  lemma {:induction false} WithoutOfBoth(left: seq<Column>, right: seq<Column>, name: string)
    ensures Without(left + right, name) == Without(left, name) + Without(right, name)
  {
    if left == [] {
      assert left + right == right;
    } else {
      assert (left + right)[1..] == left[1..] + right;
      WithoutOfBoth(left[1..], right, name);
    }
  }

  lemma {:induction false} WithoutKeeps(table: seq<Column>, name: string)
    requires !HasName(table, name)
    ensures Without(table, name) == table
  {
    if table != [] {
      assert table[0].name != name;
      assert forall i :: 0 <= i < |table[1..]| ==> table[1..][i] == table[i + 1];
      WithoutKeeps(table[1..], name);
    }
  }

  lemma {:induction false} ShapesAt(columns: seq<Column>)
    ensures |Shapes(columns)| == |columns| && forall i :: 0 <= i < |columns| ==> Shapes(columns)[i] == Shape(columns[i])
  {
    if columns != [] {
      ShapesAt(columns[1..]);
    }
  }

  lemma ShapesSplit(original: seq<Column>)
    requires original != [] && DistinctNames(original)
    ensures Shapes(original) == [Shape(original[0])] + Shapes(original[1..]) && |Shapes(original)| == |original|
    ensures !HasName(Shapes(original[1..]), original[0].name)
  {
    ShapesAt(original);
    ShapesAt(original[1..]);
  }

  lemma WithoutMiddle(before: seq<Column>, column: Column, rest: seq<Column>)
    requires !HasName(before, column.name) && !HasName(rest, column.name)
    ensures Without(before + ([column] + rest), column.name) == before + rest
    ensures HasName(before + ([column] + rest), column.name)
  {
    hide Without, HasName;
    NameOfOne(column);
    WithoutOfBoth(before, [column] + rest, column.name);
    WithoutOfBoth([column], rest, column.name);
    WithoutKeeps(before, column.name);
    WithoutKeeps(rest, column.name);
    HasNameOfBoth(before, [column] + rest, column.name);
    HasNameOfBoth([column], rest, column.name);
  }

  /** A dropped column is gone, and the others stay. */
  lemma DropRemovesHead(before: seq<Column>, original: seq<Column>)
    requires original != [] && DistinctNames(original) && !HasName(before, original[0].name)
    ensures Execute(Drop(original[0].name), before + Shapes(original)) ==
            if before == [] && |original| == 1 then None else Some(before + Shapes(original[1..]))
  {
    hide Without, HasName, Shapes, DistinctNames;
    ShapesSplit(original);
    WithoutMiddle(before, Shape(original[0]), Shapes(original[1..]));
  }

  lemma NameOfOne(column: Column)
    ensures HasName([column], column.name) && Without([column], column.name) == []
  {
    assert [column][0].name == column.name;
  }

  lemma {:induction false} RunOfDrops(original: seq<Column>, draft: seq<Column>, before: seq<Column>)
    requires DistinctNames(original) && forall i :: 0 <= i < |original| ==> !HasName(before, original[i].name)
    ensures Run(Drops(original, draft), before + Shapes(original)) ==
            if before == [] && LosesAll(original, draft) then None else Some(before + Retained(original, draft, 0))
    decreases |original|
  {
    hide Execute, HasName, IsRetained, Shape, LosesAll, Kept, Run;
    if original == [] {
      NothingToDrop(before, draft);
    } else {
      var rest, column := original[1..], Shape(original[0]);
      LosesAllStep(original, draft);
      KeptAtStart(original[0], draft);
      assert forall i :: 0 <= i < |rest| ==> rest[i] == original[i + 1];
      if IsRetained(draft, original[0].name) {
        forall i | 0 <= i < |rest| ensures !HasName(before + [column], rest[i].name) {
          HasNameOfBoth(before, [column], rest[i].name);
          OtherName(original[0], rest[i].name);
        }
        RunOfDrops(rest, draft, before + [column]);
        assert [] + Drops(rest, draft) == Drops(rest, draft);
        assert before + ([column] + Shapes(rest)) == before + [column] + Shapes(rest);
        assert before + ([column] + Retained(rest, draft, 0)) == before + [column] + Retained(rest, draft, 0);
      } else {
        DropRemovesHead(before, original);
        RunOfDrops(rest, draft, before);
        RunStep(Drop(original[0].name), Drops(rest, draft), before + Shapes(original));
        assert [] + Retained(rest, draft, 0) == Retained(rest, draft, 0);
        if |original| == 1 {
          assert rest == [];
        }
      }
    }
  }

  lemma NothingToDrop(before: seq<Column>, draft: seq<Column>)
    ensures Run(Drops([], draft), before + Shapes([])) == Some(before + Retained([], draft, 0))
    ensures !LosesAll([], draft)
  {
  }

  lemma KeptAtStart(column: Column, draft: seq<Column>)
    ensures Kept(column, draft, 0) == if IsRetained(draft, column.name) then [Shape(column)] else []
  {
  }

  lemma RunStep(statement: Statement, rest: seq<Statement>, table: seq<Column>)
    ensures Run([statement] + rest, table) ==
            match Execute(statement, table)
            case None => None
            case Some(next) => Run(rest, next)
  {
    hide Execute;
    assert ([statement] + rest)[1..] == rest;
  }

  lemma OtherName(column: Column, name: string)
    requires column.name != name
    ensures !HasName([Shape(column)], name)
  {
  }

  lemma LosesAllStep(original: seq<Column>, draft: seq<Column>)
    requires original != []
    ensures LosesAll(original, draft) <==>
            !IsRetained(draft, original[0].name) && (|original| == 1 || LosesAll(original[1..], draft))
  {
    assert forall i :: 0 <= i < |original[1..]| ==> original[1..][i] == original[i + 1];
    assert forall i :: 1 <= i < |original| ==> original[i] == original[1..][i - 1];
  }

  // ----- the result

  /** Retained columns in the table's order, then the added ones in the draft's order. */
  function Final(original: seq<Column>, draft: seq<Column>): seq<Column>
  {
    TableAt(original, draft, |draft|)
  }

  lemma NoRefusals(original: seq<Column>, draft: seq<Column>, rules: Rules)
    requires PlanOf(original, draft, rules).errors == []
    ensures Refusals(original, draft, rules) == []
  {
  }

  lemma RunOfPlan(original: seq<Column>, draft: seq<Column>, rules: Rules)
    requires WellFormed(original, draft) && PlanOf(original, draft, rules).errors == []
    ensures Run(PlanOf(original, draft, rules).statements, Shapes(original)) ==
            if !LosesAll(original, draft) && AllFree(draft, 0, |draft|) then Some(Final(original, draft)) else None
  {
    hide Run, Drops, Edits, Refusals, Retained, Shapes, LosesAll, AllFree, Lists.Distinct, SourcesExist, DistinctSources;
    NoRefusals(original, draft, rules);
    RunOfDrops(original, draft, []);
    assert [] + Shapes(original) == Shapes(original);
    assert draft[0..] == draft && draft[..0] == [] && Added([]) == [];
    assert [] + Retained(original, draft, 0) == TableAt(original, draft, 0);
    NothingDone(draft);
    RunOfEdits(original, draft, 0, rules);
    RunOfBoth(Drops(original, draft), Edits(original, draft, rules), Shapes(original));
  }

  lemma NothingDone(draft: seq<Column>)
    ensures AllFree(draft, 0, 0)
  {
  }

  // The final table's columns are exactly the draft's.

  lemma {:induction false} RetainedIsDraft(original: seq<Column>, draft: seq<Column>, column: Column)
    requires column in Retained(original, draft, |draft|)
    ensures exists j :: 0 <= j < |draft| && draft[j].sourceName.Some? && column == Shape(draft[j])
  {
    if column in Kept(original[0], draft, |draft|) {
      var j := IndexOf(draft, original[0].name).value;
      assert column == Shape(draft[j]);
    } else {
      RetainedIsDraft(original[1..], draft, column);
    }
  }

  lemma {:induction false} DraftIsRetained(original: seq<Column>, draft: seq<Column>, before: Column, j: nat)
    requires DistinctSources(draft) && before in original && j < |draft| && IsSource(draft[j], before.name)
    ensures Shape(draft[j]) in Retained(original, draft, |draft|)
  {
    if original[0] == before {
      IndexIsUnique(draft, before.name, j);
      assert Kept(original[0], draft, |draft|) == [Shape(draft[j])];
    } else {
      DraftIsRetained(original[1..], draft, before, j);
    }
  }

  lemma {:induction false} AddedAre(draft: seq<Column>, column: Column)
    ensures column in Added(draft) <==>
            exists j :: 0 <= j < |draft| && draft[j].sourceName.None? && column == Shape(draft[j])
    decreases |draft|
  {
    if draft != [] {
      var n := |draft| - 1;
      AddedAre(draft[..n], column);
      assert forall j :: 0 <= j < n ==> draft[..n][j] == draft[j];
    }
  }

  lemma FinalIsDraft(original: seq<Column>, draft: seq<Column>, column: Column)
    requires WellFormed(original, draft)
    ensures column in Final(original, draft) <==> exists j :: 0 <= j < |draft| && column == Shape(draft[j])
  {
    hide Retained, Added;
    assert draft[..|draft|] == draft;
    AddedAre(draft, column);
    if column in Retained(original, draft, |draft|) {
      RetainedIsDraft(original, draft, column);
    }
    if j :| 0 <= j < |draft| && column == Shape(draft[j]) {
      if draft[j].sourceName.Some? {
        DraftIsRetained(original, draft, Find(original, draft[j].sourceName.value).value, j);
      }
    }
  }

  lemma {:induction false} WithoutIsDistinct(table: seq<Column>, name: string)
    requires DistinctNames(table)
    ensures DistinctNames(Without(table, name)) && forall c :: c in Without(table, name) ==> c in table
  {
    if table != [] {
      assert forall i :: 0 <= i < |table[1..]| ==> table[1..][i] == table[i + 1];
      WithoutIsDistinct(table[1..], name);
      var rest := Without(table[1..], name);
      forall i | 0 <= i < |rest| ensures rest[i].name != table[0].name {
        assert rest[i] in table[1..];
      }
    }
  }

  lemma {:induction false} ReplacedAt(table: seq<Column>, name: string, column: Column)
    ensures |Replaced(table, name, column)| == |table|
    ensures forall i :: 0 <= i < |table| ==>
              Replaced(table, name, column)[i] == if table[i].name == name then column else table[i]
  {
    if table != [] {
      ReplacedAt(table[1..], name, column);
    }
  }

  lemma ExecuteKeepsNamesDistinct(statement: Statement, table: seq<Column>)
    requires DistinctNames(table) && Execute(statement, table).Some?
    ensures DistinctNames(Execute(statement, table).value)
  {
    match statement {
      case Drop(name) => WithoutIsDistinct(table, name);
      case Add(column) =>
      case Change(source, column) => ReplacedAt(table, source, Shape(column));
    }
  }

  lemma {:induction false} RunKeepsNamesDistinct(statements: seq<Statement>, table: seq<Column>)
    requires DistinctNames(table) && Run(statements, table).Some?
    ensures DistinctNames(Run(statements, table).value)
    decreases |statements|
  {
    hide Execute, DistinctNames;
    if statements != [] {
      ExecuteKeepsNamesDistinct(statements[0], table);
      RunKeepsNamesDistinct(statements[1..], Execute(statements[0], table).value);
    }
  }

  lemma PlanBuildsKnown(original: seq<Column>, draft: seq<Column>, rules: Rules)
    requires WellFormed(original, draft) && PlanOf(original, draft, rules).errors == []
    ensures var result := Run(PlanOf(original, draft, rules).statements, Shapes(original));
            && (result.Some? <==> !LosesAll(original, draft) && AllFree(draft, 0, |draft|))
            && (result.Some? ==>
                  && result.value == Final(original, draft)
                  && DistinctNames(result.value)
                  && forall c :: c in result.value <==> exists j :: 0 <= j < |draft| && c == Shape(draft[j]))
  {
    hide Run, Final, PlanOf, LosesAll, AllFree, Shapes;
    RunOfPlan(original, draft, rules);
    if Run(PlanOf(original, draft, rules).statements, Shapes(original)).Some? {
      forall c ensures c in Final(original, draft) <==> exists j :: 0 <= j < |draft| && c == Shape(draft[j]) {
        FinalIsDraft(original, draft, c);
      }
      ShapesAt(original);
      RunKeepsNamesDistinct(PlanOf(original, draft, rules).statements, Shapes(original));
    }
  }

  // ----- draft columns whose source does not exist

  predicate IsKnown(original: seq<Column>, column: Column)
  {
    column.sourceName.Some? ==> Find(original, column.sourceName.value).Some?
  }

  /** The draft without the columns the planner skips. */
  function Known(original: seq<Column>, draft: seq<Column>): (known: seq<Column>)
    ensures forall c :: c in known <==> c in draft && IsKnown(original, c)
  {
    if draft == [] then []
    else (if IsKnown(original, draft[0]) then [draft[0]] else []) + Known(original, draft[1..])
  }

  lemma {:induction false} KnownSources(original: seq<Column>, draft: seq<Column>)
    requires DistinctSources(draft)
    ensures DistinctSources(Known(original, draft)) && SourcesExist(original, Known(original, draft))
  {
    hide IsKnown;
    if draft != [] {
      var rest := Known(original, draft[1..]);
      assert forall i :: 0 <= i < |draft[1..]| ==> draft[1..][i] == draft[i + 1];
      KnownSources(original, draft[1..]);
      forall j | 0 <= j < |rest| && draft[0].sourceName.Some? ensures rest[j].sourceName != draft[0].sourceName {
        assert rest[j] in draft[1..];
      }
      var known := Known(original, draft);
      forall j | 0 <= j < |known| && known[j].sourceName.Some? ensures Find(original, known[j].sourceName.value).Some? {
        assert known[j] in known;
        KnownHasSource(original, known[j]);
      }
    }
  }

  lemma KnownHasSource(original: seq<Column>, column: Column)
    requires IsKnown(original, column) && column.sourceName.Some?
    ensures Find(original, column.sourceName.value).Some?
  {
  }

  lemma RetainedByKnown(original: seq<Column>, draft: seq<Column>, column: Column)
    requires column in original
    ensures IsRetained(draft, column.name) <==> IsRetained(Known(original, draft), column.name)
  {
    var known := Known(original, draft);
    if j :| 0 <= j < |draft| && IsSource(draft[j], column.name) {
      assert draft[j] in known;
    }
    if j :| 0 <= j < |known| && IsSource(known[j], column.name) {
      assert known[j] in draft;
    }
  }

  lemma {:induction false} DropsByKnown(part: seq<Column>, original: seq<Column>, draft: seq<Column>)
    requires forall c :: c in part ==> c in original
    ensures Drops(part, draft) == Drops(part, Known(original, draft))
  {
    hide IsRetained, Known;
    if part != [] {
      RetainedByKnown(original, draft, part[0]);
      DropsByKnown(part[1..], original, draft);
    }
  }

  lemma {:induction false} EditsByKnown(original: seq<Column>, draft: seq<Column>, rules: Rules)
    ensures Edits(original, draft, rules) == Edits(original, Known(original, draft), rules)
    ensures Refusals(original, draft, rules) == Refusals(original, Known(original, draft), rules)
  {
    if draft != [] {
      hide EditOf, IsKnown;
      EditsByKnown(original, draft[1..], rules);
      var rest := Known(original, draft[1..]);
      assert ([draft[0]] + rest)[1..] == rest && [] + rest == rest;
      if !IsKnown(original, draft[0]) {
        UnknownIsKept(original, draft[0], rules);
      }
    }
  }

  lemma UnknownIsKept(original: seq<Column>, column: Column, rules: Rules)
    requires !IsKnown(original, column)
    ensures EditOf(original, column, rules).Keep?
  {
  }

  lemma PlanByKnown(original: seq<Column>, draft: seq<Column>, rules: Rules)
    ensures PlanOf(original, draft, rules) == PlanOf(original, Known(original, draft), rules)
  {
    hide Drops, Edits, Refusals, Known, Lists.Distinct;
    DropsByKnown(original, original, draft);
    EditsByKnown(original, draft, rules);
  }

  /**
   A plan without errors runs to the end exactly when each draft name is free, taken by no earlier draft
   column and no longer the source of a later one, and not every column is dropped. The table then has
   exactly the draft's columns, once each; a draft column whose source does not exist is skipped.
   */
  lemma PlanBuildsDraft(original: seq<Column>, draft: seq<Column>, rules: Rules)
    requires DistinctNames(original) && DistinctSources(draft) && PlanOf(original, draft, rules).errors == []
    ensures var known, result := Known(original, draft), Run(PlanOf(original, draft, rules).statements, Shapes(original));
            && (result.Some? <==> !LosesAll(original, known) && AllFree(known, 0, |known|))
            && (result.Some? ==>
                  && result.value == Final(original, known)
                  && DistinctNames(result.value)
                  && forall c :: c in result.value <==> exists j :: 0 <= j < |known| && c == Shape(known[j]))
  {
    hide Run, Final, PlanOf, LosesAll, AllFree, Shapes, Known, DistinctSources, SourcesExist;
    PlanByKnown(original, draft, rules);
    KnownSources(original, draft);
    PlanBuildsKnown(original, Known(original, draft), rules);
  }

  /**
   Drops come first: a plan whose names are only kept, new or taken from dropped columns runs to the end,
   whatever was dropped.
   */
  lemma DroppedNamesAreFree(original: seq<Column>, draft: seq<Column>, rules: Rules)
    requires WellFormed(original, draft) && PlanOf(original, draft, rules).errors == [] && !LosesAll(original, draft)
    requires DistinctNames(draft)
    requires forall i :: 0 <= i < |draft| ==> IsSource(draft[i], draft[i].name) || !IsRetained(draft, draft[i].name)
    ensures Run(PlanOf(original, draft, rules).statements, Shapes(original)) == Some(Final(original, draft))
  {
    hide Run, Final, PlanOf, LosesAll, Shapes;
    forall i | 0 <= i < |draft| ensures IsFree(draft, i) {
      if !IsRetained(draft, draft[i].name) {
        assert forall j :: 0 <= j < |draft| ==> !IsSource(draft[j], draft[i].name);
      }
    }
    RunOfPlan(original, draft, rules);
  }

  function Plain(name: string, source: Option<string>): Column
  {
    Column(source, name, "int", true, None, false, "", false, "", None, None, "")
  }

  /** Swapping two names is a well-formed draft whose plan cannot run. */
  lemma SwapCannotRun()
    ensures var original := [Plain("a", Some("a")), Plain("b", Some("b"))];
            var draft := [Plain("b", Some("a")), Plain("a", Some("b"))];
            var plan := PlanOf(original, draft, Rules(_ => true, _ => true));
            WellFormed(original, draft) && plan.errors == [] && Run(plan.statements, Shapes(original)).None?
  {
    var original := [Plain("a", Some("a")), Plain("b", Some("b"))];
    var draft := [Plain("b", Some("a")), Plain("a", Some("b"))];
    var rules := Rules(_ => true, _ => true);
    assert original[0].name == "a" && original[1].name == "b" && "a" != "b";
    assert original[1..] == [original[1]] && draft[1..] == [draft[1]] && draft[1..][1..] == [];
    assert Find(original[1..], "b") == Some(original[1]) && Find(original, "a") == Some(original[0]);
    assert Refusals(original, draft[1..], rules) == [];
    assert Refusals(original, draft, rules) == [];
    assert IsSource(draft[1], draft[0].name) && !IsFree(draft, 0);
    RunOfPlan(original, draft, rules);
  }

  // ----- what is never emitted

  /** Every emitted definition has an allowed type, and only rewritable columns are changed. */
  lemma {:induction false} EmittedIsValidated(original: seq<Column>, draft: seq<Column>, rules: Rules)
    ensures forall s :: s in Edits(original, draft, rules) ==>
              && !s.Drop? && s.column in draft && rules.validType(s.column.columnType)
              && (s.Change? ==> exists before :: before in original && before.name == s.source && rules.editable(before))
  {
    hide SameColumn;
    if draft != [] {
      EmittedIsValidated(original, draft[1..], rules);
    }
  }

  /** A schema as the editor loads it: every column its own source. */
  predicate IsLoaded(columns: seq<Column>)
  {
    DistinctNames(columns) && forall i :: 0 <= i < |columns| ==> IsSource(columns[i], columns[i].name)
  }

  lemma {:induction false} NoEdits(original: seq<Column>, draft: seq<Column>, rules: Rules)
    requires IsLoaded(original) && forall c :: c in draft ==> c in original
    ensures Edits(original, draft, rules) == [] && Refusals(original, draft, rules) == []
  {
    hide SameColumn;
    if draft != [] {
      NoEdits(original, draft[1..], rules);
      FindsItself(original, draft[0]);
    }
  }

  lemma FindsItself(columns: seq<Column>, column: Column)
    requires IsLoaded(columns) && column in columns
    ensures column.sourceName == Some(column.name) && Find(columns, column.name) == Some(column)
    ensures SameColumn(column, column)
  {
    var found := Find(columns, column.name).value;
    var i, j :| 0 <= i < |columns| && 0 <= j < |columns| && columns[i] == found && columns[j] == column;
  }

  lemma {:induction false} NoDrops(original: seq<Column>, draft: seq<Column>)
    requires forall i :: 0 <= i < |original| ==> IsRetained(draft, original[i].name)
    ensures Drops(original, draft) == []
  {
    if original != [] {
      assert forall i :: 0 <= i < |original[1..]| ==> original[1..][i] == original[i + 1];
      NoDrops(original[1..], draft);
    }
  }

  /** Planning a loaded schema against itself asks for nothing. */
  lemma PlanAgainstItselfIsEmpty(columns: seq<Column>, rules: Rules)
    requires IsLoaded(columns)
    ensures PlanOf(columns, columns, rules) == Plan([], [])
  {
    hide Drops, Edits, Refusals;
    NoEdits(columns, columns, rules);
    forall i | 0 <= i < |columns| ensures IsRetained(columns, columns[i].name) {
      assert IsSource(columns[i], columns[i].name);
    }
    NoDrops(columns, columns);
    assert Lists.Distinct<DdlError>([], {}) == [];
  }
}
