/** Reset of some tables' share of a transaction: those tables are restored, all others stay as they are. */
module ProjectedReset {
  import opened Wrappers
  import opened Binlog
  import opened ResetSql
  import opened TableStates
  import opened RowReset
  import opened ResetMeaning
  import Repository

  /** The filter concerns the table. */
  predicate Covers(criteria: Repository.Criteria, key: TableKey)
  {
    Repository.OptionalExactMatch(criteria.database, key.0) && Repository.OptionalExactMatch(criteria.table, key.1)
  }

  /** The steps of the covered tables, in order. */
  function StepsOf(steps: seq<Step>, criteria: Repository.Criteria): seq<Step>
  {
    if steps == [] then []
    else
      var last := steps[|steps| - 1];
      StepsOf(steps[..|steps| - 1], criteria) + (if Covers(criteria, last.Table()) then [last] else [])
  }

  function EventsOf(events: seq<RowEvent>, criteria: Repository.Criteria): seq<RowEvent>
  {
    if events == [] then []
    else
      var last := events[|events| - 1];
      EventsOf(events[..|events| - 1], criteria) + (if Covers(criteria, Key(last.change)) then [last] else [])
  }

  predicate OnlyOn(steps: seq<Step>, criteria: Repository.Criteria)
  {
    forall i :: 0 <= i < |steps| ==> Covers(criteria, steps[i].Table())
  }

  lemma {:induction false} StepsOfShape(steps: seq<Step>, criteria: Repository.Criteria)
    ensures OnlyOn(StepsOf(steps, criteria), criteria)
    ensures forall step :: step in StepsOf(steps, criteria) ==> step in steps
    ensures Events(StepsOf(steps, criteria)) == EventsOf(Events(steps), criteria)
  {
    if steps != [] {
      hide Covers;
      var last, earlier := steps[|steps| - 1], steps[..|steps| - 1];
      StepsOfShape(earlier, criteria);
      assert Events(steps)[..|steps| - 1] == Events(earlier);
      assert Events(steps)[|steps| - 1] == last.event;
    }
  }

  // ----- framing: steps on covered tables neither see nor touch the others

  /** The state with the covered tables as they are in another one. */
  function With(tables: Tables, criteria: Repository.Criteria, covered: Tables): Tables
    requires tables.Keys == covered.Keys
  {
    map key | key in tables :: if Covers(criteria, key) then covered[key] else tables[key]
  }

  predicate Agree(criteria: Repository.Criteria, left: Tables, right: Tables)
  {
    left.Keys == right.Keys && forall key :: key in left && Covers(criteria, key) ==> left[key] == right[key]
  }

  lemma WithAt(tables: Tables, criteria: Repository.Criteria, covered: Tables, key: TableKey)
    requires tables.Keys == covered.Keys && key in tables
    ensures key in With(tables, criteria, covered)
    ensures With(tables, criteria, covered)[key] == if Covers(criteria, key) then covered[key] else tables[key]
  {
    hide Covers;
  }

  lemma WithKeys(tables: Tables, criteria: Repository.Criteria, covered: Tables)
    requires tables.Keys == covered.Keys
    ensures With(tables, criteria, covered).Keys == tables.Keys
  {
    hide Covers;
  }

  lemma SameTables(left: Tables, right: Tables)
    requires left.Keys == right.Keys && forall key :: key in left ==> left[key] == right[key]
    ensures left == right
  {
  }

  lemma WithTwice(tables: Tables, criteria: Repository.Criteria, covered: Tables, others: Tables)
    requires tables.Keys == covered.Keys == others.Keys
    ensures With(tables, criteria, others).Keys == tables.Keys
    ensures With(With(tables, criteria, others), criteria, covered) == With(tables, criteria, covered)
  {
    hide Covers, With;
    WithKeys(tables, criteria, others);
    var once := With(tables, criteria, others);
    WithKeys(tables, criteria, covered);
    WithKeys(once, criteria, covered);
    var twice, direct := With(once, criteria, covered), With(tables, criteria, covered);
    forall key | key in twice ensures twice[key] == direct[key] {
      assert key in tables.Keys;
      WithAt(tables, criteria, covered, key);
      WithAt(tables, criteria, others, key);
      WithAt(once, criteria, covered, key);
    }
    SameTables(twice, direct);
  }

  lemma WithAgrees(tables: Tables, criteria: Repository.Criteria, covered: Tables)
    requires tables.Keys == covered.Keys
    ensures With(tables, criteria, covered).Keys == tables.Keys
    ensures Agree(criteria, With(tables, criteria, covered), covered)
    ensures Agree(criteria, tables, covered) ==> With(tables, criteria, covered) == tables
  {
    hide Covers, With;
    WithKeys(tables, criteria, covered);
    var with_ := With(tables, criteria, covered);
    forall key | key in with_ ensures Covers(criteria, key) ==> with_[key] == covered[key] {
      assert key in tables.Keys;
      WithAt(tables, criteria, covered, key);
    }
    if Agree(criteria, tables, covered) {
      forall key | key in with_ ensures with_[key] == tables[key] {
        assert key in tables.Keys;
        WithAt(tables, criteria, covered, key);
      }
      SameTables(with_, tables);
    }
  }

  lemma {:induction false} FrameSteps(
    d: Decoders, steps: seq<Step>, criteria: Repository.Criteria, here: Tables, there: Tables)
    requires OnlyOn(steps, criteria) && Account(d, steps, here) && Agree(criteria, here, there)
    ensures Account(d, steps, there) && Final(d, steps, here).Keys == there.Keys
    ensures Final(d, steps, there) == With(there, criteria, Final(d, steps, here))
  {
    hide With, Agree, Covers, Recorded, Shaped, Applicable, Apply;
    AgreeOnKeys(criteria, here, there);
    if steps == [] {
      AgreeBack(criteria, here, there);
      WithAgrees(there, criteria, here);
    } else {
      var last, earlier := steps[|steps| - 1], steps[..|steps| - 1];
      Peeled(d, steps, here);
      FrameSteps(d, earlier, criteria, here, there);
      FinalKeys(d, steps, here);
      FrameLast(d, earlier, last, criteria, here, there);
      assert earlier + [last] == steps;
    }
  }

  lemma AgreeOnKeys(criteria: Repository.Criteria, left: Tables, right: Tables)
    requires Agree(criteria, left, right)
    ensures left.Keys == right.Keys
  {
  }

  lemma AgreeBack(criteria: Repository.Criteria, left: Tables, right: Tables)
    requires Agree(criteria, left, right)
    ensures Agree(criteria, right, left)
  {
    hide Covers;
  }

  lemma FrameLast(
    d: Decoders, earlier: seq<Step>, last: Step, criteria: Repository.Criteria, here: Tables, there: Tables)
    requires Covers(criteria, last.Table()) && Account(d, earlier, here) && Account(d, earlier, there)
    requires here.Keys == there.Keys == Final(d, earlier, here).Keys
    requires Final(d, earlier, there) == With(there, criteria, Final(d, earlier, here))
    requires Applicable(last, Final(d, earlier, here)) && Shaped(last.event.change, Final(d, earlier, here)) && Recorded(d, last)
    ensures Account(d, earlier + [last], there)
    ensures Apply(last, Final(d, earlier, here)).Keys == there.Keys
    ensures Final(d, earlier + [last], there) == With(there, criteria, Apply(last, Final(d, earlier, here)))
  {
    hide With, Agree, Covers, Account, Final, Recorded, Shaped, Applicable, Apply;
    var a, b := Final(d, earlier, here), Final(d, earlier, there);
    WithAgrees(there, criteria, a);
    AgreeBack(criteria, b, a);
    FrameStep(last, criteria, a, b);
    Appended(d, earlier, last, there);
    WithTwice(there, criteria, Apply(last, a), a);
  }

  lemma FrameStep(step: Step, criteria: Repository.Criteria, here: Tables, there: Tables)
    requires Covers(criteria, step.Table()) && Applicable(step, here) && Agree(criteria, here, there)
    ensures Applicable(step, there) && Apply(step, here).Keys == there.Keys
    ensures Shaped(step.event.change, here) ==> Shaped(step.event.change, there)
    ensures Apply(step, there) == With(there, criteria, Apply(step, here))
  {
    assert here[step.Table()] == there[step.Table()];
    assert Applicable(step, there);
    hide Covers, Apply, Applicable, RowsAfter, With;
    ApplyIsWrite(step, here);
    ApplyIsWrite(step, there);
    WriteBeside(criteria, here, there, step.Table(), RowsAfter(step.effect, here[step.Table()]));
  }

  lemma WriteBeside(criteria: Repository.Criteria, here: Tables, there: Tables, table: TableKey, rows: multiset<Row>)
    requires Agree(criteria, here, there) && Covers(criteria, table) && table in here
    ensures here[table := rows].Keys == there.Keys
    ensures there[table := rows] == With(there, criteria, here[table := rows])
  {
    hide Covers, With;
    var a, b := here[table := rows], there[table := rows];
    assert a.Keys == there.Keys && b.Keys == there.Keys;
    WithKeys(there, criteria, a);
    var goal := With(there, criteria, a);
    forall key | key in b ensures b[key] == goal[key] {
      assert key in there.Keys;
      WithAt(there, criteria, a, key);
    }
    SameTables(b, goal);
  }

  /** A step on another table leaves the covered ones alone, and one on a covered table the others. */
  lemma OtherStep(step: Step, criteria: Repository.Criteria, tables: Tables, covered: Tables)
    requires Applicable(step, tables) && covered.Keys == tables.Keys
    ensures Apply(step, tables).Keys == tables.Keys
    ensures !Covers(criteria, step.Table()) ==> Agree(criteria, Apply(step, tables), tables)
    ensures Covers(criteria, step.Table()) ==>
              With(Apply(step, tables), criteria, covered) == With(tables, criteria, covered)
  {
    hide Covers, Apply, RowsAfter, With;
    ApplyIsWrite(step, tables);
    var after := Apply(step, tables);
    WithKeys(tables, criteria, covered);
    WithKeys(after, criteria, covered);
    if Covers(criteria, step.Table()) {
      var left, right := With(after, criteria, covered), With(tables, criteria, covered);
      forall key | key in left ensures left[key] == right[key] {
        assert key in tables.Keys;
        WithAt(tables, criteria, covered, key);
        WithAt(after, criteria, covered, key);
      }
      SameTables(left, right);
    }
  }

  /** The covered tables' own steps lead from "these tables as before, the rest as after" to the final state. */
  lemma {:induction false} ProjectedAccount(d: Decoders, steps: seq<Step>, criteria: Repository.Criteria, tables: Tables)
    requires Account(d, steps, tables)
    ensures Final(d, steps, tables).Keys == tables.Keys
    ensures Account(d, StepsOf(steps, criteria), With(Final(d, steps, tables), criteria, tables))
    ensures Final(d, StepsOf(steps, criteria), With(Final(d, steps, tables), criteria, tables)) == Final(d, steps, tables)
  {
    hide With, Agree, Covers, Recorded, Shaped, Applicable, Apply;
    FinalKeys(d, steps, tables);
    if steps != [] {
      var last, earlier := steps[|steps| - 1], steps[..|steps| - 1];
      Peeled(d, steps, tables);
      FinalKeys(d, earlier, tables);
      ProjectedAccount(d, earlier, criteria, tables);
      if Covers(criteria, last.Table()) {
        OwnStep(d, StepsOf(earlier, criteria), last, criteria, tables, Final(d, earlier, tables));
      } else {
        StepsOfShape(earlier, criteria);
        ForeignStep(d, StepsOf(earlier, criteria), last, criteria, tables, Final(d, earlier, tables));
        assert StepsOf(earlier, criteria) + [] == StepsOf(earlier, criteria);
      }
    } else {
      AgreeWithItself(criteria, tables);
      WithAgrees(tables, criteria, tables);
    }
  }

  lemma AgreeWithItself(criteria: Repository.Criteria, tables: Tables)
    ensures Agree(criteria, tables, tables)
  {
  }

  lemma OwnStep(
    d: Decoders, mine: seq<Step>, last: Step, criteria: Repository.Criteria, tables: Tables, middle: Tables)
    requires Covers(criteria, last.Table()) && Applicable(last, middle) && middle.Keys == tables.Keys
    requires Shaped(last.event.change, middle) && Recorded(d, last)
    requires Account(d, mine, With(middle, criteria, tables)) && Final(d, mine, With(middle, criteria, tables)) == middle
    ensures Apply(last, middle).Keys == tables.Keys
    ensures Account(d, mine + [last], With(Apply(last, middle), criteria, tables))
    ensures Final(d, mine + [last], With(Apply(last, middle), criteria, tables)) == Apply(last, middle)
  {
    hide With, Agree, Covers, Account, Final, Recorded, Shaped, Applicable, Apply;
    OtherStep(last, criteria, middle, tables);
    Appended(d, mine, last, With(middle, criteria, tables));
  }

  lemma ForeignStep(
    d: Decoders, mine: seq<Step>, last: Step, criteria: Repository.Criteria, tables: Tables, middle: Tables)
    requires !Covers(criteria, last.Table()) && Applicable(last, middle) && middle.Keys == tables.Keys
    requires OnlyOn(mine, criteria)
    requires Account(d, mine, With(middle, criteria, tables)) && Final(d, mine, With(middle, criteria, tables)) == middle
    ensures Apply(last, middle).Keys == tables.Keys
    ensures Account(d, mine, With(Apply(last, middle), criteria, tables))
    ensures Final(d, mine, With(Apply(last, middle), criteria, tables)) == Apply(last, middle)
  {
    hide With, Agree, Covers, Account, Final, Recorded, Shaped, Applicable, Apply;
    OtherStep(last, criteria, middle, tables);
    var end := Apply(last, middle);
    WithAgrees(middle, criteria, tables);
    WithAgrees(end, criteria, tables);
    AgreeVia(criteria, With(middle, criteria, tables), With(end, criteria, tables), tables);
    FrameSteps(d, mine, criteria, With(middle, criteria, tables), With(end, criteria, tables));
    WithTwice(end, criteria, middle, tables);
    WithAgrees(end, criteria, middle);
  }

  lemma AgreeVia(criteria: Repository.Criteria, left: Tables, right: Tables, middle: Tables)
    requires Agree(criteria, left, middle) && Agree(criteria, right, middle)
    ensures Agree(criteria, left, right)
  {
    hide Covers;
  }

  // ----- the projection of the transaction

  lemma {:induction false} EventsOfConcat(left: seq<RowEvent>, right: seq<RowEvent>, criteria: Repository.Criteria)
    ensures EventsOf(left + right, criteria) == EventsOf(left, criteria) + EventsOf(right, criteria)
  {
    hide Covers;
    if right == [] {
      assert left + right == left;
    } else {
      var last := right[|right| - 1];
      EventsOfConcat(left, right[..|right| - 1], criteria);
      assert (left + right)[..|left + right| - 1] == left + right[..|right| - 1];
      assert (left + right)[|left + right| - 1] == last;
    }
  }

  lemma {:induction false} EventsOfOneChange(events: seq<RowEvent>, change: Change, criteria: Repository.Criteria)
    requires forall i :: 0 <= i < |events| ==> events[i].change == change
    ensures EventsOf(events, criteria) == if Covers(criteria, Key(change)) then events else []
  {
    hide Covers;
    if events != [] {
      var last, earlier := events[|events| - 1], events[..|events| - 1];
      assert last.change == change;
      EventsOfOneChange(earlier, change, criteria);
      assert earlier + [last] == events;
    }
  }

  /** The row changes of the matching changes are those of the covered tables. */
  lemma {:induction false} ProjectionEvents(changes: seq<Change>, criteria: Repository.Criteria)
    requires criteria.operation.None?
    ensures RowEvents(Repository.MatchingChanges(changes, criteria)) == EventsOf(RowEvents(changes), criteria)
  {
    if changes != [] {
      var last, earlier := changes[|changes| - 1], changes[..|changes| - 1];
      assert Repository.ChangeMatches(criteria, last) <==> Covers(criteria, Key(last));
      hide Repository.ChangeMatches, Covers;
      ProjectionEvents(earlier, criteria);
      var mine := seq(|last.rows|, i requires 0 <= i < |last.rows| => RowEvent(last, last.rows[i]));
      EventsOfConcat(RowEvents(earlier), mine, criteria);
      EventsOfOneChange(mine, last, criteria);
      var before := Repository.MatchingChanges(earlier, criteria);
      if Covers(criteria, Key(last)) {
        assert (before + [last])[..|before + [last]| - 1] == before;
        assert RowEvents(before + [last]) == RowEvents(before) + mine;
      } else {
        assert before + [] == before;
      }
    }
  }

  lemma {:induction false} EverythingMatches(changes: seq<Change>, criteria: Repository.Criteria)
    requires Repository.Uncriteriaed(criteria)
    ensures Repository.MatchingChanges(changes, criteria) == changes
  {
    if changes != [] {
      EverythingMatches(changes[..|changes| - 1], criteria);
    }
  }

  lemma ProjectedChanges(transaction: Transaction, criteria: Repository.Criteria)
    requires Repository.ProjectTransaction(transaction, criteria).Some?
    ensures Repository.ProjectTransaction(transaction, criteria).value.changes ==
            Repository.MatchingChanges(transaction.changes, criteria)
  {
    hide Repository.MatchingChanges, SumRows;
    if Repository.Uncriteriaed(criteria) {
      EverythingMatches(transaction.changes, criteria);
    }
  }

  /**
   Projecting by database, by table name, by both or by neither, and compiling, restores exactly the tables
   the filter covers and leaves the others unchanged.
   */
  lemma ProjectedResetRestoresItsTables(
    d: Decoders, transaction: Transaction, criteria: Repository.Criteria, steps: seq<Step>, tables: Tables)
    requires criteria.operation.None?
    requires Account(d, steps, tables) && Events(steps) == RowEvents(transaction.changes)
    requires Repository.ProjectTransaction(transaction, criteria).Some?
    requires Generate(d, Repository.ProjectTransaction(transaction, criteria).value).complete
    requires forall step :: step in steps && Covers(criteria, step.Table()) ==> IsIdentified(d, step)
    ensures Final(d, steps, tables).Keys == tables.Keys
    ensures var statements := Generate(d, Repository.ProjectTransaction(transaction, criteria).value).statements;
            var goal := With(Final(d, steps, tables), criteria, tables);
            && RunsTo(statements, Final(d, steps, tables), goal)
            && forall end :: RunsTo(statements, Final(d, steps, tables), end) ==> end == goal
  {
    hide IsIdentified, Covers, Account, Final, Generate, Repository.ProjectTransaction, With, RunsTo;
    var projected := Repository.ProjectTransaction(transaction, criteria).value;
    var mine := StepsOf(steps, criteria);
    ProjectedChanges(transaction, criteria);
    ProjectionEvents(transaction.changes, criteria);
    StepsOfShape(steps, criteria);
    ProjectedAccount(d, steps, criteria, tables);
    assert forall i :: 0 <= i < |mine| ==> mine[i] in mine;
    CompleteResetIsInverse(d, projected, mine, With(Final(d, steps, tables), criteria, tables));
  }
}
