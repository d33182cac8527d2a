/** What filters select, what cursors and limits mean, and what the repository fails with. */
module RepositoryAnswers {
  import opened Wrappers
  import opened Binlog
  import opened Repository
  import Text

  // ----- filters

  /** A name is asked for, and no empty one. */
  predicate Asks(wanted: Option<string>, name: string)
  {
    match wanted
    case None => true
    case Some(text) => text == "" || text == name
  }

  predicate Selects(criteria: Criteria, change: Change)
  {
    && Asks(criteria.database, change.database) && Asks(criteria.table, change.table)
    && match criteria.operation
       case None => true
       case Some(Insert) => change.operation.Insert?
       case Some(Update) => change.operation.Update?
       case Some(Delete) => change.operation.Delete?
       case Some(Ddl) => change.operation.Ddl?
  }

  predicate AsksNothing(criteria: Criteria)
  {
    && (criteria.database == None || criteria.database == Some("")) && (criteria.table == None || criteria.table == Some(""))
    && criteria.operation == None
  }

  lemma SelectsExactly(criteria: Criteria, change: Change)
    ensures ChangeMatches(criteria, change) <==> Selects(criteria, change)
  {
  }

  lemma {:induction false} MatchingOfBoth(left: seq<Change>, right: seq<Change>, criteria: Criteria)
    ensures MatchingChanges(left + right, criteria) == MatchingChanges(left, criteria) + MatchingChanges(right, criteria)
    decreases |right|
  {
    hide ChangeMatches;
    if right == [] {
      assert left + right == left;
    } else {
      var n := |right| - 1;
      assert (left + right)[..|left + right| - 1] == left + right[..n];
      MatchingOfBoth(left, right[..n], criteria);
    }
  }

  /** Each change is kept in its place exactly when the filter selects it. */
  lemma SelectedAreKept(left: seq<Change>, change: Change, right: seq<Change>, criteria: Criteria)
    ensures MatchingChanges(left + [change] + right, criteria) ==
            MatchingChanges(left, criteria) + (if Selects(criteria, change) then [change] else []) +
            MatchingChanges(right, criteria)
  {
    hide ChangeMatches, Selects;
    SelectsExactly(criteria, change);
    MatchingOfBoth(left + [change], right, criteria);
    MatchingOfBoth(left, [change], criteria);
    assert [change][..0] == [] && MatchingChanges([], criteria) == [];
  }

  lemma {:induction false} SomeIsKept(changes: seq<Change>, criteria: Criteria)
    ensures MatchingChanges(changes, criteria) != [] <==> exists i :: 0 <= i < |changes| && Selects(criteria, changes[i])
  {
    hide ChangeMatches, Selects;
    if changes != [] {
      SomeIsKept(changes[..|changes| - 1], criteria);
      SelectsExactly(criteria, changes[|changes| - 1]);
    }
  }

  /** A transaction is opened as it is, or with the changes the filter selects, if it selects any. */
  lemma ProjectionIs(t: Transaction, criteria: Criteria)
    ensures ProjectTransaction(t, criteria) ==
            if AsksNothing(criteria) then Some(t)
            else if forall i :: 0 <= i < |t.changes| ==> !Selects(criteria, t.changes[i]) then None
            else
              var selected := MatchingChanges(t.changes, criteria);
              Some(t.(changes := selected, rowChangeCount := SumRows(selected)))
  {
    hide MatchingChanges, Selects;
    SomeIsKept(t.changes, criteria);
  }

  // ----- cursors

  /** The number's numeral, perhaps with a plus sign and zeros in front. */
  ghost predicate Names(text: string, n: nat)
  {
    exists sign: string, zeros: string ::
      (sign == "" || sign == "+") && Text.AreZeros(zeros) && text == sign + zeros + Text.Decimal(n)
  }

  lemma ParsedIsNamed(text: string)
    requires ParseCursor(text).Some?
    ensures ParseCursor(text).value < 0x1_0000_0000_0000_0000 && Names(text, ParseCursor(text).value)
  {
    hide Text.Value, Text.Decimal;
    var sign := if text != [] && text[0] == '+' then "+" else "";
    var zeros := Text.DigitsArePrinted(text[|sign|..]);
    assert text == sign + text[|sign|..];
    assert text == sign + zeros + Text.Decimal(ParseCursor(text).value);
  }

  lemma NamedIsParsed(text: string, n: nat)
    requires n < 0x1_0000_0000_0000_0000 && Names(text, n)
    ensures ParseCursor(text) == Some(n)
  {
    hide Text.Value, Text.Decimal;
    var sign: string, zeros: string :|
      (sign == "" || sign == "+") && Text.AreZeros(zeros) && text == sign + zeros + Text.Decimal(n);
    Text.DecimalRoundTrip(n);
    Text.ZerosAreNothing(zeros, Text.Decimal(n));
    SignIsStripped(text, sign, zeros + Text.Decimal(n));
  }

  lemma SignIsStripped(text: string, sign: string, digits: string)
    requires (sign == "" || sign == "+") && text == sign + digits && digits != [] && Text.AllDigits(digits)
    ensures (if text != [] && text[0] == '+' then text[1..] else text) == digits
  {
    assert digits[0] != '+';
    if sign == "" {
      assert text == digits;
    } else {
      assert text[1..] == digits;
    }
  }

  /** A cursor is taken exactly when it names a 64-bit number, and as that number. */
  lemma CursorExactly(text: string, n: nat)
    ensures ParseCursor(text) == Some(n) <==> n < 0x1_0000_0000_0000_0000 && Names(text, n)
  {
    hide ParseCursor, Names;
    if ParseCursor(text).Some? {
      ParsedIsNamed(text);
    }
    if n < 0x1_0000_0000_0000_0000 && Names(text, n) {
      NamedIsParsed(text, n);
    }
  }

  // ----- limits and failures

  /** A page holds a hundred items unless asked otherwise, and never fewer than one or more than five hundred. */
  lemma PageSizeIs(limit: Option<nat>)
    ensures limit == None ==> PageSize(limit) == 100
    ensures limit != None && 1 <= limit.value <= 500 ==> PageSize(limit) == limit.value
    ensures 1 <= PageSize(limit) <= 500
    ensures limit != None && limit.value > 500 ==> PageSize(limit) == 500
  {
  }

  lemma FailuresAre(transactions: seq<Transaction>, filter: Filter, sequence: nat, criteria: Criteria)
    ensures PaginateTransactions(transactions, filter).Failure? <==>
            filter.cursor.Some? && forall n: nat :: ParseCursor(filter.cursor.value) != Some(n)
    ensures PaginateTransactions(transactions, filter).Failure? ==>
              PaginateTransactions(transactions, filter) == Failure(InvalidCursor)
    ensures GetTransaction(transactions, sequence, criteria).Failure? ==>
              GetTransaction(transactions, sequence, criteria) == Failure(NotFound)
    ensures forall p: Transaction :: GetTransaction(transactions, sequence, criteria) == Success(p) <==>
              exists i :: 0 <= i < |transactions| && IsFirstWith(transactions, sequence, i) &&
                ProjectTransaction(transactions[i], criteria) == Some(p)
  {
    hide ParseCursor, Matching, PageSize, ProjectTransaction;
    if filter.cursor.Some? && ParseCursor(filter.cursor.value).Some? {
      assert ParseCursor(filter.cursor.value) == Some(ParseCursor(filter.cursor.value).value);
    }
    FoundIsFirst(transactions, sequence);
  }

  predicate IsFirstWith(transactions: seq<Transaction>, sequence: nat, i: nat)
    requires i < |transactions|
  {
    transactions[i].sequence == sequence && forall j :: 0 <= j < i ==> transactions[j].sequence != sequence
  }

  lemma {:induction false} FoundIsFirst(transactions: seq<Transaction>, sequence: nat)
    ensures FindTransaction(transactions, sequence).None? <==>
            forall i :: 0 <= i < |transactions| ==> transactions[i].sequence != sequence
    ensures forall i :: 0 <= i < |transactions| && IsFirstWith(transactions, sequence, i) ==>
              FindTransaction(transactions, sequence) == Some(transactions[i])
    ensures FindTransaction(transactions, sequence).Some? ==>
              exists i :: 0 <= i < |transactions| && IsFirstWith(transactions, sequence, i)
  {
    if transactions != [] {
      FoundIsFirst(transactions[1..], sequence);
      if transactions[0].sequence == sequence {
        assert IsFirstWith(transactions, sequence, 0);
      } else {
        var rest := transactions[1..];
        forall i | 0 <= i < |transactions| && IsFirstWith(transactions, sequence, i)
          ensures FindTransaction(transactions, sequence) == Some(transactions[i])
        {
          assert forall j :: 0 <= j < i - 1 ==> rest[j] == transactions[j + 1];
          assert IsFirstWith(rest, sequence, i - 1);
        }
        if i :| 0 <= i < |rest| && IsFirstWith(rest, sequence, i) {
          assert forall j :: 1 <= j < i + 1 ==> transactions[j] == rest[j - 1];
          assert IsFirstWith(transactions, sequence, i + 1);
        }
      }
    }
  }
}
