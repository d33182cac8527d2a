/**
 What a reset says about its transaction: which rows compile, which statements are emitted and in which
 order, and that every warning is true and, until the lists are full, none is missing.
 */
module ResetAccount {
  import opened Wrappers
  import opened Binlog
  import opened ResetSql
  import Text

  // ----- which rows compile

  predicate IsLogged(image: Image, column: string) { column in image && image[column] != NotLogged }

  predicate IsReadable(image: Image)
  {
    forall column :: column in image ==> !image[column].DecodeError? && !image[column].Partial?
  }

  /** The value has a literal. */
  ghost predicate IsWritable(d: Decoders, cell: Cell)
  {
    match cell
    case Null => true
    case UnixTimestamp(seconds) => d.decimal(Text.Trim(seconds)) == Some(NonNegative)
    case Value(IntegerValue(text)) => d.decimal(Text.Trim(text)) != None
    case Value(DecimalValue(text)) => d.decimal(Text.Trim(text)) != None
    case Value(FloatValue(_, finite)) => finite
    case Value(BinaryValue(base64)) => d.base64(base64) != None
    case Value(_) => true
    case _ => false
  }

  /** A name the parser makes up for a column: `@` and a number. */
  ghost predicate IsMadeUp(column: string)
  {
    exists digits: string :: digits != [] && column == "@" + digits && forall i :: 0 <= i < |digits| ==> '0' <= digits[i] <= '9'
  }

  /** Every column of the image that is logged has its real name and a value that can be written. */
  ghost predicate IsUsable(d: Decoders, columns: seq<string>, image: Image)
  {
    IsReadable(image) &&
    forall c :: c in columns && IsLogged(image, c) ==> !IsMadeUp(c) && IsWritable(d, image[c])
  }

  predicate LogsSome(columns: seq<string>, image: Image) { exists c :: c in columns && IsLogged(image, c) }

  ghost predicate InsertIsReversible(d: Decoders, columns: seq<string>, after: Image)
  {
    IsUsable(d, columns, after) && LogsSome(columns, after)
  }

  ghost predicate DeleteIsReversible(d: Decoders, columns: seq<string>, before: Image)
  {
    IsUsable(d, columns, before) && columns != [] && forall c :: c in columns ==> IsLogged(before, c)
  }

  /** Of a column that is logged behind the UPDATE, the value before it is needed too. */
  ghost predicate UpdateIsReversible(d: Decoders, columns: seq<string>, before: Image, after: Image)
  {
    && IsUsable(d, columns, before) && IsReadable(after) && LogsSome(columns, before)
    && forall c :: c in columns && IsLogged(after, c) ==> IsLogged(before, c) && IsWritable(d, after[c])
  }

  ghost predicate RowIsReversible(d: Decoders, change: Change, row: RowChange)
  {
    && change.database != "" && change.table != ""
    && match change.operation
       case Insert => row.after.Some? && InsertIsReversible(d, change.columns, row.after.value)
       case Delete => row.before.Some? && DeleteIsReversible(d, change.columns, row.before.value)
       case Update =>
         row.before.Some? && row.after.Some? &&
         UpdateIsReversible(d, change.columns, row.before.value, row.after.value)
       case Ddl => false
  }

  lemma CellExactly(d: Decoders, cell: Cell)
    ensures CellLiteral(d, cell).Success? <==> IsWritable(d, cell)
  {
    hide Text.Trim;
  }

  lemma MadeUpExactly(column: string)
    ensures PlaceholderColumn(column) <==> IsMadeUp(column)
  {
    if PlaceholderColumn(column) {
      assert column == "@" + column[1..];
    }
  }

  lemma ReadableExactly(image: Image)
    ensures HasUnusableCell(image) <==> !IsReadable(image)
  {
  }

  lemma {:induction false} ColumnsExactly(d: Decoders, columns: seq<string>, image: Image, requireComplete: bool)
    ensures ColumnValues(d, columns, image, requireComplete).Success? <==>
            && (forall c :: c in columns && IsLogged(image, c) ==> !IsMadeUp(c) && IsWritable(d, image[c]))
            && (requireComplete ==> forall c :: c in columns ==> IsLogged(image, c))
    ensures ColumnValues(d, columns, image, requireComplete).Success? ==>
              (ColumnValues(d, columns, image, requireComplete).value != [] <==> LogsSome(columns, image))
  {
    hide CellLiteral, IsWritable, PlaceholderColumn, IsMadeUp;
    if columns != [] {
      ColumnsExactly(d, columns[1..], image, requireComplete);
      MadeUpExactly(columns[0]);
      if columns[0] in image {
        CellExactly(d, image[columns[0]]);
      }
      assert columns == [columns[0]] + columns[1..];
      assert forall c :: c in columns <==> c == columns[0] || c in columns[1..];
      assert IsRecorded(image, columns[0]) <==> IsLogged(image, columns[0]);
      hide IsLogged, IsRecorded;
    }
  }

  lemma ValuesExactly(d: Decoders, columns: seq<string>, image: Image, requireComplete: bool)
    ensures OrderedValues(d, columns, image, requireComplete).Success? <==>
            IsUsable(d, columns, image) && (requireComplete ==> forall c :: c in columns ==> IsLogged(image, c))
    ensures OrderedValues(d, columns, image, requireComplete).Success? ==>
              (OrderedValues(d, columns, image, requireComplete).value != [] <==> LogsSome(columns, image))
  {
    hide ColumnValues, HasUnusableCell, IsReadable, IsLogged, IsMadeUp, IsWritable, LogsSome;
    ReadableExactly(image);
    ColumnsExactly(d, columns, image, requireComplete);
  }

  lemma CurrentCells(before: Image, after: Image, c: string)
    requires IsReadable(before) && IsReadable(after)
    ensures var current := Current(before, after);
            && (IsLogged(current, c) <==> IsLogged(before, c) || IsLogged(after, c))
            && (IsLogged(after, c) ==> current[c] == after[c])
            && (IsLogged(before, c) && !IsLogged(after, c) ==> current[c] == before[c])
  {
  }

  lemma CurrentIsReadable(before: Image, after: Image)
    ensures IsReadable(Current(before, after))
  {
  }

  lemma CoversExactly(columns: seq<string>, before: Image, after: Image)
    requires IsReadable(before) && IsReadable(after)
    ensures BeforeCoversAfter(columns, before, after) <==>
            forall c :: c in columns && IsLogged(after, c) ==> IsLogged(before, c)
  {
  }

  lemma CurrentIsUsable(d: Decoders, columns: seq<string>, before: Image, after: Image)
    requires IsUsable(d, columns, before) && IsReadable(after)
    requires forall c :: c in columns && IsLogged(after, c) ==> IsLogged(before, c)
    ensures IsUsable(d, columns, Current(before, after)) <==>
            forall c :: c in columns && IsLogged(after, c) ==> IsWritable(d, after[c])
    ensures LogsSome(columns, before) ==> LogsSome(columns, Current(before, after))
  {
    var current := Current(before, after);
    CurrentIsReadable(before, after);
    forall c: string
      ensures IsLogged(current, c) <==> IsLogged(before, c) || IsLogged(after, c)
      ensures IsLogged(after, c) ==> current[c] == after[c]
      ensures IsLogged(before, c) && !IsLogged(after, c) ==> current[c] == before[c]
    {
      CurrentCells(before, after, c);
    }
    hide Current, IsReadable, IsMadeUp, IsWritable;
    if IsUsable(d, columns, current) {
      forall c | c in columns && IsLogged(after, c) ensures IsWritable(d, after[c]) {
        assert IsLogged(current, c);
      }
    }
  }

  /** A row change has an inverse exactly when its images say enough. */
  lemma RowCompilesExactly(d: Decoders, change: Change, row: RowChange)
    requires !change.operation.Ddl?
    ensures ResetRow(d, change, row).Success? <==> RowIsReversible(d, change, row)
  {
    hide OrderedValues, IsUsable, LogsSome, Current, IsLogged, IsWritable, IsReadable, HasUnusableCell, BeforeCoversAfter;
    match change.operation {
      case Insert =>
        if row.after.Some? {
          ValuesExactly(d, change.columns, row.after.value, false);
        }
      case Delete =>
        if row.before.Some? {
          ValuesExactly(d, change.columns, row.before.value, true);
          DeleteLogsSome(change.columns, row.before.value);
        }
      case Update =>
        if row.before.Some? && row.after.Some? && change.database != "" && change.table != "" {
          UpdateExactly(d, change, row.before.value, row.after.value);
        }
    }
  }

  lemma DeleteLogsSome(columns: seq<string>, before: Image)
    ensures (forall c :: c in columns ==> IsLogged(before, c)) ==> (LogsSome(columns, before) <==> columns != [])
  {
    if columns != [] {
      assert columns[0] in columns;
    }
  }

  lemma UpdateExactly(d: Decoders, change: Change, before: Image, after: Image)
    requires change.database != "" && change.table != ""
    ensures ResetUpdate(d, change, Some(before), Some(after)).Success? <==>
            UpdateIsReversible(d, change.columns, before, after)
  {
    hide OrderedValues, LogsSome, Current, IsLogged, IsWritable, IsReadable, HasUnusableCell, BeforeCoversAfter, IsMadeUp;
    ReadableExactly(before);
    ReadableExactly(after);
    if IsReadable(before) && IsReadable(after) {
      CoversExactly(change.columns, before, after);
      ValuesExactly(d, change.columns, before, false);
      ValuesExactly(d, change.columns, Current(before, after), false);
      if IsUsable(d, change.columns, before) && BeforeCoversAfter(change.columns, before, after) {
        CurrentIsUsable(d, change.columns, before, after);
      }
    }
  }

  // ----- what a reason says

  predicate IsCellOf(columns: seq<string>, image: Image, cell: Cell)
  {
    exists c :: c in columns && IsLogged(image, c) && cell == image[c]
  }

  /** A cell the statement would have to write. */
  ghost predicate IsWritten(change: Change, row: RowChange, cell: Cell)
  {
    || (!change.operation.Insert? && row.before.Some? && IsCellOf(change.columns, row.before.value, cell))
    || (!change.operation.Delete? && row.after.Some? && IsCellOf(change.columns, row.after.value, cell))
  }

  ghost predicate IsTrueOf(d: Decoders, reason: Reason, change: Change, row: RowChange)
  {
    match reason
    case UnknownTable => change.database == "" || change.table == ""
    case MissingBefore => !change.operation.Insert? && row.before.None?
    case MissingAfter => !change.operation.Delete? && row.after.None?
    case Undecoded =>
      || (!change.operation.Insert? && row.before.Some? && !IsReadable(row.before.value))
      || (!change.operation.Delete? && row.after.Some? && !IsReadable(row.after.value))
    case MissingBeforeValue =>
      change.operation.Update? && row.before.Some? && row.after.Some? &&
      exists c :: c in change.columns && IsLogged(row.after.value, c) && !IsLogged(row.before.value, c)
    case NothingToRestore =>
      !change.operation.Insert? && row.before.Some? && !LogsSome(change.columns, row.before.value)
    case NoPredicate => change.operation.Insert? && row.after.Some? && !LogsSome(change.columns, row.after.value)
    case NoColumnNames => exists c :: c in change.columns && IsMadeUp(c)
    case IncompleteImage =>
      change.operation.Delete? && row.before.Some? && exists c :: c in change.columns && !IsLogged(row.before.value, c)
    case BadNumber =>
      exists cell :: IsWritten(change, row, cell) && !IsWritable(d, cell) && cell.Value? &&
        (cell.value.IntegerValue? || cell.value.DecimalValue?)
    case BadFloat => exists cell :: IsWritten(change, row, cell) && !IsWritable(d, cell) && cell.Value? && cell.value.FloatValue?
    case BadBinary => exists cell :: IsWritten(change, row, cell) && !IsWritable(d, cell) && cell.Value? && cell.value.BinaryValue?
    case BadTimestamp => exists cell :: IsWritten(change, row, cell) && !IsWritable(d, cell) && cell.UnixTimestamp?
  }

  /** Why the values of an image cannot be written: a reason about the image alone. */
  ghost predicate Blames(d: Decoders, reason: Reason, columns: seq<string>, image: Image, requireComplete: bool)
  {
    match reason
    case Undecoded => !IsReadable(image)
    case NoColumnNames => exists c :: c in columns && IsMadeUp(c)
    case IncompleteImage => requireComplete && exists c :: c in columns && !IsLogged(image, c)
    case _ =>
      exists c :: c in columns && IsLogged(image, c) && CellLiteral(d, image[c]) == Failure(reason)
  }

  lemma {:induction false} ColumnsBlame(d: Decoders, columns: seq<string>, image: Image, requireComplete: bool)
    requires IsReadable(image) && ColumnValues(d, columns, image, requireComplete).Failure?
    ensures Blames(d, ColumnValues(d, columns, image, requireComplete).error, columns, image, requireComplete)
  {
    var column := columns[0];
    MadeUpExactly(column);
    assert column in columns;
    if PlaceholderColumn(column) && (requireComplete || IsRecorded(image, column)) {
    } else if !PlaceholderColumn(column) && !IsRecorded(image, column) && requireComplete {
    } else if !PlaceholderColumn(column) && IsRecorded(image, column) && CellLiteral(d, image[column]).Failure? {
      ReadableReason(d, image[column]);
    } else {
      ColumnsBlame(d, columns[1..], image, requireComplete);
    }
  }

  lemma ReadableReason(d: Decoders, cell: Cell)
    requires !cell.NotLogged? && !cell.DecodeError? && !cell.Partial? && CellLiteral(d, cell).Failure?
    ensures var reason := CellLiteral(d, cell).error;
            reason != Undecoded && reason != NoColumnNames && reason != IncompleteImage
  {
  }

  lemma ValuesBlame(d: Decoders, columns: seq<string>, image: Image, requireComplete: bool)
    requires OrderedValues(d, columns, image, requireComplete).Failure?
    ensures Blames(d, OrderedValues(d, columns, image, requireComplete).error, columns, image, requireComplete)
  {
    hide ColumnValues, IsReadable, HasUnusableCell;
    ReadableExactly(image);
    if IsReadable(image) {
      ColumnsBlame(d, columns, image, requireComplete);
    }
  }

  /** A reason about a cell is true of the cell. */
  lemma CellReason(d: Decoders, cell: Cell)
    requires CellLiteral(d, cell).Failure?
    ensures !IsWritable(d, cell)
    ensures match CellLiteral(d, cell).error
            case BadNumber => cell.Value? && (cell.value.IntegerValue? || cell.value.DecimalValue?)
            case BadFloat => cell.Value? && cell.value.FloatValue?
            case BadBinary => cell.Value? && cell.value.BinaryValue?
            case BadTimestamp => cell.UnixTimestamp?
            case IncompleteImage => cell.NotLogged?
            case Undecoded => cell.DecodeError? || cell.Partial?
            case _ => false
  {
  }

  /** What is blamed on an image the row change is compiled from is true of the row change. */
  lemma BlameIsTrue(d: Decoders, reason: Reason, change: Change, row: RowChange, image: Image, requireComplete: bool)
    requires !change.operation.Ddl? && Blames(d, reason, change.columns, image, requireComplete)
    requires requireComplete ==> change.operation.Delete?
    requires if change.operation.Insert? then row.after == Some(image)
             else if change.operation.Delete? then row.before == Some(image)
             else
               && row.before.Some? && row.after.Some? && IsReadable(row.before.value) && IsReadable(row.after.value)
               && (image == row.before.value || image == Current(row.before.value, row.after.value))
    ensures IsTrueOf(d, reason, change, row)
  {
    hide IsWritable, IsReadable, IsMadeUp, CellLiteral, Current;
    match reason {
      case Undecoded =>
        if change.operation.Update? {
          CurrentIsReadable(row.before.value, row.after.value);
        }
      case NoColumnNames =>
      case IncompleteImage =>
      case _ =>
        var c :| c in change.columns && IsLogged(image, c) && CellLiteral(d, image[c]) == Failure(reason);
        CellIsWritten(change, row, image, c);
        CellReasonIsTrue(d, change, row, image[c]);
    }
  }

  lemma CellIsWritten(change: Change, row: RowChange, image: Image, c: string)
    requires !change.operation.Ddl? && c in change.columns && IsLogged(image, c)
    requires if change.operation.Insert? then row.after == Some(image)
             else if change.operation.Delete? then row.before == Some(image)
             else
               && row.before.Some? && row.after.Some? && IsReadable(row.before.value) && IsReadable(row.after.value)
               && (image == row.before.value || image == Current(row.before.value, row.after.value))
    ensures IsWritten(change, row, image[c]) && !image[c].NotLogged?
    ensures change.operation.Update? ==> !image[c].DecodeError? && !image[c].Partial?
  {
    if change.operation.Update? {
      CurrentCells(row.before.value, row.after.value, c);
    }
  }

  lemma CellReasonIsTrue(d: Decoders, change: Change, row: RowChange, cell: Cell)
    requires IsWritten(change, row, cell) && CellLiteral(d, cell).Failure?
    requires !cell.NotLogged? && CellLiteral(d, cell).error != Undecoded
    ensures IsTrueOf(d, CellLiteral(d, cell).error, change, row)
  {
    CellReason(d, cell);
    hide IsWritten, IsWritable;
  }

  /** The reason a row change is skipped for is true of it. */
  lemma ReasonIsTrue(d: Decoders, change: Change, row: RowChange)
    requires !change.operation.Ddl? && ResetRow(d, change, row).Failure?
    ensures IsTrueOf(d, ResetRow(d, change, row).error, change, row)
  {
    hide OrderedValues, IsUsable, LogsSome, Current, IsLogged, IsWritable, IsReadable, HasUnusableCell, BeforeCoversAfter, Blames,
      IsWritten, IsMadeUp;
    var columns := change.columns;
    if change.database != "" && change.table != "" {
      match change.operation {
        case Insert =>
          if row.after.Some? {
            var values := OrderedValues(d, columns, row.after.value, false);
            ValuesExactly(d, columns, row.after.value, false);
            if values.Failure? {
              ValuesBlame(d, columns, row.after.value, false);
              BlameIsTrue(d, values.error, change, row, row.after.value, false);
            }
          }
        case Delete =>
          if row.before.Some? {
            var values := OrderedValues(d, columns, row.before.value, true);
            ValuesExactly(d, columns, row.before.value, true);
            if values.Failure? {
              ValuesBlame(d, columns, row.before.value, true);
              BlameIsTrue(d, values.error, change, row, row.before.value, true);
            }
          }
        case Update =>
          if row.before.Some? && row.after.Some? {
            UpdateReasonIsTrue(d, change, row);
          }
      }
    }
  }

  lemma UpdateReasonIsTrue(d: Decoders, change: Change, row: RowChange)
    requires change.operation.Update? && row.before.Some? && row.after.Some? && change.database != "" && change.table != ""
    requires ResetRow(d, change, row).Failure?
    ensures IsTrueOf(d, ResetRow(d, change, row).error, change, row)
  {
    hide OrderedValues, IsUsable, LogsSome, Current, IsLogged, IsWritable, IsReadable, HasUnusableCell, BeforeCoversAfter, Blames,
      IsWritten, IsMadeUp;
    var columns, before, after := change.columns, row.before.value, row.after.value;
    ReadableExactly(before);
    ReadableExactly(after);
    if IsReadable(before) && IsReadable(after) {
      CoversExactly(columns, before, after);
      if BeforeCoversAfter(columns, before, after) {
        var set_ := OrderedValues(d, columns, before, false);
        ValuesExactly(d, columns, before, false);
        if set_.Failure? {
          ValuesBlame(d, columns, before, false);
          BlameIsTrue(d, set_.error, change, row, before, false);
        } else if set_.value != [] {
          var current := Current(before, after);
          CurrentIsUsable(d, columns, before, after);
          ValuesExactly(d, columns, current, false);
          if OrderedValues(d, columns, current, false).Failure? {
            ValuesBlame(d, columns, current, false);
            BlameIsTrue(d, OrderedValues(d, columns, current, false).error, change, row, current, false);
          }
        }
      }
    }
  }

  // ----- the statements of a transaction

  /** The inverses of the row changes that have one, the last change first. */
  function Backwards(d: Decoders, events: seq<RowEvent>): seq<Statement>
  {
    if events == [] then []
    else
      var n := |events| - 1;
      var last := events[n];
      (if Reversible(d, last) then [ResetRow(d, last.change, last.row).value] else []) + Backwards(d, events[..n])
  }

  function ReversedOf(items: seq<Item>): seq<Statement>
  {
    if items == [] then []
    else (if items[0].Reversed? then [items[0].statement] else []) + ReversedOf(items[1..])
  }

  lemma ReversedOfOneMore(first: Item, rest: seq<Item>)
    ensures ReversedOf([first] + rest) == (if first.Reversed? then [first.statement] else []) + ReversedOf(rest)
  {
    assert ([first] + rest)[1..] == rest;
  }

  lemma {:induction false} ReversedOfBoth(left: seq<Item>, right: seq<Item>)
    ensures ReversedOf(left + right) == ReversedOf(left) + ReversedOf(right)
    decreases |left|
  {
    if left == [] {
      assert left + right == right;
    } else {
      assert left == [left[0]] + left[1..] && left + right == [left[0]] + (left[1..] + right);
      hide ReversedOf;
      ReversedOfOneMore(left[0], left[1..]);
      ReversedOfOneMore(left[0], left[1..] + right);
      ReversedOfBoth(left[1..], right);
    }
  }

  lemma {:induction false} BackwardsOfBoth(d: Decoders, left: seq<RowEvent>, right: seq<RowEvent>)
    ensures Backwards(d, left + right) == Backwards(d, right) + Backwards(d, left)
    decreases |right|
  {
    hide ResetRow;
    if right == [] {
      assert left + right == left;
    } else {
      var n := |right| - 1;
      assert (left + right)[..|left + right| - 1] == left + right[..n];
      BackwardsOfBoth(d, left, right[..n]);
    }
  }

  function EventsOf(change: Change, upTo: nat): seq<RowEvent>
    requires upTo <= |change.rows|
  {
    seq(upTo, i requires 0 <= i < upTo => RowEvent(change, change.rows[i]))
  }

  lemma {:induction false} RowsBackwards(d: Decoders, change: Change, changeIndex: nat, upTo: nat)
    requires !change.operation.Ddl? && upTo <= |change.rows|
    ensures ReversedOf(RowItems(d, change, changeIndex, upTo)) == Backwards(d, EventsOf(change, upTo))
  {
    hide ResetRow;
    if upTo > 0 {
      RowsBackwards(d, change, changeIndex, upTo - 1);
      var item, later := RowItem(d, change, changeIndex, upTo - 1), RowItems(d, change, changeIndex, upTo - 1);
      assert EventsOf(change, upTo)[..upTo - 1] == EventsOf(change, upTo - 1);
      assert ([item] + later)[1..] == later;
    }
  }

  lemma {:induction false} SkippedBackwards(d: Decoders, change: Change, upTo: nat)
    requires change.operation.Ddl? && upTo <= |change.rows|
    ensures Backwards(d, EventsOf(change, upTo)) == []
  {
    if upTo > 0 {
      SkippedBackwards(d, change, upTo - 1);
      assert EventsOf(change, upTo)[..upTo - 1] == EventsOf(change, upTo - 1);
    }
  }

  lemma ChangeBackwards(d: Decoders, change: Change, changeIndex: nat)
    ensures ReversedOf(ChangeItems(d, change, changeIndex)) == Backwards(d, EventsOf(change, |change.rows|))
  {
    hide RowItems, Backwards, ResetRow;
    if change.operation.Ddl? {
      SkippedBackwards(d, change, |change.rows|);
      assert [Skip(SkippedDdl(changeIndex + 1))][1..] == [];
    } else {
      RowsBackwards(d, change, changeIndex, |change.rows|);
      if change.rows == [] {
        NoRows(d, change, changeIndex);
        assert [Skip(SkippedWithoutRows(changeIndex + 1))][1..] == [];
      }
    }
  }

  lemma NoRows(d: Decoders, change: Change, changeIndex: nat)
    requires !change.operation.Ddl? && change.rows == []
    ensures RowItems(d, change, changeIndex, |change.rows|) == []
  {
  }

  lemma {:induction false} ItemsBackwards(d: Decoders, changes: seq<Change>)
    ensures ReversedOf(Items(d, changes)) == Backwards(d, RowEvents(changes))
  {
    hide ChangeItems, Backwards, ReversedOf, ResetRow;
    if changes == [] {
      NothingBackwards(d);
    } else {
      var n := |changes| - 1;
      var last, mine := changes[n], EventsOf(changes[n], |changes[n].rows|);
      ItemsBackwards(d, changes[..n]);
      ChangeBackwards(d, last, n);
      assert RowEvents(changes) == RowEvents(changes[..n]) + mine;
      BackwardsOfBoth(d, RowEvents(changes[..n]), mine);
      ReversedOfBoth(ChangeItems(d, last, n), Items(d, changes[..n]));
    }
  }

  lemma NothingBackwards(d: Decoders)
    ensures Backwards(d, []) == [] && ReversedOf([]) == []
  {
  }

  function FirstOf<T>(n: nat, values: seq<T>): seq<T> { if |values| <= n then values else values[..n] }

  lemma FirstOfFull(full: seq<Statement>, more: seq<Statement>)
    requires |full| == 10_000
    ensures FirstOf(10_000, full + more) == full
  {
    if more == [] {
      assert full + more == full;
    } else {
      assert (full + more)[..10_000] == full;
    }
  }

  lemma FirstOfFew(few: seq<Statement>)
    requires |few| <= 10_000
    ensures FirstOf(10_000, few) == few
  {
  }

  lemma {:induction false} FeedStatements(draft: Draft, items: seq<Item>)
    requires |draft.statements| <= 10_000
    ensures Feed(draft, items).statements == FirstOf(10_000, draft.statements + ReversedOf(items))
    decreases |items|
  {
    var all := draft.statements + ReversedOf(items);
    if items == [] {
      assert all == draft.statements;
      FirstOfFew(draft.statements);
    } else {
      assert items == [items[0]] + items[1..];
      hide Feed, FirstOf, ReversedOf;
      ReversedOfOneMore(items[0], items[1..]);
      var rest := ReversedOf(items[1..]);
      match items[0] {
        case Skip(warning) =>
          FeedSkip(draft, warning, items[1..]);
          FeedStatements(draft.WithWarning(warning), items[1..]);
          assert [] + rest == rest;
        case Reversed(statement) =>
          FeedStatement(draft, statement, items[1..]);
          if draft.Full() {
            FirstOfFull(draft.statements, [statement] + rest);
          } else {
            FeedStatements(draft.WithStatement(statement), items[1..]);
            assert all == draft.statements + [statement] + rest;
          }
      }
    }
  }

  /** A committed transaction gets the first 10,000 of its inverses, the last row change first; any other none. */
  lemma StatementsAre(d: Decoders, transaction: Transaction)
    ensures Generate(d, transaction).statements ==
            if transaction.status.Committed? then FirstOf(10_000, Backwards(d, RowEvents(transaction.changes))) else []
  {
    hide Feed, Items, RowEvents, ReversedOf, Backwards, FirstOf;
    var changes := transaction.changes;
    if transaction.status.Committed? {
      if changes == [] {
        NoEvents(d);
      } else {
        ItemsBackwards(d, changes);
        FeedStatements(EMPTY_DRAFT, Items(d, changes));
        assert [] + ReversedOf(Items(d, changes)) == ReversedOf(Items(d, changes));
      }
    }
  }

  lemma NoEvents(d: Decoders)
    ensures FirstOf(10_000, Backwards(d, RowEvents([]))) == []
  {
  }

  // ----- the warnings

  /** What an item that is skipped says about the transaction. */
  ghost predicate SkipIsTrue(d: Decoders, changes: seq<Change>, warning: Warning)
  {
    match warning
    case SkippedDdl(n) => 1 <= n <= |changes| && changes[n - 1].operation.Ddl?
    case SkippedWithoutRows(n) => 1 <= n <= |changes| && !changes[n - 1].operation.Ddl? && changes[n - 1].rows == []
    case SkippedRow(n, k, reason) =>
      && 1 <= n <= |changes| && !changes[n - 1].operation.Ddl? && 1 <= k <= |changes[n - 1].rows|
      && !RowIsReversible(d, changes[n - 1], changes[n - 1].rows[k - 1])
      && IsTrueOf(d, reason, changes[n - 1], changes[n - 1].rows[k - 1])
    case _ => false
  }

  /** A change or a row that has to be skipped. */
  ghost predicate MustBeSkipped(d: Decoders, changes: seq<Change>, n: nat, k: nat)
  {
    && 1 <= n <= |changes|
    && (changes[n - 1].operation.Ddl? || changes[n - 1].rows == [] ||
        (1 <= k <= |changes[n - 1].rows| && !RowIsReversible(d, changes[n - 1], changes[n - 1].rows[k - 1])))
  }

  /** The warning is about the change, and about the row if it is about one. */
  predicate IsAbout(warning: Warning, n: nat, k: nat)
  {
    || warning == SkippedDdl(n) || warning == SkippedWithoutRows(n)
    || (warning.SkippedRow? && warning.change == n && warning.row == k)
  }

  lemma {:induction false} RowSkipsAre(d: Decoders, change: Change, changeIndex: nat, upTo: nat, item: Item)
    requires !change.operation.Ddl? && upTo <= |change.rows|
    ensures item in RowItems(d, change, changeIndex, upTo) <==>
            exists j: nat :: j < upTo && item == RowItem(d, change, changeIndex, j)
  {
    hide ResetRow, RowItem;
    if upTo > 0 {
      RowSkipsAre(d, change, changeIndex, upTo - 1, item);
      var first, later := RowItem(d, change, changeIndex, upTo - 1), RowItems(d, change, changeIndex, upTo - 1);
      assert item in [first] + later <==> item == first || item in later;
    }
  }

  lemma {:induction false} ItemsOfChanges(d: Decoders, changes: seq<Change>, item: Item)
    ensures item in Items(d, changes) <==> exists i: nat :: i < |changes| && item in ChangeItems(d, changes[i], i)
  {
    hide ChangeItems;
    if changes != [] {
      var n := |changes| - 1;
      ItemsOfChanges(d, changes[..n], item);
      var mine, earlier := ChangeItems(d, changes[n], n), Items(d, changes[..n]);
      assert item in mine + earlier <==> item in mine || item in earlier;
      assert forall i: nat :: i < n ==> changes[..n][i] == changes[i];
    }
  }

  lemma ChangeSkipIsTrue(d: Decoders, changes: seq<Change>, i: nat, warning: Warning)
    requires i < |changes| && Skip(warning) in ChangeItems(d, changes[i], i)
    ensures SkipIsTrue(d, changes, warning)
  {
    hide ResetRow, RowItems, IsTrueOf, RowIsReversible;
    var change := changes[i];
    if !change.operation.Ddl? && change.rows != [] {
      RowSkipsAre(d, change, i, |change.rows|, Skip(warning));
      var j: nat :| j < |change.rows| && Skip(warning) == RowItem(d, change, i, j);
      RowCompilesExactly(d, change, change.rows[j]);
      ReasonIsTrue(d, change, change.rows[j]);
    }
  }

  lemma SkipsAreTrue(d: Decoders, changes: seq<Change>, warning: Warning)
    requires Skip(warning) in Items(d, changes)
    ensures SkipIsTrue(d, changes, warning)
  {
    hide SkipIsTrue, ChangeItems, Items;
    ItemsOfChanges(d, changes, Skip(warning));
    var i: nat :| i < |changes| && Skip(warning) in ChangeItems(d, changes[i], i);
    ChangeSkipIsTrue(d, changes, i, warning);
  }

  lemma SkipIsThere(d: Decoders, changes: seq<Change>, n: nat, k: nat) returns (warning: Warning)
    requires MustBeSkipped(d, changes, n, k)
    ensures Skip(warning) in Items(d, changes) && IsAbout(warning, n, k)
  {
    hide ResetRow, RowItems, RowIsReversible, Items;
    var change := changes[n - 1];
    if change.operation.Ddl? {
      warning := SkippedDdl(n);
    } else if change.rows == [] {
      warning := SkippedWithoutRows(n);
    } else {
      RowCompilesExactly(d, change, change.rows[k - 1]);
      warning := RowItem(d, change, n - 1, k - 1).warning;
      RowSkipsAre(d, change, n - 1, |change.rows|, Skip(warning));
    }
    assert Skip(warning) in ChangeItems(d, changes[n - 1], n - 1);
    ItemsOfChanges(d, changes, Skip(warning));
  }

  /** The list of warnings is not full, or full and says so at its end. */
  predicate IsBounded(draft: Draft)
  {
    if draft.warningsTruncated then |draft.warnings| == 101 && draft.warnings[100] == WarningsOmitted && WarningsOmitted !in draft.warnings[..100]
    else |draft.warnings| <= 100 && WarningsOmitted !in draft.warnings
  }

  lemma WarningIsAdded(draft: Draft, warning: Warning)
    requires IsBounded(draft) && warning != WarningsOmitted
    ensures var next := draft.WithWarning(warning);
            && IsBounded(next) && next.statements == draft.statements
            && (forall w :: w in next.warnings ==> w in draft.warnings || w == warning || w == WarningsOmitted)
            && (forall w :: w in draft.warnings ==> w in next.warnings)
            && (WarningsOmitted !in next.warnings ==> warning in next.warnings)
  {
    var next := draft.WithWarning(warning);
    if |draft.warnings| == 100 {
      assert next.warnings[..100] == draft.warnings && next.warnings[100] == WarningsOmitted;
    }
    if |draft.warnings| < 100 {
      assert next.warnings == draft.warnings + [warning] && next.warnings[|draft.warnings|] == warning;
    }
    if draft.warningsTruncated {
      assert draft.warnings[100] in draft.warnings;
    }
  }

  ghost predicate SkipsOnly(items: seq<Item>)
  {
    forall i :: 0 <= i < |items| && items[i].Skip? ==> items[i].warning != WarningsOmitted && items[i].warning != StatementsTruncated
  }

  /** What a warning of a visit goes back to. */
  ghost predicate HasCause(warning: Warning, draft: Draft, items: seq<Item>)
  {
    || warning in draft.warnings || warning == WarningsOmitted || Skip(warning) in items
    || (warning == StatementsTruncated && |draft.statements| + |ReversedOf(items)| > 10_000)
  }

  lemma {:induction false} FeedWarnings(draft: Draft, items: seq<Item>)
    requires IsBounded(draft) && SkipsOnly(items) && |draft.statements| <= 10_000
    ensures var after := Feed(draft, items);
            && IsBounded(after)
            && (forall w :: w in after.warnings ==> HasCause(w, draft, items))
            && (forall w :: w in draft.warnings ==> w in after.warnings)
            && (WarningsOmitted !in after.warnings && StatementsTruncated !in after.warnings ==>
                  forall w :: Skip(w) in items ==> w in after.warnings)
    decreases |items|
  {
    hide IsBounded;
    if items != [] {
      var first, rest := items[0], items[1..];
      assert forall i :: 0 <= i < |rest| ==> rest[i] == items[i + 1];
      assert forall item :: item in items <==> item == first || item in rest;
      match first {
        case Skip(warning) =>
          var next := draft.WithWarning(warning);
          WarningIsAdded(draft, warning);
          FeedWarnings(next, rest);
          CausesGoBack(draft, next, items);
        case Reversed(statement) =>
          if draft.Full() {
            WarningIsAdded(draft, StatementsTruncated);
          } else {
            var next := draft.WithStatement(statement);
            StatementKeepsBound(draft, statement);
            FeedWarnings(next, rest);
            CausesGoBack(draft, next, items);
          }
      }
    }
  }

  lemma StatementKeepsBound(draft: Draft, statement: Statement)
    requires IsBounded(draft) && !draft.Full()
    ensures IsBounded(draft.WithStatement(statement)) && draft.WithStatement(statement).warnings == draft.warnings
    ensures draft.WithStatement(statement).statements == draft.statements + [statement]
  {
  }

  lemma CausesGoBack(draft: Draft, next: Draft, items: seq<Item>)
    requires items != []
    requires forall w :: w in next.warnings ==> w in draft.warnings || Skip(w) == items[0] || w == WarningsOmitted
    requires |next.statements| == |draft.statements| + if items[0].Reversed? then 1 else 0
    ensures forall w :: HasCause(w, next, items[1..]) ==> HasCause(w, draft, items)
  {
    assert items == [items[0]] + items[1..];
    assert forall item :: item in items <==> item == items[0] || item in items[1..];
    assert |ReversedOf(items)| == |ReversedOf(items[1..])| + if items[0].Reversed? then 1 else 0;
  }

  lemma ItemsAreSkips(d: Decoders, changes: seq<Change>)
    ensures SkipsOnly(Items(d, changes))
  {
    hide SkipIsTrue, Items;
    var items := Items(d, changes);
    forall i | 0 <= i < |items| && items[i].Skip?
      ensures items[i].warning != WarningsOmitted && items[i].warning != StatementsTruncated
    {
      assert items[i] == Skip(items[i].warning);
      SkipsAreTrue(d, changes, items[i].warning);
      SkipIsKind(d, changes, items[i].warning);
    }
  }

  lemma SkipIsKind(d: Decoders, changes: seq<Change>, warning: Warning)
    requires SkipIsTrue(d, changes, warning)
    ensures warning != WarningsOmitted && warning != StatementsTruncated
  {
  }

  ghost predicate WarningIsTrue(d: Decoders, transaction: Transaction, warning: Warning)
  {
    match warning
    case NotCommitted => !transaction.status.Committed?
    case NoReversibleChanges => transaction.status.Committed? && transaction.changes == []
    case StatementsTruncated =>
      transaction.status.Committed? && |Backwards(d, RowEvents(transaction.changes))| > 10_000
    case WarningsOmitted => transaction.status.Committed?
    case _ => transaction.status.Committed? && SkipIsTrue(d, transaction.changes, warning)
  }

  /** The visit of a committed transaction's changes, and that it always leaves something behind. */
  lemma GeneratedIsFed(d: Decoders, transaction: Transaction)
    requires transaction.status.Committed? && transaction.changes != []
    ensures Generate(d, transaction).warnings == Feed(EMPTY_DRAFT, Items(d, transaction.changes)).warnings
  {
    hide ChangeItems, Feed;
    var changes := transaction.changes;
    var n := |changes| - 1;
    assert Items(d, changes) == ChangeItems(d, changes[n], n) + Items(d, changes[..n]);
    SomeItem(d, changes[n], n);
    FeedLeavesSomething(Items(d, changes));
  }

  lemma SomeItem(d: Decoders, change: Change, changeIndex: nat)
    ensures ChangeItems(d, change, changeIndex) != []
  {
    hide RowItem;
  }

  lemma FeedLeavesSomething(items: seq<Item>)
    requires items != []
    ensures Feed(EMPTY_DRAFT, items).statements != [] || Feed(EMPTY_DRAFT, items).warnings != []
  {
    FeedStatements(EMPTY_DRAFT, items);
    if items[0].Skip? {
      WarningsStay(EMPTY_DRAFT.WithWarning(items[0].warning), items[1..]);
    } else {
      assert ReversedOf(items)[0] == items[0].statement;
      assert ([] + ReversedOf(items)) != [];
    }
  }

  /**
   Every warning is true; there are at most a hundred, and one that says that more were left out; and unless
   something was left out, every change and every row that is skipped is warned about.
   */
  lemma WarningsAre(d: Decoders, transaction: Transaction)
    ensures var warnings := Generate(d, transaction).warnings;
            && |warnings| <= 101 && (|warnings| == 101 ==> warnings[100] == WarningsOmitted)
            && (forall i :: 0 <= i < |warnings| && i < 100 ==> warnings[i] != WarningsOmitted)
            && (forall w :: w in warnings ==> WarningIsTrue(d, transaction, w))
            && (!transaction.status.Committed? ==> NotCommitted in warnings)
            && (transaction.status.Committed? && transaction.changes == [] ==> NoReversibleChanges in warnings)
            && (transaction.status.Committed? && WarningsOmitted !in warnings && StatementsTruncated !in warnings ==>
                  forall n: nat, k: nat :: MustBeSkipped(d, transaction.changes, n, k) ==>
                    exists w :: w in warnings && IsAbout(w, n, k))
  {
    hide Feed, Items, SkipIsTrue, MustBeSkipped, Backwards, RowEvents, ReversedOf, IsAbout;
    var changes := transaction.changes;
    if transaction.status.Committed? && changes == [] {
      NothingMustBeSkipped(d);
    } else if transaction.status.Committed? {
      var items, warnings := Items(d, changes), Generate(d, transaction).warnings;
      GeneratedIsFed(d, transaction);
      ItemsAreSkips(d, changes);
      FeedWarnings(EMPTY_DRAFT, items);
      BoundIs(Feed(EMPTY_DRAFT, items));
      ItemsBackwards(d, changes);
      forall w | w in warnings ensures WarningIsTrue(d, transaction, w) {
        CauseIsTrue(d, transaction, w);
      }
      if WarningsOmitted !in warnings && StatementsTruncated !in warnings {
        forall n: nat, k: nat | MustBeSkipped(d, changes, n, k) ensures exists w :: w in warnings && IsAbout(w, n, k) {
          var w := SkipIsThere(d, changes, n, k);
          assert w in warnings;
        }
      }
    }
  }

  lemma NothingMustBeSkipped(d: Decoders)
    ensures forall n: nat, k: nat :: !MustBeSkipped(d, [], n, k)
  {
  }

  lemma BoundIs(draft: Draft)
    requires IsBounded(draft)
    ensures |draft.warnings| <= 101 && (|draft.warnings| == 101 ==> draft.warnings[100] == WarningsOmitted)
    ensures forall i :: 0 <= i < |draft.warnings| && i < 100 ==> draft.warnings[i] != WarningsOmitted
  {
    if draft.warningsTruncated {
      assert forall i :: 0 <= i < 100 ==> draft.warnings[i] == draft.warnings[..100][i];
    }
  }

  lemma CauseIsTrue(d: Decoders, transaction: Transaction, warning: Warning)
    requires transaction.status.Committed? && HasCause(warning, EMPTY_DRAFT, Items(d, transaction.changes))
    ensures WarningIsTrue(d, transaction, warning)
  {
    hide Items, SkipIsTrue, Backwards, RowEvents, ReversedOf;
    ItemsBackwards(d, transaction.changes);
    if Skip(warning) in Items(d, transaction.changes) {
      SkipsAreTrue(d, transaction.changes, warning);
      SkipIsOneOfThree(d, transaction.changes, warning);
    }
  }

  lemma SkipIsOneOfThree(d: Decoders, changes: seq<Change>, warning: Warning)
    requires SkipIsTrue(d, changes, warning)
    ensures warning.SkippedDdl? || warning.SkippedWithoutRows? || warning.SkippedRow?
  {
  }
}
