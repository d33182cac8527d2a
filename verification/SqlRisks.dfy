/**
 What the gate of the SQL policy lets through and what it refuses, stated on the tokens of the text: the
 main verb of a statement, behind WITH and behind EXPLAIN, and the words that are denied everywhere.
 */
module SqlRisks {
  import opened Wrappers
  import opened SqlPolicy
  import opened SqlTokens

  // ----- words

  predicate IsChangeWord(word: string)
  {
    word == "INSERT" || word == "UPDATE" || word == "DELETE" || word == "REPLACE" || word == "MERGE"
  }

  predicate IsDefinitionWord(word: string)
  {
    word == "CREATE" || word == "ALTER" || word == "DROP" || word == "TRUNCATE" || word == "RENAME"
  }

  predicate IsTransactionWord(word: string)
  {
    || word == "START" || word == "BEGIN" || word == "COMMIT" || word == "ROLLBACK" || word == "SAVEPOINT"
    || word == "RELEASE" || word == "XA" || word == "LOCK" || word == "UNLOCK"
  }

  predicate IsTableCareWord(word: string)
  {
    || word == "ANALYZE" || word == "OPTIMIZE" || word == "REPAIR" || word == "CHECK" || word == "CHECKSUM"
    || word == "BACKUP" || word == "RESTORE" || word == "FLUSH" || word == "RESET" || word == "PURGE"
  }

  predicate IsSessionWord(word: string)
  {
    || word == "GRANT" || word == "REVOKE" || word == "CALL" || word == "LOAD" || word == "IMPORT"
    || word == "HANDLER" || word == "SET" || word == "USE" || word == "KILL" || word == "DO" || word == "EXECUTE"
    || word == "PREPARE" || word == "DEALLOCATE"
  }

  predicate IsAdminWord(word: string)
  {
    IsDefinitionWord(word) || IsTransactionWord(word) || IsTableCareWord(word) || IsSessionWord(word)
  }

  /** The administrative statements that EXPLAIN may be put in front of and that are told apart there. */
  predicate IsExplainedAdminWord(word: string)
  {
    || IsDefinitionWord(word)
    || word == "GRANT" || word == "REVOKE" || word == "CALL" || word == "LOAD" || word == "IMPORT" || word == "SET"
    || word == "ANALYZE" || word == "OPTIMIZE" || word == "REPAIR" || word == "CHECK"
  }

  lemma DmlIs(word: string)
    ensures word in DML <==> IsChangeWord(word)
  {
  }

  lemma AdminIs(word: string)
    ensures word in ADMIN <==> IsAdminWord(word)
  {
  }

  lemma ExplainedAdminIs(word: string)
    ensures word in EXPLAINED_ADMIN <==> IsExplainedAdminWord(word)
  {
  }

  // ----- statements

  predicate Begins(tokens: seq<Token>, word: string) { tokens != [] && tokens[0] == Word(word) }

  /** The text would be written to a file on the server. */
  predicate Exports(tokens: seq<Token>)
  {
    exists i :: 0 <= i < |tokens| - 1 && tokens[i] == Word("INTO") &&
      (tokens[i + 1] == Word("OUTFILE") || tokens[i + 1] == Word("DUMPFILE"))
  }

  function Opened(tokens: seq<Token>, k: nat): nat
    requires k <= |tokens|
  {
    multiset(tokens[..k])[OpenParen]
  }

  function Closed(tokens: seq<Token>, k: nat): nat
    requires k <= |tokens|
  {
    multiset(tokens[..k])[CloseParen]
  }

  /** As many parentheses closed as opened in front of the index. */
  predicate IsOutside(tokens: seq<Token>, k: nat)
    requires k <= |tokens|
  {
    Opened(tokens, k) == Closed(tokens, k)
  }

  /** No more parentheses closed than opened anywhere, and as many in the end. */
  predicate IsBalanced(tokens: seq<Token>)
  {
    && (forall k: nat :: k <= |tokens| ==> Closed(tokens, k) <= Opened(tokens, k))
    && IsOutside(tokens, |tokens|)
  }

  predicate IsVerb(token: Token) { token == Word("SELECT") || (token.Word? && IsChangeWord(token.text)) }

  /** The verb a WITH statement is about: the first one outside all parentheses. */
  predicate IsMainVerb(tokens: seq<Token>, k: nat)
  {
    && 1 <= k < |tokens| && IsOutside(tokens, k) && IsVerb(tokens[k])
    && forall j :: 1 <= j < k && IsOutside(tokens, j) ==> !IsVerb(tokens[j])
  }

  ghost predicate Queries(tokens: seq<Token>)
  {
    || (Begins(tokens, "SELECT") && !Exports(tokens))
    || (Begins(tokens, "WITH") &&
          exists k: nat :: IsMainVerb(tokens, k) && tokens[k] == Word("SELECT") && !Exports(tokens[k..]))
  }

  ghost predicate WritesFile(tokens: seq<Token>)
  {
    || (Begins(tokens, "SELECT") && Exports(tokens))
    || (Begins(tokens, "WITH") &&
          exists k: nat :: IsMainVerb(tokens, k) && tokens[k] == Word("SELECT") && Exports(tokens[k..]))
  }

  ghost predicate Changes(tokens: seq<Token>)
  {
    || (tokens != [] && tokens[0].Word? && IsChangeWord(tokens[0].text))
    || (Begins(tokens, "WITH") && exists k: nat :: IsMainVerb(tokens, k) && tokens[k] != Word("SELECT"))
  }

  // ----- EXPLAIN

  /** What may stand between EXPLAIN and the statement. */
  datatype Choice = Analyze | Format(equals: bool, value: seq<Token>)

  function WrittenOption(option: Choice): seq<Token>
  {
    match option
    case Analyze => [Word("ANALYZE")]
    case Format(equals, value) => [Word("FORMAT")] + (if equals then [Symbol('=')] else []) + value
  }

  function WrittenOptions(options: seq<Choice>): seq<Token>
  {
    if options == [] then [] else WrittenOption(options[0]) + WrittenOptions(options[1..])
  }

  predicate IsValue(token: Token) { token.Word? || token.Atom? }

  /** FORMAT takes an equals sign and a value when they follow. */
  predicate OptionEnds(option: Choice, rest: seq<Token>)
  {
    option.Format? ==>
      && (option.value == [] || (|option.value| == 1 && IsValue(option.value[0])))
      && (option.value == [] && rest != [] ==> !IsValue(rest[0]) && (!option.equals ==> rest[0] != Symbol('=')))
  }

  predicate OptionsEndAt(options: seq<Choice>, rest: seq<Token>)
  {
    if options == [] then !Begins(rest, "ANALYZE") && !Begins(rest, "FORMAT")
    else OptionEnds(options[0], WrittenOptions(options[1..]) + rest) && OptionsEndAt(options[1..], rest)
  }

  /** The body is options and the explained statement. */
  ghost predicate IsBody(body: seq<Token>, statement: seq<Token>)
  {
    exists options: seq<Choice> :: body == WrittenOptions(options) + statement && OptionsEndAt(options, statement)
  }

  /** DESCRIBE in front of one of these is EXPLAIN. */
  predicate IsExplained(word: string)
  {
    word == "ANALYZE" || word == "FORMAT" || word == "SELECT" || word == "WITH" || IsChangeWord(word) || word == "FOR"
  }

  predicate IsInspection(tokens: seq<Token>)
  {
    && (Begins(tokens, "DESCRIBE") || Begins(tokens, "DESC")) && |tokens| > 1
    && (tokens[1].Word? ==> !IsExplained(tokens[1].text))
  }

  predicate IsExplanation(tokens: seq<Token>)
  {
    || Begins(tokens, "EXPLAIN")
    || ((Begins(tokens, "DESCRIBE") || Begins(tokens, "DESC")) && |tokens| > 1 && tokens[1].Word? && IsExplained(tokens[1].text))
  }

  ghost predicate Explains(tokens: seq<Token>, statement: seq<Token>)
  {
    IsExplanation(tokens) && IsBody(tokens[1..], statement)
  }

  predicate ShowsOnly(tokens: seq<Token>)
  {
    || Begins(tokens, "SHOW") || Begins(tokens, "DESCRIBE") || Begins(tokens, "DESC") || Begins(tokens, "TABLE")
    || (Begins(tokens, "FOR") && |tokens| > 1 && tokens[1] == Word("CONNECTION"))
  }

  // ----- the three risks

  ghost predicate IsRead(tokens: seq<Token>)
  {
    || Queries(tokens) || Begins(tokens, "SHOW") || IsInspection(tokens)
    || exists inner: seq<Token> :: Explains(tokens, inner) && (Queries(inner) || ShowsOnly(inner))
  }

  ghost predicate IsWrite(tokens: seq<Token>)
  {
    Changes(tokens) || exists inner: seq<Token> :: Explains(tokens, inner) && Changes(inner)
  }

  ghost predicate IsSchema(tokens: seq<Token>)
  {
    || WritesFile(tokens) || (tokens != [] && tokens[0].Word? && IsAdminWord(tokens[0].text))
    || exists inner: seq<Token> ::
         && Explains(tokens, inner)
         && (WritesFile(inner) || (inner != [] && inner[0].Word? && IsExplainedAdminWord(inner[0].text)))
  }

  // ----- balance and WITH

  lemma CountsGoOn(tokens: seq<Token>, k: nat)
    requires k < |tokens|
    ensures Opened(tokens, k + 1) == Opened(tokens, k) + if tokens[k].OpenParen? then 1 else 0
    ensures Closed(tokens, k + 1) == Closed(tokens, k) + if tokens[k].CloseParen? then 1 else 0
  {
    assert tokens[..k + 1] == tokens[..k] + [tokens[k]];
  }

  lemma {:induction false} BalanceCounts(tokens: seq<Token>, k: nat, depth: nat)
    requires k <= |tokens| && depth + Closed(tokens, k) == Opened(tokens, k)
    ensures Balance(tokens[k..], depth).Some? <==>
            forall j: nat :: k <= j <= |tokens| ==> Closed(tokens, j) <= Opened(tokens, j)
    ensures Balance(tokens[k..], depth).Some? ==>
              Balance(tokens[k..], depth).value + Closed(tokens, |tokens|) == Opened(tokens, |tokens|)
    decreases |tokens| - k
  {
    hide Opened, Closed, Balance;
    BalanceStep(tokens, k, depth);
    if k < |tokens| {
      CountsGoOn(tokens, k);
      if tokens[k].OpenParen? {
        BalanceCounts(tokens, k + 1, depth + 1);
      } else if tokens[k].CloseParen? {
        if depth > 0 {
          BalanceCounts(tokens, k + 1, depth - 1);
        } else {
          assert Closed(tokens, k + 1) > Opened(tokens, k + 1);
        }
      } else {
        BalanceCounts(tokens, k + 1, depth);
      }
    }
  }

  lemma BalanceStep(tokens: seq<Token>, k: nat, depth: nat)
    requires k <= |tokens|
    ensures Balance(tokens[k..], depth) ==
            if k == |tokens| then Some(depth)
            else if tokens[k].OpenParen? then Balance(tokens[k + 1..], depth + 1)
            else if tokens[k].CloseParen? then if depth == 0 then None else Balance(tokens[k + 1..], depth - 1)
            else Balance(tokens[k + 1..], depth)
  {
    if k < |tokens| {
      assert tokens[k..][1..] == tokens[k + 1..];
    }
  }

  lemma BalancedExactly(tokens: seq<Token>)
    ensures Balanced(tokens) <==> IsBalanced(tokens)
  {
    hide Balance;
    BalanceCounts(tokens, 0, 0);
    assert tokens[0..] == tokens;
  }

  lemma AdjacentIsExport(tokens: seq<Token>)
    ensures ClassifySelect(tokens) == if Exports(tokens) then SchemaChange else Read
  {
  }

  /** What the verb found from `i` on says. */
  function VerbRisk(tokens: seq<Token>, k: nat): Risk
    requires k < |tokens|
  {
    if tokens[k] == Word("SELECT") then if Exports(tokens[k..]) then SchemaChange else Read else WriteData
  }

  lemma {:induction false} WithVerbIs(tokens: seq<Token>, i: nat, depth: nat)
    requires 1 <= i <= |tokens| && Balance(tokens[i..], depth).Some?
    requires depth + Closed(tokens, i) == Opened(tokens, i)
    requires forall j :: 1 <= j < i && IsOutside(tokens, j) ==> !IsVerb(tokens[j])
    ensures forall k: nat :: IsMainVerb(tokens, k) ==> WithVerb(tokens, i, depth) == VerbRisk(tokens, k)
    ensures (forall k: nat :: !IsMainVerb(tokens, k)) ==> WithVerb(tokens, i, depth) == Unknown
    decreases |tokens| - i
  {
    hide Balance, ClassifySelect, Exports, IsChangeWord, Opened, Closed;
    if i < |tokens| {
      WithVerbStep(tokens, i, depth);
      if IsOutside(tokens, i) && IsVerb(tokens[i]) {
        assert IsMainVerb(tokens, i);
        forall k: nat | IsMainVerb(tokens, k) ensures k == i {
        }
      } else {
        var next := NextDepth(tokens[i], depth);
        WithVerbIs(tokens, i + 1, next);
      }
    }
  }

  function NextDepth(token: Token, depth: nat): nat
  {
    if token.OpenParen? then depth + 1 else if token.CloseParen? && depth > 0 then depth - 1 else depth
  }

  lemma WithVerbStep(tokens: seq<Token>, i: nat, depth: nat)
    requires i < |tokens| && Balance(tokens[i..], depth).Some?
    requires depth + Closed(tokens, i) == Opened(tokens, i)
    ensures var next := NextDepth(tokens[i], depth);
            && Balance(tokens[i + 1..], next).Some?
            && next + Closed(tokens, i + 1) == Opened(tokens, i + 1)
            && WithVerb(tokens, i, depth) ==
               if IsOutside(tokens, i) && IsVerb(tokens[i]) then VerbRisk(tokens, i) else WithVerb(tokens, i + 1, next)
  {
    hide IsChangeWord, Exports, ClassifySelect, Opened, Closed, Balance;
    CountsGoOn(tokens, i);
    BalanceStep(tokens, i, depth);
    AdjacentIsExport(tokens[i..]);
    if tokens[i].Word? {
      DmlIs(tokens[i].text);
    }
  }

  lemma WithIs(tokens: seq<Token>)
    requires tokens != [] && tokens[0].Word? && Balance(tokens, 0).Some?
    ensures forall k: nat :: IsMainVerb(tokens, k) ==> ClassifyWith(tokens) == VerbRisk(tokens, k)
    ensures (forall k: nat :: !IsMainVerb(tokens, k)) ==> ClassifyWith(tokens) == Unknown
  {
    hide Balance, IsMainVerb, VerbRisk, WithVerb;
    BalanceStep(tokens, 0, 0);
    assert tokens[0..] == tokens;
    CountsGoOn(tokens, 0);
    WithVerbIs(tokens, 1, 0);
  }

  // ----- options

  predicate StartsOption(body: seq<Token>, i: nat) { IsWord(body, i, "ANALYZE") || IsWord(body, i, "FORMAT") }

  /** An option is skipped, whatever is in front of it. */
  lemma OptionIsSkipped(body: seq<Token>, i: nat, option: Choice, rest: seq<Token>)
    requires OptionEnds(option, rest) && i <= |body| && body[i..] == WrittenOption(option) + rest
    ensures i + |WrittenOption(option)| <= |body|
    ensures OptionsEnd(body, i) == OptionsEnd(body, i + |WrittenOption(option)|)
  {
    hide FormatEnd, OptionEnds, OptionsEnd, WrittenOption;
    OptionBegins(option);
    assert body[i] == body[i..][0];
    OptionsStep(body, i);
    if option.Format? {
      FormatIsSkipped(body, i + 1, option, rest);
    }
  }

  lemma OptionBegins(option: Choice)
    ensures WrittenOption(option) != []
    ensures WrittenOption(option)[0] == if option.Analyze? then Word("ANALYZE") else Word("FORMAT")
    ensures option.Analyze? ==> |WrittenOption(option)| == 1
  {
  }

  lemma OptionsStep(body: seq<Token>, i: nat)
    requires i < |body|
    ensures body[i] == Word("ANALYZE") ==> OptionsEnd(body, i) == OptionsEnd(body, i + 1)
    ensures body[i] == Word("FORMAT") ==> OptionsEnd(body, i) == OptionsEnd(body, FormatEnd(body, i + 1))
  {
  }

  lemma FormatIsSkipped(body: seq<Token>, i: nat, option: Choice, rest: seq<Token>)
    requires option.Format? && OptionEnds(option, rest) && 0 < i <= |body|
    requires body[i - 1..] == WrittenOption(option) + rest
    ensures FormatEnd(body, i) == i - 1 + |WrittenOption(option)|
  {
    var tail := (if option.equals then [Symbol('=')] else []) + option.value + rest;
    assert WrittenOption(option) + rest == [Word("FORMAT")] + tail;
    assert body[i..] == body[i - 1..][1..] == tail;
    FormatOf(body, i, option, rest);
  }

  lemma FormatOf(body: seq<Token>, i: nat, option: Choice, rest: seq<Token>)
    requires option.Format? && OptionEnds(option, rest) && i <= |body|
    requires body[i..] == (if option.equals then [Symbol('=')] else []) + option.value + rest
    ensures FormatEnd(body, i) == i + (if option.equals then 1 else 0) + |option.value|
  {
    var tail := body[i..];
    assert i < |body| ==> body[i] == tail[0];
    assert i + 1 < |body| ==> body[i + 1] == tail[1];
  }

  lemma {:induction false} OptionsAreSkipped(body: seq<Token>, i: nat, options: seq<Choice>, rest: seq<Token>)
    requires OptionsEndAt(options, rest) && i <= |body| && body[i..] == WrittenOptions(options) + rest
    ensures OptionsEnd(body, i) == |body| - |rest|
    decreases |options|
  {
    hide OptionsEnd, OptionEnds, WrittenOption, Begins;
    if options == [] {
      assert body[i..] == rest;
      NoOptionEnds(body, i, rest);
    } else {
      var first, tail := WrittenOption(options[0]), WrittenOptions(options[1..]) + rest;
      assert body[i..] == first + tail;
      OptionIsSkipped(body, i, options[0], tail);
      TailIsThere(body, i, first, tail);
      OptionsAreSkipped(body, i + |first|, options[1..], rest);
    }
  }

  lemma TailIsThere(body: seq<Token>, i: nat, first: seq<Token>, tail: seq<Token>)
    requires i <= |body| && body[i..] == first + tail
    ensures i + |first| <= |body| && body[i + |first|..] == tail
  {
    assert body[i + |first|..] == body[i..][|first|..];
  }

  lemma NoOptionEnds(body: seq<Token>, i: nat, rest: seq<Token>)
    requires i <= |body| && body[i..] == rest && !Begins(rest, "ANALYZE") && !Begins(rest, "FORMAT")
    ensures OptionsEnd(body, i) == i
  {
    if rest != [] {
      assert body[i] == rest[0];
    }
  }

  lemma {:induction false} OptionsAreWritten(body: seq<Token>, i: nat) returns (options: seq<Choice>)
    requires i <= |body|
    ensures body[i..OptionsEnd(body, i)] == WrittenOptions(options) && OptionsEndAt(options, body[OptionsEnd(body, i)..])
    decreases |body| - i
  {
    hide WrittenOption, OptionEnds, FormatEnd;
    if StartsOption(body, i) {
      var option, next := OptionIsWritten(body, i);
      var more := OptionsAreWritten(body, next);
      options := [option] + more;
      assert options[1..] == more;
      var end := OptionsEnd(body, next);
      assert WrittenOptions(options) == body[i..next] + body[next..end];
      assert body[next..] == body[next..end] + body[end..];
    } else {
      options := [];
      var end := OptionsEnd(body, i);
      assert end == i && body[i..i] == [];
    }
  }

  lemma OptionIsWritten(body: seq<Token>, i: nat) returns (option: Choice, next: nat)
    requires i <= |body| && StartsOption(body, i)
    ensures i < next <= |body| && OptionsEnd(body, i) == OptionsEnd(body, next)
    ensures body[i..next] == WrittenOption(option) && OptionEnds(option, body[next..])
  {
    if IsWord(body, i, "ANALYZE") {
      option, next := Analyze, i + 1;
      assert body[i..next] == [body[i]];
    } else {
      option, next := FormatIsWritten(body, i);
    }
  }

  lemma FormatIsWritten(body: seq<Token>, i: nat) returns (option: Choice, next: nat)
    requires i < |body| && body[i] == Word("FORMAT")
    ensures i < next <= |body| && OptionsEnd(body, i) == OptionsEnd(body, next)
    ensures body[i..next] == WrittenOption(option) && OptionEnds(option, body[next..])
  {
    hide OptionsEnd, OptionEnds, FormatEnd, IsWord;
    OptionsStep(body, i);
    next := FormatEnd(body, i + 1);
    var equals := i + 1 < |body| && body[i + 1] == Symbol('=');
    var j := if equals then i + 2 else i + 1;
    FormatEndsAt(body, i + 1, equals);
    option := Format(equals, body[j..next]);
    assert body[i..next] == body[i..j] + body[j..next];
    assert body[i..j] == [body[i]] + if equals then [body[i + 1]] else [];
  }

  lemma FormatEndsAt(body: seq<Token>, i: nat, equals: bool)
    requires i <= |body| && equals == (i < |body| && body[i] == Symbol('='))
    ensures var j, end := if equals then i + 1 else i, FormatEnd(body, i);
            j <= end && OptionEnds(Format(equals, body[j..end]), body[end..])
  {
  }

  lemma BodyIs(body: seq<Token>, statement: seq<Token>)
    ensures IsBody(body, statement) <==> statement == body[OptionsEnd(body, 0)..]
  {
    hide WrittenOptions, OptionsEndAt, OptionsEnd;
    if options: seq<Choice> :| body == WrittenOptions(options) + statement && OptionsEndAt(options, statement) {
      assert body[0..] == body;
      OptionsAreSkipped(body, 0, options, statement);
    }
    var options := OptionsAreWritten(body, 0);
    assert body == body[0..OptionsEnd(body, 0)] + body[OptionsEnd(body, 0)..];
  }

  // ----- the classifier

  lemma WithRisks(tokens: seq<Token>)
    requires Begins(tokens, "WITH") && Balance(tokens, 0).Some?
    ensures ClassifyWith(tokens) == Read <==> Queries(tokens)
    ensures ClassifyWith(tokens) == SchemaChange <==> WritesFile(tokens)
    ensures ClassifyWith(tokens) == WriteData <==> Changes(tokens)
  {
    WithIsNoChange(tokens);
    hide Balance, ClassifyWith, IsMainVerb, Exports, IsChangeWord;
    WithIs(tokens);
    if k: nat :| IsMainVerb(tokens, k) {
      MainVerbIsInside(tokens, k);
    }
  }

  lemma WithIsNoChange(tokens: seq<Token>)
    requires Begins(tokens, "WITH")
    ensures !IsChangeWord(tokens[0].text) && !Begins(tokens, "SELECT")
  {
  }

  lemma MainVerbIsInside(tokens: seq<Token>, k: nat)
    requires IsMainVerb(tokens, k)
    ensures k < |tokens|
  {
  }

  /** SELECT, WITH and the changing statements, as they are told apart by themselves and behind EXPLAIN. */
  lemma MainRisks(tokens: seq<Token>)
    requires Balance(tokens, 0).Some?
    ensures Begins(tokens, "SELECT") ==>
              && !Changes(tokens)
              && ClassifySelect(tokens) == (if Queries(tokens) then Read else SchemaChange)
              && (WritesFile(tokens) <==> !Queries(tokens))
    ensures tokens != [] && tokens[0].Word? && IsChangeWord(tokens[0].text) ==>
              Changes(tokens) && !Queries(tokens) && !WritesFile(tokens)
    ensures !Begins(tokens, "SELECT") && !Begins(tokens, "WITH") && !(tokens != [] && tokens[0].Word? && IsChangeWord(tokens[0].text)) ==>
              !Changes(tokens) && !Queries(tokens) && !WritesFile(tokens)
  {
    hide Balance, IsMainVerb, ClassifySelect, Exports;
    AdjacentIsExport(tokens);
  }

  ghost predicate InnerReads(inner: seq<Token>) { Queries(inner) || ShowsOnly(inner) }

  ghost predicate InnerIsSchema(inner: seq<Token>)
  {
    WritesFile(inner) || (inner != [] && inner[0].Word? && IsExplainedAdminWord(inner[0].text))
  }

  /** The risk is told from the explained statement as its own words tell it. */
  ghost predicate IsToldApart(risk: Risk, inner: seq<Token>)
  {
    && (risk == Read <==> InnerReads(inner)) && (risk == WriteData <==> Changes(inner))
    && (risk == SchemaChange <==> InnerIsSchema(inner))
  }

  lemma ExplainRisks(body: seq<Token>)
    requires Balance(body, 0).Some?
    ensures IsToldApart(ClassifyExplainBody(body), body[OptionsEnd(body, 0)..])
  {
    hide Balance, OptionsEnd, ClassifyExplainBody, IsToldApart, IsChangeWord;
    OptionsKeepBalance(body);
    var inner := body[OptionsEnd(body, 0)..];
    if inner == [] || !inner[0].Word? {
      ExplainsNoVerb(body);
    } else if inner[0].text == "SELECT" {
      ExplainsSelect(body);
    } else if inner[0].text == "WITH" {
      ExplainsWith(body);
    } else if IsChangeWord(inner[0].text) {
      ExplainsChange(body);
    } else {
      ExplainsOther(body);
    }
  }

  lemma ExplainsNoVerb(body: seq<Token>)
    requires Balance(body, 0).Some?
    requires var inner := body[OptionsEnd(body, 0)..]; inner == [] || !inner[0].Word?
    ensures IsToldApart(ClassifyExplainBody(body), body[OptionsEnd(body, 0)..])
  {
    hide Balance, OptionsEnd, ClassifyWith, ClassifySelect, IsChangeWord, IsExplainedAdminWord, IsMainVerb, Exports;
  }

  lemma ExplainsSelect(body: seq<Token>)
    requires Balance(body, 0).Some? && Begins(body[OptionsEnd(body, 0)..], "SELECT")
    ensures IsToldApart(ClassifyExplainBody(body), body[OptionsEnd(body, 0)..])
  {
    hide Balance, OptionsEnd, ClassifyWith, ClassifySelect, IsToldApart;
    OptionsKeepBalance(body);
    SelectIsToldApart(body[OptionsEnd(body, 0)..]);
  }

  lemma SelectIsToldApart(tokens: seq<Token>)
    requires Balance(tokens, 0).Some? && Begins(tokens, "SELECT")
    ensures IsToldApart(ClassifySelect(tokens), tokens)
  {
    hide Balance, ClassifySelect, Queries, WritesFile, Changes, IsExplainedAdminWord, ShowsOnly;
    MainRisks(tokens);
    InnerWordsDiffer("SELECT");
    SelectShowsNothing(tokens);
  }

  lemma SelectShowsNothing(tokens: seq<Token>)
    requires Begins(tokens, "SELECT")
    ensures !ShowsOnly(tokens)
  {
  }

  lemma ExplainsWith(body: seq<Token>)
    requires Balance(body, 0).Some? && Begins(body[OptionsEnd(body, 0)..], "WITH")
    ensures IsToldApart(ClassifyExplainBody(body), body[OptionsEnd(body, 0)..])
  {
    hide Balance, OptionsEnd, ClassifyWith, ClassifySelect, Queries, WritesFile, Changes, IsChangeWord, IsExplainedAdminWord;
    OptionsKeepBalance(body);
    WithRisks(body[OptionsEnd(body, 0)..]);
    InnerWordsDiffer("WITH");
  }

  lemma ExplainsChange(body: seq<Token>)
    requires Balance(body, 0).Some?
    requires var inner := body[OptionsEnd(body, 0)..]; inner != [] && inner[0].Word? && IsChangeWord(inner[0].text)
    ensures IsToldApart(ClassifyExplainBody(body), body[OptionsEnd(body, 0)..])
  {
    hide Balance, OptionsEnd, ClassifyWith, ClassifySelect, Queries, WritesFile, Changes, IsChangeWord, IsExplainedAdminWord;
    OptionsKeepBalance(body);
    var inner := body[OptionsEnd(body, 0)..];
    MainRisks(inner);
    DmlIs(inner[0].text);
    InnerWordsDiffer(inner[0].text);
  }

  lemma ExplainsOther(body: seq<Token>)
    requires Balance(body, 0).Some?
    requires var inner := body[OptionsEnd(body, 0)..];
             && inner != [] && inner[0].Word? && !IsChangeWord(inner[0].text)
             && inner[0].text != "SELECT" && inner[0].text != "WITH"
    ensures IsToldApart(ClassifyExplainBody(body), body[OptionsEnd(body, 0)..])
  {
    hide Balance, OptionsEnd, ClassifyWith, ClassifySelect, Queries, WritesFile, Changes, IsChangeWord, IsExplainedAdminWord;
    OptionsKeepBalance(body);
    var inner := body[OptionsEnd(body, 0)..];
    MainRisks(inner);
    DmlIs(inner[0].text);
    ExplainedAdminIs(inner[0].text);
    InnerWordsDiffer(inner[0].text);
  }

  lemma InnerWordsDiffer(word: string)
    ensures word in {"SELECT", "WITH", "SHOW", "DESCRIBE", "DESC", "TABLE", "FOR"} ==>
              !IsChangeWord(word) && !IsExplainedAdminWord(word)
    ensures IsChangeWord(word) ==> !IsExplainedAdminWord(word)
  {
  }

  lemma DescribedIs(word: string)
    ensures word in EXPLAIN_STYLE <==> IsExplained(word)
  {
  }

  lemma ChangesAreNoTableCare()
    ensures !IsTableCareWord("INSERT") && !IsTableCareWord("UPDATE") && !IsTableCareWord("DELETE")
    ensures !IsTableCareWord("REPLACE") && !IsTableCareWord("MERGE")
    ensures !IsDefinitionWord("INSERT") && !IsDefinitionWord("UPDATE") && !IsDefinitionWord("DELETE")
    ensures !IsDefinitionWord("REPLACE") && !IsDefinitionWord("MERGE")
  {
  }

  lemma ChangesAreNoSession()
    ensures !IsSessionWord("INSERT") && !IsSessionWord("UPDATE") && !IsSessionWord("DELETE")
    ensures !IsSessionWord("REPLACE") && !IsSessionWord("MERGE")
  {
  }

  lemma ChangesAreNoTransaction()
    ensures !IsTransactionWord("INSERT") && !IsTransactionWord("UPDATE") && !IsTransactionWord("DELETE")
    ensures !IsTransactionWord("REPLACE") && !IsTransactionWord("MERGE")
  {
  }

  lemma ChangesAreNoAdmin(word: string)
    requires IsChangeWord(word)
    ensures !IsAdminWord(word)
  {
    hide IsTableCareWord, IsDefinitionWord, IsSessionWord, IsTransactionWord;
    ChangesAreNoTableCare();
    ChangesAreNoSession();
    ChangesAreNoTransaction();
  }

  lemma QueriesAreNoAdmin()
    ensures !IsAdminWord("SELECT") && !IsAdminWord("WITH") && !IsChangeWord("SELECT") && !IsChangeWord("WITH")
  {
  }

  lemma ShowingIsNoAdmin()
    ensures !IsAdminWord("SHOW") && !IsAdminWord("DESC") && !IsChangeWord("SHOW") && !IsChangeWord("DESC")
  {
  }

  lemma DescriptionsAreNoAdmin()
    ensures !IsAdminWord("DESCRIBE") && !IsAdminWord("EXPLAIN") && !IsChangeWord("DESCRIBE") && !IsChangeWord("EXPLAIN")
  {
  }

  lemma OuterWordsDiffer(word: string)
    ensures word in {"SELECT", "WITH", "SHOW", "DESCRIBE", "DESC", "EXPLAIN"} ==>
              !IsChangeWord(word) && !IsAdminWord(word)
    ensures IsChangeWord(word) ==> !IsAdminWord(word)
  {
    hide IsAdminWord, IsChangeWord;
    QueriesAreNoAdmin();
    ShowingIsNoAdmin();
    DescriptionsAreNoAdmin();
    if IsChangeWord(word) {
      ChangesAreNoAdmin(word);
    }
  }

  lemma ExplainsIs(tokens: seq<Token>, inner: seq<Token>)
    ensures Explains(tokens, inner) <==>
            tokens != [] && IsExplanation(tokens) && inner == tokens[1..][OptionsEnd(tokens[1..], 0)..]
  {
    hide IsBody, OptionsEnd;
    if IsExplanation(tokens) {
      BodyIs(tokens[1..], inner);
    }
  }

  lemma BodyKeepsBalance(tokens: seq<Token>)
    requires tokens != [] && tokens[0].Word? && Balance(tokens, 0).Some?
    ensures Balance(tokens[1..], 0).Some?
  {
  }

  lemma InspectionOrExplanation(tokens: seq<Token>)
    requires (Begins(tokens, "DESCRIBE") || Begins(tokens, "DESC")) && Balance(tokens[1..], 0).Some?
    ensures IsExplanation(tokens) ==> ClassifyDescribe(tokens[1..]) == ClassifyExplainBody(tokens[1..]) && !IsInspection(tokens)
    ensures !IsExplanation(tokens) ==> ClassifyDescribe(tokens[1..]) == if IsInspection(tokens) then Read else Unknown
  {
    hide Balance, ClassifyExplainBody, IsExplained;
    if |tokens| > 1 && tokens[1].Word? {
      DescribedIs(tokens[1].text);
    }
  }

  /** An explanation is as risky as what it explains. */
  lemma ExplanationRisks(tokens: seq<Token>)
    requires tokens != [] && IsExplanation(tokens) && Balance(tokens[1..], 0).Some?
    ensures var risk := ClassifyExplainBody(tokens[1..]);
            && (risk == Read <==> exists inner: seq<Token> :: Explains(tokens, inner) && InnerReads(inner))
            && (risk == WriteData <==> exists inner: seq<Token> :: Explains(tokens, inner) && Changes(inner))
            && (risk == SchemaChange <==> exists inner: seq<Token> :: Explains(tokens, inner) && InnerIsSchema(inner))
  {
    hide Balance, ClassifyExplainBody, OptionsEnd, InnerReads, Changes, InnerIsSchema, Explains, IsExplanation;
    var inner := tokens[1..][OptionsEnd(tokens[1..], 0)..];
    ExplainRisks(tokens[1..]);
    forall other: seq<Token> ensures Explains(tokens, other) <==> other == inner {
      ExplainsIs(tokens, other);
    }
  }

  lemma NoExplanation(tokens: seq<Token>)
    requires !IsExplanation(tokens)
    ensures forall inner: seq<Token> :: !Explains(tokens, inner)
  {
  }

  ghost predicate IsReadItself(tokens: seq<Token>) { Queries(tokens) || Begins(tokens, "SHOW") || IsInspection(tokens) }

  ghost predicate IsSchemaItself(tokens: seq<Token>)
  {
    WritesFile(tokens) || (tokens != [] && tokens[0].Word? && IsAdminWord(tokens[0].text))
  }

  /** A statement that explains nothing. */
  lemma PlainRisks(tokens: seq<Token>)
    requires Balance(tokens, 0).Some? && !IsExplanation(tokens)
    ensures ClassifyStatement(tokens) == Read <==> IsReadItself(tokens)
    ensures ClassifyStatement(tokens) == WriteData <==> Changes(tokens)
    ensures ClassifyStatement(tokens) == SchemaChange <==> IsSchemaItself(tokens)
  {
    hide Balance, ClassifyWith, ClassifySelect, ClassifyDescribe, ClassifyExplainBody, Queries, WritesFile, Changes, IsChangeWord,
      IsAdminWord;
    MainRisks(tokens);
    if tokens != [] && tokens[0].Word? {
      var first := tokens[0].text;
      BodyKeepsBalance(tokens);
      DmlIs(first);
      AdminIs(first);
      OuterWordsDiffer(first);
      if first == "WITH" {
        WithRisks(tokens);
      } else if first == "DESCRIBE" || first == "DESC" {
        InspectionOrExplanation(tokens);
      }
    }
  }

  lemma ExplainingStatement(tokens: seq<Token>)
    requires Balance(tokens, 0).Some? && IsExplanation(tokens)
    ensures tokens != [] && Balance(tokens[1..], 0).Some?
    ensures ClassifyStatement(tokens) == ClassifyExplainBody(tokens[1..])
    ensures !IsReadItself(tokens) && !Changes(tokens) && !IsSchemaItself(tokens)
  {
    hide Balance, ClassifyWith, ClassifySelect, ClassifyDescribe, ClassifyExplainBody, Queries, WritesFile, Changes, IsChangeWord,
      IsAdminWord, IsExplained;
    BodyKeepsBalance(tokens);
    MainRisks(tokens);
    OuterWordsDiffer(tokens[0].text);
    if Begins(tokens, "DESCRIBE") || Begins(tokens, "DESC") {
      InspectionOrExplanation(tokens);
    }
  }

  /** The risk of a statement, read off its words. */
  lemma StatementRisks(tokens: seq<Token>)
    requires Balance(tokens, 0).Some?
    ensures ClassifyStatement(tokens) == Read <==> IsRead(tokens)
    ensures ClassifyStatement(tokens) == WriteData <==> IsWrite(tokens)
    ensures ClassifyStatement(tokens) == SchemaChange <==> IsSchema(tokens)
  {
    hide Balance, ClassifyStatement, ClassifyExplainBody, Queries, WritesFile, Changes, IsAdminWord, IsExplainedAdminWord, Explains,
      IsExplanation, IsInspection, ShowsOnly;
    if IsExplanation(tokens) {
      ExplainingStatement(tokens);
      ExplanationRisks(tokens);
    } else {
      PlainRisks(tokens);
      NoExplanation(tokens);
    }
  }
}
