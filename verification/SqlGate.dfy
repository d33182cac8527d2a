/**
 Which texts an external client may run unasked: exactly those that read, in either backslash mode, as one
 balanced statement that only reads, without a denied word and without FOR SHARE.
 */
module SqlGate {
  import opened Wrappers
  import opened SqlPolicy
  import opened SqlTokens
  import opened SqlRisks

  // ----- denied words

  predicate IsServerWord(word: string)
  {
    || word == "BINLOG" || word == "CACHE" || word == "CHANGE" || word == "CLONE" || word == "DECLARE" || word == "EXEC"
    || word == "INSTALL" || word == "RESTART" || word == "RESIGNAL" || word == "SHUTDOWN" || word == "SIGNAL"
    || word == "STOP" || word == "UNINSTALL" || word == "UPSERT"
  }

  /** Clauses and functions that touch files, take locks or spend time. */
  predicate IsEffectWord(word: string)
  {
    || word == "OUTFILE" || word == "DUMPFILE" || word == "INFILE" || word == "LOAD_FILE" || word == "GET_LOCK"
    || word == "RELEASE_LOCK" || word == "RELEASE_ALL_LOCKS" || word == "SLEEP" || word == "BENCHMARK"
    || word == "MASTER_POS_WAIT" || word == "SOURCE_POS_WAIT" || word == "WAIT_FOR_EXECUTED_GTID_SET"
  }

  /** Every verb that changes or administers is denied, and more. */
  predicate IsDenied(word: string)
  {
    IsChangeWord(word) || IsAdminWord(word) || IsServerWord(word) || IsEffectWord(word)
  }

  lemma FirstCommandsAreDenied(word: string)
    requires word in COMMANDS_A_TO_E
    ensures IsDenied(word)
  {
  }

  lemma MiddleCommandsAreDenied(word: string)
    requires word in COMMANDS_F_TO_P
    ensures IsDenied(word)
  {
  }

  lemma LastCommandsAreDenied(word: string)
    requires word in COMMANDS_R_TO_X
    ensures IsDenied(word)
  {
  }

  lemma OtherKeywordsAreDenied(word: string)
    requires word in CLAUSES_AND_FUNCTIONS
    ensures IsDenied(word)
  {
  }

  lemma ChangesAreListed(word: string)
    requires IsChangeWord(word) || IsDefinitionWord(word)
    ensures IsListed(word)
  {
  }

  lemma CareIsListed(word: string)
    requires IsTableCareWord(word) || IsTransactionWord(word)
    ensures IsListed(word)
  {
  }

  lemma SessionIsListed(word: string)
    requires IsSessionWord(word)
    ensures IsListed(word)
  {
  }

  lemma ServerIsListed(word: string)
    requires IsServerWord(word) || IsEffectWord(word)
    ensures IsListed(word)
  {
  }

  lemma ListedIsDenied(word: string)
    ensures IsListed(word) <==> IsDenied(word)
  {
    if IsListed(word) {
      hide IsDenied;
      if word in COMMANDS_A_TO_E {
        FirstCommandsAreDenied(word);
      } else if word in COMMANDS_F_TO_P {
        MiddleCommandsAreDenied(word);
      } else if word in COMMANDS_R_TO_X {
        LastCommandsAreDenied(word);
      } else {
        OtherKeywordsAreDenied(word);
      }
    }
    if IsDenied(word) {
      hide IsListed, IsChangeWord, IsDefinitionWord, IsTableCareWord, IsTransactionWord, IsSessionWord, IsServerWord, IsEffectWord;
      if IsChangeWord(word) || IsDefinitionWord(word) {
        ChangesAreListed(word);
      } else if IsTableCareWord(word) || IsTransactionWord(word) {
        CareIsListed(word);
      } else if IsSessionWord(word) {
        SessionIsListed(word);
      } else {
        ServerIsListed(word);
      }
    }
  }

  // ----- words between dollar signs

  predicate EndsBefore(after: string) { after == [] || after[0] == '$' }

  predicate BeginsBehind(before: string) { before == [] || before[|before| - 1] == '$' }

  /** The part of a word between the start or a `$` and a `$` or the end. */
  predicate IsPart(word: string, before: string, part: string, after: string)
  {
    word == before + part + after && NoDollar(part) && BeginsBehind(before) && EndsBefore(after)
  }

  lemma {:induction false} PieceIsPart(word: string, k: nat) returns (before: string, after: string)
    requires k < |Pieces(word)|
    ensures IsPart(word, before, Pieces(word)[k], after)
    ensures (k == 0 <==> before == []) && (k == |Pieces(word)| - 1 <==> after == [])
  {
    if word == [] {
      before, after := [], [];
    } else if word[0] == '$' {
      if k == 0 {
        before, after := [], word;
      } else {
        var b, a := PieceIsPart(word[1..], k - 1);
        before, after := [word[0]] + b, a;
        assert word == [word[0]] + word[1..];
      }
    } else {
      var b, a := PieceIsPart(word[1..], k);
      assert word == [word[0]] + word[1..];
      if k == 0 {
        before, after := [], a;
        assert b == [];
      } else {
        before, after := [word[0]] + b, a;
      }
    }
  }

  lemma {:induction false} PartIsPiece(before: string, part: string, after: string) returns (k: nat)
    requires IsPart(before + part + after, before, part, after)
    ensures k < |Pieces(before + part + after)| && Pieces(before + part + after)[k] == part
    ensures (k == 0 <==> before == []) && (k == |Pieces(before + part + after)| - 1 <==> after == [])
    decreases |before| + |part|
  {
    var word := before + part + after;
    if before != [] {
      assert word[1..] == before[1..] + part + after;
      var rest := PartIsPiece(before[1..], part, after);
      k := if word[0] == '$' then rest + 1 else rest;
    } else if part != [] {
      assert word[1..] == [] + part[1..] + after;
      k := PartIsPiece([], part[1..], after);
      assert part == [part[0]] + part[1..];
    } else {
      k := 0;
      assert word == after;
    }
  }

  /** A denied word stands by itself, or as a part between dollar signs. */
  ghost predicate HoldsDenied(word: string)
  {
    exists before, part, after :: IsPart(word, before, part, after) && IsDenied(part)
  }

  lemma HoldsDeniedExactly(word: string)
    ensures HasListedPiece(word) <==> HoldsDenied(word)
  {
    hide IsListed, IsDenied, Pieces, IsPart;
    if k :| 0 <= k < |Pieces(word)| && IsListed(Pieces(word)[k]) {
      var before, after := PieceIsPart(word, k);
      ListedIsDenied(Pieces(word)[k]);
    }
    if before, part, after :| IsPart(word, before, part, after) && IsDenied(part) {
      PartIsWord(word, before, part, after);
      var k := PartIsPiece(before, part, after);
      ListedIsDenied(part);
    }
  }

  lemma PartIsWord(word: string, before: string, part: string, after: string)
    requires IsPart(word, before, part, after)
    ensures word == before + part + after
  {
  }

  /** A word whose last part is FOR. */
  predicate EndsWithFor(word: string) { word == "FOR" || (|word| > 3 && word[|word| - 4..] == "$FOR") }

  /** A word whose first part is SHARE. */
  predicate StartsWithShare(word: string) { word == "SHARE" || (|word| > 5 && word[..6] == "SHARE$") }

  lemma LastPieceIsFor(word: string)
    ensures Pieces(word)[|Pieces(word)| - 1] == "FOR" <==> EndsWithFor(word)
  {
    hide Pieces;
    if Pieces(word)[|Pieces(word)| - 1] == "FOR" {
      var before, after := PieceIsPart(word, |Pieces(word)| - 1);
      assert word == before + "FOR";
      if before != [] {
        assert word[|word| - 4..] == [before[|before| - 1]] + "FOR";
      }
    }
    if EndsWithFor(word) {
      var before := word[..|word| - 3];
      assert word == before + "FOR" + [];
      if before != [] {
        assert word[|word| - 4..][0] == before[|before| - 1];
      }
      var k := PartIsPiece(before, "FOR", []);
    }
  }

  lemma FirstPieceIsShare(word: string)
    ensures Pieces(word)[0] == "SHARE" <==> StartsWithShare(word)
  {
    hide Pieces;
    if Pieces(word)[0] == "SHARE" {
      var before, after := PieceIsPart(word, 0);
      assert word == "SHARE" + after;
      if after != [] {
        assert word[..6] == "SHARE" + [after[0]];
      }
    }
    if StartsWithShare(word) {
      var after := word[5..];
      assert word == [] + "SHARE" + after;
      if after != [] {
        assert after[0] == word[..6][5];
      }
      var k := PartIsPiece([], "SHARE", after);
    }
  }

  // ----- the words of a text

  /** FOR and SHARE with no word in between. */
  predicate LocksRows(tokens: seq<Token>)
  {
    exists i, j :: 0 <= i < j < |tokens| && AreNeighbours(tokens, i, j) &&
      EndsWithFor(tokens[i].text) && StartsWithShare(tokens[j].text)
  }

  predicate AreNeighbours(tokens: seq<Token>, i: nat, j: nat)
    requires i < j < |tokens|
  {
    tokens[i].Word? && tokens[j].Word? && forall m :: i < m < j ==> !tokens[m].Word?
  }

  lemma {:induction false} FirstWord(tokens: seq<Token>) returns (j: nat)
    requires WordTexts(tokens) != []
    ensures j < |tokens| && tokens[j].Word? && WordTexts(tokens)[0] == tokens[j].text
    ensures forall m :: 0 <= m < j ==> !tokens[m].Word?
  {
    if tokens[0].Word? {
      j := 0;
    } else {
      var rest := FirstWord(tokens[1..]);
      j := rest + 1;
      assert forall m :: 0 < m < j ==> tokens[m] == tokens[1..][m - 1];
    }
  }

  lemma {:induction false} WordIsFirst(tokens: seq<Token>, j: nat)
    requires j < |tokens| && tokens[j].Word? && forall m :: 0 <= m < j ==> !tokens[m].Word?
    ensures WordTexts(tokens) != [] && WordTexts(tokens)[0] == tokens[j].text
  {
    if j > 0 {
      WordIsFirst(tokens[1..], j - 1);
    }
  }

  lemma {:induction false} NeighboursOf(tokens: seq<Token>, k: nat) returns (i: nat, j: nat)
    requires k + 1 < |WordTexts(tokens)|
    ensures i < j < |tokens| && AreNeighbours(tokens, i, j)
    ensures tokens[i].text == WordTexts(tokens)[k] && tokens[j].text == WordTexts(tokens)[k + 1]
  {
    var rest := tokens[1..];
    if tokens[0].Word? && k == 0 {
      var first := FirstWord(rest);
      i, j := 0, first + 1;
      assert forall m :: 0 < m < j ==> tokens[m] == rest[m - 1];
    } else {
      var a, b := NeighboursOf(rest, if tokens[0].Word? then k - 1 else k);
      i, j := a + 1, b + 1;
      assert forall m :: i < m < j ==> tokens[m] == rest[m - 1];
    }
  }

  lemma {:induction false} NeighboursAreAdjacent(tokens: seq<Token>, i: nat, j: nat) returns (k: nat)
    requires i < j < |tokens| && AreNeighbours(tokens, i, j)
    ensures k + 1 < |WordTexts(tokens)|
    ensures tokens[i].text == WordTexts(tokens)[k] && tokens[j].text == WordTexts(tokens)[k + 1]
  {
    var rest := tokens[1..];
    assert forall m :: 0 < m < |tokens| ==> tokens[m] == rest[m - 1];
    if i == 0 {
      WordIsFirst(rest, j - 1);
      k := 0;
    } else {
      var deeper := NeighboursAreAdjacent(rest, i - 1, j - 1);
      k := if tokens[0].Word? then deeper + 1 else deeper;
    }
  }

  lemma LocksRowsExactly(tokens: seq<Token>)
    ensures ForShare(WordTexts(tokens)) <==> LocksRows(tokens)
  {
    hide WordTexts, Pieces, EndsWithFor, StartsWithShare;
    var words := WordTexts(tokens);
    if k :| 0 <= k < |words| - 1 && Pieces(words[k])[|Pieces(words[k])| - 1] == "FOR" && Pieces(words[k + 1])[0] == "SHARE" {
      var i, j := NeighboursOf(tokens, k);
      LastPieceIsFor(words[k]);
      FirstPieceIsShare(words[k + 1]);
    }
    if i, j :| 0 <= i < j < |tokens| && AreNeighbours(tokens, i, j) && EndsWithFor(tokens[i].text) && StartsWithShare(tokens[j].text) {
      var k := NeighboursAreAdjacent(tokens, i, j);
      LastPieceIsFor(words[k]);
      FirstPieceIsShare(words[k + 1]);
    }
  }

  /** No word holds a denied one, and no row is locked. */
  ghost predicate IsHarmless(tokens: seq<Token>)
  {
    (forall i :: 0 <= i < |tokens| && tokens[i].Word? ==> !HoldsDenied(tokens[i].text)) && !LocksRows(tokens)
  }

  lemma {:induction false} TextIsOfWord(tokens: seq<Token>, k: nat) returns (i: nat)
    requires k < |WordTexts(tokens)|
    ensures i < |tokens| && tokens[i].Word? && tokens[i].text == WordTexts(tokens)[k]
  {
    if tokens[0].Word? && k == 0 {
      i := 0;
    } else {
      var rest := TextIsOfWord(tokens[1..], if tokens[0].Word? then k - 1 else k);
      i := rest + 1;
    }
  }

  lemma HarmlessExactly(tokens: seq<Token>)
    ensures IsHarmless(tokens) <==>
            !((exists i :: 0 <= i < |WordTexts(tokens)| && HasListedPiece(WordTexts(tokens)[i])) || ForShare(WordTexts(tokens)))
  {
    hide WordTexts, HasListedPiece, HoldsDenied, ForShare, LocksRows;
    var words := WordTexts(tokens);
    LocksRowsExactly(tokens);
    if k :| 0 <= k < |words| && HasListedPiece(words[k]) {
      var i := TextIsOfWord(tokens, k);
      HoldsDeniedExactly(words[k]);
    }
    if i :| 0 <= i < |tokens| && tokens[i].Word? && HoldsDenied(tokens[i].text) {
      WordTextsContain(tokens, i);
      var k :| 0 <= k < |words| && words[k] == tokens[i].text;
      HoldsDeniedExactly(words[k]);
    }
  }

  // ----- the texts that are accepted

  /** The text means these tokens whether a backslash escapes or not. */
  ghost predicate MeansEitherWay(sql: string, tokens: seq<Token>) { Means(sql, true, tokens) && Means(sql, false, tokens) }

  /** One statement, with or without a semicolon behind it. */
  predicate IsOneStatement(tokens: seq<Token>, statement: seq<Token>)
  {
    statement != [] && Semicolon !in statement && (tokens == statement || tokens == statement + [Semicolon])
  }

  lemma LexedEitherWay(sql: string, tokens: seq<Token>)
    ensures LexConsistently(sql) == Some(tokens) <==> MeansEitherWay(sql, tokens)
  {
    hide Lex, Means;
    LexExactly(sql, true, tokens);
    LexExactly(sql, false, tokens);
  }

  lemma SingleExactly(tokens: seq<Token>, statement: seq<Token>)
    ensures SingleStatement(tokens) == Some(statement) && statement != [] <==> IsOneStatement(tokens, statement)
  {
    var n := |tokens| - 1;
    if Semicolon in tokens && tokens[n] == Semicolon {
      assert tokens == tokens[..n] + [Semicolon];
    }
    if tokens == statement + [Semicolon] {
      assert tokens[..n] == statement && tokens[n] == Semicolon;
    }
  }

  /** The text is one balanced statement of the tokens, either way. */
  ghost predicate IsStatementText(sql: string, tokens: seq<Token>, statement: seq<Token>)
  {
    MeansEitherWay(sql, tokens) && IsOneStatement(tokens, statement) && IsBalanced(statement)
  }

  lemma {:induction false} StatementTextExactly(sql: string, tokens: seq<Token>, statement: seq<Token>)
    ensures IsStatementText(sql, tokens, statement) <==>
            && LexConsistently(sql) == Some(tokens) && SingleStatement(tokens) == Some(statement)
            && statement != [] && Balanced(statement)
  {
    hide LexConsistently, SingleStatement, IsOneStatement, MeansEitherWay, IsBalanced, Balanced;
    LexedEitherWay(sql, tokens);
    SingleExactly(tokens, statement);
    BalancedExactly(statement);
  }

  /** How a text is classified: by its one balanced statement, if it is one. */
  lemma ClassifiedBy(sql: string, tokens: seq<Token>, statement: seq<Token>)
    requires IsStatementText(sql, tokens, statement)
    ensures LexConsistently(sql) == Some(tokens) && Balance(statement, 0).Some?
    ensures ClassifySql(sql) == ClassifyStatement(statement)
  {
    hide LexConsistently, SingleStatement, IsStatementText, ClassifyStatement;
    StatementTextExactly(sql, tokens, statement);
  }

  lemma ClassifiedHasStatement(sql: string) returns (tokens: seq<Token>, statement: seq<Token>)
    requires ClassifySql(sql) != Unknown
    ensures IsStatementText(sql, tokens, statement)
  {
    hide LexConsistently, SingleStatement, IsStatementText, ClassifyStatement, Balanced;
    tokens := LexConsistently(sql).value;
    statement := SingleStatement(tokens).value;
    StatementTextExactly(sql, tokens, statement);
  }

  /** A text is a read, a write or a schema change exactly when its one balanced statement is; else it is unknown. */
  lemma RisksExactly(sql: string)
    ensures ClassifySql(sql) == Read <==>
            exists tokens, statement :: IsStatementText(sql, tokens, statement) && IsRead(statement)
    ensures ClassifySql(sql) == WriteData <==>
            exists tokens, statement :: IsStatementText(sql, tokens, statement) && IsWrite(statement)
    ensures ClassifySql(sql) == SchemaChange <==>
            exists tokens, statement :: IsStatementText(sql, tokens, statement) && IsSchema(statement)
  {
    hide ClassifySql, IsStatementText, IsRead, IsWrite, IsSchema, ClassifyStatement, Balance, LexConsistently;
    if ClassifySql(sql) != Unknown {
      var tokens, statement := ClassifiedHasStatement(sql);
      ClassifiedBy(sql, tokens, statement);
      StatementRisks(statement);
    }
    forall tokens, statement | IsStatementText(sql, tokens, statement)
      ensures ClassifySql(sql) == Read <==> IsRead(statement)
      ensures ClassifySql(sql) == WriteData <==> IsWrite(statement)
      ensures ClassifySql(sql) == SchemaChange <==> IsSchema(statement)
    {
      ClassifiedBy(sql, tokens, statement);
      StatementRisks(statement);
    }
  }

  /**
   The gate opens exactly for the texts that are, in either backslash mode, one balanced statement that only
   reads, with no denied word in it and no FOR SHARE.
   */
  lemma GateExactly(sql: string)
    ensures McpMayExecute(sql) == Success(()) <==>
            exists tokens, statement ::
              IsStatementText(sql, tokens, statement) && IsRead(statement) && IsHarmless(tokens)
  {
    hide ClassifySql, IsStatementText, IsRead, ClassifyStatement, Balance, LexConsistently, HasListedPiece, ForShare, WordTexts,
      IsHarmless;
    RisksExactly(sql);
    if McpMayExecute(sql).Success? {
      var tokens, statement :| IsStatementText(sql, tokens, statement) && IsRead(statement);
      ClassifiedBy(sql, tokens, statement);
      HarmlessExactly(tokens);
    }
    if tokens, statement :| IsStatementText(sql, tokens, statement) && IsRead(statement) && IsHarmless(tokens) {
      ClassifiedBy(sql, tokens, statement);
      HarmlessExactly(tokens);
    }
  }

  /** A refusal names the risk of the text; a read that is refused is called unknown. */
  lemma RefusalsExactly(sql: string)
    ensures McpMayExecute(sql) == Failure(WriteData) <==>
            exists tokens, statement :: IsStatementText(sql, tokens, statement) && IsWrite(statement)
    ensures McpMayExecute(sql) == Failure(SchemaChange) <==>
            exists tokens, statement :: IsStatementText(sql, tokens, statement) && IsSchema(statement)
    ensures McpMayExecute(sql) != Failure(Read)
  {
    hide ClassifySql, IsStatementText, IsWrite, IsSchema, ContainsDangerousKeyword;
    RisksExactly(sql);
  }
}
