/**
 The SQL policy: a lexer run under both backslash modes, a statement classifier, and the gate that
 decides what an external client may run unasked.

 The source scans UTF-8 bytes; every character it tests for is ASCII and bytes of other characters
 are skipped, so the model scans characters.
 */
module SqlPolicy {
  import opened Wrappers
  import MysqlText

  datatype Token = Word(text: string) | Atom | OpenParen | CloseParen | Semicolon | Symbol(c: char)

  datatype Risk = Read | WriteData | SchemaChange | Unknown

  // ----- character classes

  predicate IsSpace(c: char) { c == ' ' || c == '\t' || c == '\n' || c == '\r' || c as int == 12 }

  predicate IsControl(c: char) { c as int < 32 || c as int == 127 }

  predicate IsAlphabetic(c: char) { 'a' <= c <= 'z' || 'A' <= c <= 'Z' }

  predicate IsWordPart(c: char) { IsAlphabetic(c) || '0' <= c <= '9' || c == '_' || c == '$' }

  predicate IsPunctuation(c: char)
  {
    '!' <= c <= '/' || ':' <= c <= '@' || '[' <= c <= '`' || '{' <= c <= '~'
  }

  function UpperChar(c: char): char { if 'a' <= c <= 'z' then (c as int - 32) as char else c }

  function Upper(s: string): string { seq(|s|, i requires 0 <= i < |s| => UpperChar(s[i])) }

  // ----- scanning

  /** The index behind a quoted token whose body is read from `i`. */
  function QuotedEnd(s: string, i: nat, quote: char, escapes: bool): Option<nat>
    decreases |s| - i
  {
    if i >= |s| then None
    else if escapes && s[i] == '\\' then if i + 1 >= |s| then None else QuotedEnd(s, i + 2, quote, escapes)
    else if s[i] == quote then
      if i + 1 < |s| && s[i + 1] == quote then QuotedEnd(s, i + 2, quote, escapes) else Some(i + 1)
    else QuotedEnd(s, i + 1, quote, escapes)
  }

  method ConsumeQuoted(s: string, start: nat, quote: char, escapes: bool) returns (end: Option<nat>)
    requires start < |s|
    ensures end == QuotedEnd(s, start + 1, quote, escapes)
  {
    var index := start + 1;
    while index < |s|
      invariant index <= |s| + 1
      invariant QuotedEnd(s, start + 1, quote, escapes) == QuotedEnd(s, index, quote, escapes)
    {
      if escapes && s[index] == '\\' {
        if index + 1 >= |s| {
          return None;
        }
        index := index + 2;
        continue;
      }
      if s[index] == quote {
        if index + 1 < |s| && s[index + 1] == quote {
          index := index + 2;
          continue;
        }
        return Some(index + 1);
      }
      index := index + 1;
    }
    end := None;
  }

  function LineEnd(s: string, i: nat): (end: nat)
    ensures end >= i
    decreases |s| - i
  {
    if i < |s| && s[i] != '\n' then LineEnd(s, i + 1) else i
  }

  method ConsumeLineComment(s: string, start: nat) returns (end: nat)
    ensures end == LineEnd(s, start)
  {
    end := start;
    while end < |s| && s[end] != '\n'
      invariant LineEnd(s, start) == LineEnd(s, end)
    {
      end := end + 1;
    }
  }

  function BlockEnd(s: string, i: nat): (end: Option<nat>)
    ensures end.Some? ==> end.value > i
    decreases |s| - i
  {
    if i + 1 >= |s| then None
    else if s[i] == '*' && s[i + 1] == '/' then Some(i + 2)
    else BlockEnd(s, i + 1)
  }

  method ConsumeBlockComment(s: string, start: nat) returns (end: Option<nat>)
    ensures end == BlockEnd(s, start)
  {
    var index := start;
    while index + 1 < |s|
      invariant BlockEnd(s, start) == BlockEnd(s, index)
    {
      if s[index] == '*' && s[index + 1] == '/' {
        return Some(index + 2);
      }
      index := index + 1;
    }
    end := None;
  }

  predicate IsExecutableComment(s: string, i: nat)
  {
    || (i + 2 < |s| && s[i + 2] == '!')
    || (i + 3 < |s| && (s[i + 2] == 'M' || s[i + 2] == 'm') && s[i + 3] == '!')
  }

  predicate StartsLineComment(s: string, i: nat)
    requires i < |s|
  {
    s[i] == '-' && i + 2 < |s| && s[i + 1] == '-' && (IsSpace(s[i + 2]) || IsControl(s[i + 2]))
  }

  predicate StartsBlockComment(s: string, i: nat)
    requires i < |s|
  {
    s[i] == '/' && i + 1 < |s| && s[i + 1] == '*'
  }

  function WordEnd(s: string, i: nat): (end: nat)
    ensures end >= i && (i <= |s| ==> end <= |s|)
    decreases |s| - i
  {
    if i < |s| && IsWordPart(s[i]) then WordEnd(s, i + 1) else i
  }

  lemma {:induction false} QuotedEndGrows(s: string, i: nat, quote: char, escapes: bool)
    ensures QuotedEnd(s, i, quote, escapes).Some? ==> QuotedEnd(s, i, quote, escapes).value > i
    decreases |s| - i
  {
    if i < |s| {
      QuotedEndGrows(s, i + 1, quote, escapes);
      if i + 1 < |s| {
        QuotedEndGrows(s, i + 2, quote, escapes);
      }
    }
  }

  /** One token, or nothing, and the index to go on from; None when the text is rejected. */
  datatype Scan = Scan(tokens: seq<Token>, next: nat)

  function ScanAt(s: string, i: nat, escapes: bool): Option<Scan>
    requires i < |s|
  {
    var c := s[i];
    if IsSpace(c) then Some(Scan([], i + 1))
    else if c == '\'' || c == '"' || c == '`' then
      match QuotedEnd(s, i + 1, c, escapes && c != '`')
      case None => None
      case Some(end) => Some(Scan([Atom], end))
    else if c == '#' then Some(Scan([], LineEnd(s, i + 1)))
    else if StartsLineComment(s, i) then Some(Scan([], LineEnd(s, i + 2)))
    else if StartsBlockComment(s, i) then
      if IsExecutableComment(s, i) then None
      else
        match BlockEnd(s, i + 2)
        case None => None
        case Some(end) => Some(Scan([], end))
    else if c == '(' then Some(Scan([OpenParen], i + 1))
    else if c == ')' then Some(Scan([CloseParen], i + 1))
    else if c == ';' then Some(Scan([Semicolon], i + 1))
    else if IsAlphabetic(c) || c == '_' then Some(Scan([Word(Upper(s[i..WordEnd(s, i + 1)]))], WordEnd(s, i + 1)))
    else if IsPunctuation(c) then Some(Scan([Symbol(c)], i + 1))
    else Some(Scan([], i + 1))
  }

  lemma ScanGrows(s: string, i: nat, escapes: bool)
    requires i < |s|
    ensures ScanAt(s, i, escapes).Some? ==> ScanAt(s, i, escapes).value.next > i
  {
    QuotedEndGrows(s, i + 1, s[i], escapes && s[i] != '`');
  }

  function Onto(tokens: seq<Token>, rest: Option<seq<Token>>): Option<seq<Token>>
  {
    match rest
    case None => None
    case Some(more) => Some(tokens + more)
  }

  function Lex(s: string, i: nat, escapes: bool): Option<seq<Token>>
    decreases |s| - i
  {
    if i >= |s| then Some([])
    else
      ScanGrows(s, i, escapes);
      match ScanAt(s, i, escapes)
      case None => None
      case Some(scan) => Onto(scan.tokens, Lex(s, scan.next, escapes))
  }

  lemma OntoOnto(left: seq<Token>, right: seq<Token>, rest: Option<seq<Token>>)
    ensures Onto(left + right, rest) == Onto(left, Onto(right, rest))
  {
    if rest.Some? {
      assert left + right + rest.value == left + (right + rest.value);
    }
  }

  lemma OntoNothing(rest: Option<seq<Token>>)
    ensures Onto([], rest) == rest
  {
    if rest.Some? {
      assert [] + rest.value == rest.value;
    }
  }

  /** One step of the lexer's loop: the token at `i`, read with the loops of the source. */
  method Advance(s: string, i: nat, escapes: bool) returns (scan: Option<Scan>)
    requires i < |s|
    ensures scan == ScanAt(s, i, escapes)
  {
    var c := s[i];
    if IsSpace(c) {
      scan := Some(Scan([], i + 1));
    } else if c == '\'' || c == '"' || c == '`' {
      var end := ConsumeQuoted(s, i, c, escapes && c != '`');
      scan := if end.None? then None else Some(Scan([Atom], end.value));
    } else if c == '#' {
      var end := ConsumeLineComment(s, i + 1);
      scan := Some(Scan([], end));
    } else if StartsLineComment(s, i) {
      var end := ConsumeLineComment(s, i + 2);
      scan := Some(Scan([], end));
    } else if StartsBlockComment(s, i) {
      if IsExecutableComment(s, i) {
        return None;
      }
      var end := ConsumeBlockComment(s, i + 2);
      scan := if end.None? then None else Some(Scan([], end.value));
    } else if c == '(' {
      scan := Some(Scan([OpenParen], i + 1));
    } else if c == ')' {
      scan := Some(Scan([CloseParen], i + 1));
    } else if c == ';' {
      scan := Some(Scan([Semicolon], i + 1));
    } else if IsAlphabetic(c) || c == '_' {
      var index := i + 1;
      while index < |s| && IsWordPart(s[index])
        invariant index <= |s|
        invariant WordEnd(s, i + 1) == WordEnd(s, index)
      {
        index := index + 1;
      }
      scan := Some(Scan([Word(Upper(s[i..index]))], index));
    } else if IsPunctuation(c) {
      scan := Some(Scan([Symbol(c)], i + 1));
    } else {
      scan := Some(Scan([], i + 1));
    }
  }

  method LexMysql(s: string, escapes: bool) returns (r: Option<seq<Token>>)
    ensures r == Lex(s, 0, escapes)
  {
    hide ScanAt;
    var tokens: seq<Token> := [];
    var index := 0;
    OntoNothing(Lex(s, 0, escapes));
    while index < |s|
      invariant Lex(s, 0, escapes) == Onto(tokens, Lex(s, index, escapes))
      decreases |s| - index
    {
      var scan := Advance(s, index, escapes);
      if scan.None? {
        return None;
      }
      ScanGrows(s, index, escapes);
      OntoOnto(tokens, scan.value.tokens, Lex(s, scan.value.next, escapes));
      tokens, index := tokens + scan.value.tokens, scan.value.next;
    }
    assert tokens + [] == tokens;
    r := Some(tokens);
  }

  function LexConsistently(s: string): Option<seq<Token>>
  {
    if Lex(s, 0, true).Some? && Lex(s, 0, true) == Lex(s, 0, false) then Lex(s, 0, true) else None
  }

  // ----- statements and parentheses

  function SingleStatement(tokens: seq<Token>): Option<seq<Token>>
  {
    if Semicolon !in tokens then Some(tokens)
    else if tokens[|tokens| - 1] == Semicolon && Semicolon !in tokens[..|tokens| - 1] then Some(tokens[..|tokens| - 1])
    else None
  }

  /** The parenthesis depth behind the tokens, or None as soon as one closes too much. */
  function Balance(tokens: seq<Token>, depth: nat): Option<nat>
  {
    if tokens == [] then Some(depth)
    else if tokens[0].OpenParen? then Balance(tokens[1..], depth + 1)
    else if tokens[0].CloseParen? then if depth == 0 then None else Balance(tokens[1..], depth - 1)
    else Balance(tokens[1..], depth)
  }

  predicate Balanced(tokens: seq<Token>) { Balance(tokens, 0) == Some(0) }

  method ParenthesesAreBalanced(tokens: seq<Token>) returns (balanced: bool)
    ensures balanced == Balanced(tokens)
  {
    var depth: nat := 0;
    for i := 0 to |tokens|
      invariant Balance(tokens, 0) == Balance(tokens[i..], depth)
    {
      assert tokens[i..][1..] == tokens[i + 1..];
      if tokens[i].OpenParen? {
        depth := depth + 1;
      } else if tokens[i].CloseParen? {
        if depth == 0 {
          return false;
        }
        depth := depth - 1;
      }
    }
    balanced := depth == 0;
  }

  // ----- classification

  predicate IsWord(tokens: seq<Token>, i: nat, text: string)
  {
    i < |tokens| && tokens[i] == Word(text)
  }

  predicate AdjacentWords(tokens: seq<Token>, first: string, second: string)
  {
    exists i :: 0 <= i < |tokens| - 1 && tokens[i] == Word(first) && tokens[i + 1] == Word(second)
  }

  function ClassifySelect(tokens: seq<Token>): Risk
  {
    if AdjacentWords(tokens, "INTO", "OUTFILE") || AdjacentWords(tokens, "INTO", "DUMPFILE") then SchemaChange else Read
  }

  const DML := {"INSERT", "UPDATE", "DELETE", "REPLACE", "MERGE"}

  const ADMIN := {
    "CREATE", "ALTER", "DROP", "TRUNCATE", "RENAME", "GRANT", "REVOKE", "CALL",
    "LOAD", "IMPORT", "HANDLER", "LOCK", "UNLOCK", "SET", "USE", "START", "BEGIN",
    "COMMIT", "ROLLBACK", "SAVEPOINT", "RELEASE", "FLUSH", "RESET", "PURGE",
    "ANALYZE", "OPTIMIZE", "REPAIR", "CHECK", "CHECKSUM", "BACKUP", "RESTORE",
    "KILL", "DO", "EXECUTE", "PREPARE", "DEALLOCATE", "XA"}

  const EXPLAINED_ADMIN := {
    "CREATE", "ALTER", "DROP", "TRUNCATE", "RENAME", "GRANT", "REVOKE", "CALL",
    "LOAD", "IMPORT", "SET", "ANALYZE", "OPTIMIZE", "REPAIR", "CHECK"}

  const EXPLAIN_STYLE := {
    "ANALYZE", "FORMAT", "SELECT", "WITH", "INSERT", "UPDATE", "DELETE", "REPLACE", "MERGE", "FOR"}

  /** The first top-level verb from index `i` on decides a WITH statement. */
  function WithVerb(tokens: seq<Token>, i: nat, depth: nat): Risk
    requires i <= |tokens| && Balance(tokens[i..], depth).Some?
    decreases |tokens| - i
  {
    if i == |tokens| then Unknown
    else
      assert tokens[i..][0] == tokens[i] && tokens[i..][1..] == tokens[i + 1..];
      match tokens[i]
      case OpenParen => WithVerb(tokens, i + 1, depth + 1)
      case CloseParen => WithVerb(tokens, i + 1, depth - 1)
      case Word(word) =>
        if depth == 0 && word == "SELECT" then ClassifySelect(tokens[i..])
        else if depth == 0 && word in DML then WriteData
        else WithVerb(tokens, i + 1, depth)
      case _ => WithVerb(tokens, i + 1, depth)
  }

  function ClassifyWith(tokens: seq<Token>): Risk
    requires tokens != [] && tokens[0].Word? && Balance(tokens, 0).Some?
  {
    WithVerb(tokens, 1, 0)
  }

  /** The unsigned depth counter of the source: `depth` is a nat, so no step may underflow it. */
  method ComputeClassifyWith(tokens: seq<Token>) returns (risk: Risk)
    requires tokens != [] && tokens[0].Word? && Balance(tokens, 0).Some?
    ensures risk == ClassifyWith(tokens)
  {
    var depth: nat := 0;
    for index := 1 to |tokens|
      invariant Balance(tokens[index..], depth).Some?
      invariant WithVerb(tokens, 1, 0) == WithVerb(tokens, index, depth)
    {
      assert tokens[index..][0] == tokens[index] && tokens[index..][1..] == tokens[index + 1..];
      match tokens[index] {
        case OpenParen => depth := depth + 1;
        case CloseParen => depth := depth - 1;
        case Word(word) =>
          if depth == 0 {
            if word == "SELECT" {
              return ClassifySelect(tokens[index..]);
            }
            if word in DML {
              return WriteData;
            }
          }
        case _ =>
      }
    }
    risk := Unknown;
  }

  /** The index behind EXPLAIN's ANALYZE and FORMAT options. */
  function OptionsEnd(body: seq<Token>, i: nat): (end: nat)
    requires i <= |body|
    ensures i <= end <= |body|
    decreases |body| - i
  {
    if IsWord(body, i, "ANALYZE") then OptionsEnd(body, i + 1)
    else if IsWord(body, i, "FORMAT") then OptionsEnd(body, FormatEnd(body, i + 1))
    else i
  }

  function FormatEnd(body: seq<Token>, i: nat): (end: nat)
    requires i <= |body|
    ensures i <= end <= |body|
  {
    var j := if i < |body| && body[i] == Symbol('=') then i + 1 else i;
    if j < |body| && (body[j].Word? || body[j].Atom?) then j + 1 else j
  }

  method SkipOptions(body: seq<Token>) returns (index: nat)
    ensures index == OptionsEnd(body, 0)
  {
    index := 0;
    while true
      invariant index <= |body| && OptionsEnd(body, 0) == OptionsEnd(body, index)
      decreases |body| - index
    {
      if IsWord(body, index, "ANALYZE") {
        index := index + 1;
      } else if IsWord(body, index, "FORMAT") {
        index := index + 1;
        if index < |body| && body[index] == Symbol('=') {
          index := index + 1;
        }
        if index < |body| && (body[index].Word? || body[index].Atom?) {
          index := index + 1;
        }
      } else {
        break;
      }
    }
  }

  lemma {:induction false} PlainTokensKeepBalance(tokens: seq<Token>, first: nat, end: nat, depth: nat)
    requires first <= end <= |tokens|
    requires forall i :: first <= i < end ==> !tokens[i].OpenParen? && !tokens[i].CloseParen?
    ensures Balance(tokens[first..], depth) == Balance(tokens[end..], depth)
    decreases end - first
  {
    if first < end {
      assert tokens[first..][1..] == tokens[first + 1..];
      PlainTokensKeepBalance(tokens, first + 1, end, depth);
    }
  }

  lemma {:induction false} OptionsArePlain(body: seq<Token>, i: nat)
    requires i <= |body|
    ensures forall k :: i <= k < OptionsEnd(body, i) ==> !body[k].OpenParen? && !body[k].CloseParen?
    decreases |body| - i
  {
    if IsWord(body, i, "ANALYZE") {
      OptionsArePlain(body, i + 1);
    } else if IsWord(body, i, "FORMAT") {
      OptionsArePlain(body, FormatEnd(body, i + 1));
    }
  }

  /** What EXPLAIN's options leave over is as balanced as the whole body. */
  lemma OptionsKeepBalance(body: seq<Token>)
    ensures Balance(body[OptionsEnd(body, 0)..], 0) == Balance(body, 0)
  {
    OptionsArePlain(body, 0);
    PlainTokensKeepBalance(body, 0, OptionsEnd(body, 0), 0);
    assert body[0..] == body;
  }

  function ClassifyExplainBody(body: seq<Token>): Risk
    requires Balance(body, 0).Some?
  {
    OptionsKeepBalance(body);
    var remaining := body[OptionsEnd(body, 0)..];
    if remaining == [] || !remaining[0].Word? then Unknown
    else
      var first := remaining[0].text;
      if first == "SELECT" then ClassifySelect(remaining)
      else if first in {"SHOW", "DESCRIBE", "DESC", "TABLE"} then Read
      else if first == "WITH" then ClassifyWith(remaining)
      else if first in DML then WriteData
      else if first == "FOR" && IsWord(remaining, 1, "CONNECTION") then Read
      else if first in EXPLAINED_ADMIN then SchemaChange
      else Unknown
  }

  function ClassifyDescribe(body: seq<Token>): Risk
    requires Balance(body, 0).Some?
  {
    if body != [] && body[0].Word? && body[0].text in EXPLAIN_STYLE then ClassifyExplainBody(body)
    else if body == [] then Unknown
    else Read
  }

  function ClassifyStatement(tokens: seq<Token>): Risk
    requires Balance(tokens, 0).Some?
  {
    if tokens == [] || !tokens[0].Word? then Unknown
    else
      var first := tokens[0].text;
      if first == "SELECT" then ClassifySelect(tokens)
      else if first == "SHOW" then Read
      else if first == "DESCRIBE" || first == "DESC" then ClassifyDescribe(tokens[1..])
      else if first == "EXPLAIN" then ClassifyExplainBody(tokens[1..])
      else if first == "WITH" then ClassifyWith(tokens)
      else if first in DML then WriteData
      else if first in ADMIN then SchemaChange
      else Unknown
  }

  function ClassifySql(sql: string): Risk
  {
    match LexConsistently(sql)
    case None => Unknown
    case Some(tokens) =>
      match SingleStatement(tokens)
      case None => Unknown
      case Some(statement) =>
        if statement == [] || !Balanced(statement) then Unknown else ClassifyStatement(statement)
  }

  // ----- dangerous keywords and the gate

  const COMMANDS_A_TO_E := {
    "ALTER", "ANALYZE", "BACKUP", "BEGIN", "BINLOG", "CACHE", "CALL", "CHANGE", "CHECK", "CHECKSUM", "CLONE",
    "COMMIT", "CREATE", "DEALLOCATE", "DECLARE", "DELETE", "DO", "DROP", "EXEC", "EXECUTE"}

  const COMMANDS_F_TO_P := {
    "FLUSH", "GRANT", "HANDLER", "IMPORT", "INSERT", "INSTALL", "KILL", "LOAD", "LOCK", "MERGE", "OPTIMIZE",
    "PREPARE", "PURGE"}

  const COMMANDS_R_TO_X := {
    "RELEASE", "RENAME", "REPAIR", "REPLACE", "RESET", "RESTART", "RESTORE", "RESIGNAL", "REVOKE", "ROLLBACK",
    "SAVEPOINT", "SET", "SHUTDOWN", "SIGNAL", "START", "STOP", "TRUNCATE", "UNINSTALL", "UNLOCK", "UPDATE",
    "UPSERT", "USE", "XA"}

  const CLAUSES_AND_FUNCTIONS := {
    "OUTFILE", "DUMPFILE", "INFILE", "LOAD_FILE", "GET_LOCK", "RELEASE_LOCK", "RELEASE_ALL_LOCKS",
    "SLEEP", "BENCHMARK", "MASTER_POS_WAIT", "SOURCE_POS_WAIT", "WAIT_FOR_EXECUTED_GTID_SET"}

  predicate IsListed(word: string)
  {
    word in COMMANDS_A_TO_E || word in COMMANDS_F_TO_P || word in COMMANDS_R_TO_X || word in CLAUSES_AND_FUNCTIONS
  }

  /** The pieces of a word between `$` characters: the regular expression's word boundaries lie there. */
  function Pieces(word: string): (pieces: seq<string>)
    ensures pieces != []
  {
    if word == [] then [[]]
    else
      var rest := Pieces(word[1..]);
      if word[0] == '$' then [[]] + rest else [[word[0]] + rest[0]] + rest[1..]
  }

  function WordTexts(tokens: seq<Token>): seq<string>
  {
    if tokens == [] then []
    else (if tokens[0].Word? then [tokens[0].text] else []) + WordTexts(tokens[1..])
  }

  predicate HasListedPiece(word: string)
  {
    exists k :: 0 <= k < |Pieces(word)| && IsListed(Pieces(word)[k])
  }

  predicate ForShare(words: seq<string>)
  {
    exists i :: 0 <= i < |words| - 1 &&
      Pieces(words[i])[|Pieces(words[i])| - 1] == "FOR" && Pieces(words[i + 1])[0] == "SHARE"
  }

  predicate ContainsDangerousKeyword(sql: string)
  {
    match LexConsistently(sql)
    case None => true
    case Some(tokens) =>
      var words := WordTexts(tokens);
      (exists i :: 0 <= i < |words| && HasListedPiece(words[i])) || ForShare(words)
  }

  function McpMayExecute(sql: string): Result<(), Risk>
  {
    var risk := ClassifySql(sql);
    if ContainsDangerousKeyword(sql) then Failure(if risk.Read? then Unknown else risk)
    else if !risk.Read? then Failure(risk)
    else Success(())
  }

  // ----- what an accepted text looks like

  const READ_VERBS := {"SELECT", "SHOW", "DESCRIBE", "DESC", "EXPLAIN", "WITH"}

  lemma {:induction false} WordTextsContain(tokens: seq<Token>, i: nat)
    requires i < |tokens| && tokens[i].Word?
    ensures tokens[i].text in WordTexts(tokens)
  {
    if i > 0 {
      WordTextsContain(tokens[1..], i - 1);
    }
  }

  lemma {:induction false} PlainWordIsItsOnlyPiece(word: string)
    requires '$' !in word
    ensures Pieces(word) == [word]
  {
    if word != [] {
      PlainWordIsItsOnlyPiece(word[1..]);
      assert [word[0]] + word[1..] == word;
    }
  }

  predicate NoDollar(word: string) { forall i :: 0 <= i < |word| ==> word[i] != '$' }

  lemma FirstCommandsHaveNoDollar(word: string)
    requires word in COMMANDS_A_TO_E
    ensures NoDollar(word)
  {
  }

  lemma MiddleCommandsHaveNoDollar(word: string)
    requires word in COMMANDS_F_TO_P
    ensures NoDollar(word)
  {
  }

  lemma LastCommandsHaveNoDollar(word: string)
    requires word in COMMANDS_R_TO_X
    ensures NoDollar(word)
  {
  }

  lemma OtherKeywordsHaveNoDollar(word: string)
    requires word in CLAUSES_AND_FUNCTIONS
    ensures NoDollar(word)
  {
  }

  lemma ListedWordsHaveNoDollar(word: string)
    requires IsListed(word)
    ensures NoDollar(word)
  {
    hide NoDollar;
    if word in COMMANDS_A_TO_E {
      FirstCommandsHaveNoDollar(word);
    } else if word in COMMANDS_F_TO_P {
      MiddleCommandsHaveNoDollar(word);
    } else if word in COMMANDS_R_TO_X {
      LastCommandsHaveNoDollar(word);
    } else {
      OtherKeywordsHaveNoDollar(word);
    }
  }

  /** A listed keyword is found as a whole word. */
  lemma ListedWordIsFound(tokens: seq<Token>, i: nat)
    requires i < |tokens| && tokens[i].Word? && IsListed(tokens[i].text)
    ensures exists k :: 0 <= k < |WordTexts(tokens)| && HasListedPiece(WordTexts(tokens)[k])
  {
    hide NoDollar, Pieces, IsListed, WordTexts;
    var word := tokens[i].text;
    ListedWordsHaveNoDollar(word);
    NoDollarMeansNone(word);
    PlainWordIsItsOnlyPiece(word);
    assert Pieces(word)[0] == word;
    WordTextsContain(tokens, i);
    var k :| 0 <= k < |WordTexts(tokens)| && WordTexts(tokens)[k] == word;
    assert HasListedPiece(WordTexts(tokens)[k]);
  }

  lemma NoDollarMeansNone(word: string)
    requires NoDollar(word)
    ensures '$' !in word
  {
  }

  /** Everything the gate lets through is one balanced reading statement without a listed keyword. */
  lemma GateIsSound(sql: string)
    requires McpMayExecute(sql).Success?
    ensures Lex(sql, 0, true).Some? && Lex(sql, 0, true) == Lex(sql, 0, false)
    ensures var tokens := Lex(sql, 0, true).value;
            && SingleStatement(tokens).Some?
            && (var statement := SingleStatement(tokens).value;
                && statement != [] && Balanced(statement) && Semicolon !in statement
                && statement[0].Word? && statement[0].text in READ_VERBS
                && (tokens == statement || tokens == statement + [Semicolon]))
            && (forall i :: 0 <= i < |tokens| && tokens[i].Word? ==> !IsListed(tokens[i].text))
  {
    hide Lex, Balance, HasListedPiece, IsListed, WordTexts, ForShare;
    hide ClassifySelect, ClassifyWith, ClassifyExplainBody, ClassifyDescribe;
    var tokens := Lex(sql, 0, true).value;
    var statement := SingleStatement(tokens).value;
    if Semicolon in tokens {
      assert tokens == tokens[..|tokens| - 1] + [Semicolon];
    }
    forall i | 0 <= i < |tokens| && tokens[i].Word? ensures !IsListed(tokens[i].text) {
      if IsListed(tokens[i].text) {
        ListedWordIsFound(tokens, i);
      }
    }
  }

  // ----- written literals and identifiers as tokens

  /** Where a token read from `i` ends. */
  function EndOf(i: nat, quoted: Option<MysqlText.Quoted>): Option<nat>
  {
    match quoted
    case None => None
    case Some(q) => Some(i + q.length)
  }

  /** The lexer ends a quoted token where the reference reader does. */
  lemma {:induction false} QuotedEndIsReadBody(s: string, i: nat, quote: char, escapes: bool)
    requires i <= |s|
    ensures QuotedEnd(s, i, quote, escapes) == EndOf(i, MysqlText.ReadBody(s[i..], quote, escapes))
    decreases |s| - i
  {
    var tail := s[i..];
    if i == |s| {
    } else if (escapes && s[i] == '\\') || s[i] == quote {
      if i + 1 < |s| {
        assert tail[2..] == s[i + 2..];
        QuotedEndIsReadBody(s, i + 2, quote, escapes);
      }
    } else {
      assert tail[1..] == s[i + 1..];
      QuotedEndIsReadBody(s, i + 1, quote, escapes);
    }
  }

  /** In both modes a quoted token is one Atom, ending where the reference reader ends it. */
  lemma QuotedTokenLexes(before: string, quoted: string, rest: string, escapes: bool)
    requires quoted != [] && (quoted[0] == '\'' || quoted[0] == '`')
    requires MysqlText.ReadQuoted(quoted + rest, escapes && quoted[0] != '`').Some?
    requires MysqlText.ReadQuoted(quoted + rest, escapes && quoted[0] != '`').value.length == |quoted|
    ensures Lex(before + quoted + rest, |before|, escapes) ==
            Onto([Atom], Lex(before + quoted + rest, |before| + |quoted|, escapes))
  {
    hide QuotedEnd, MysqlText.ReadBody;
    var s := before + quoted + rest;
    assert s[|before| + 1..] == (quoted + rest)[1..];
    QuotedEndIsReadBody(s, |before| + 1, quoted[0], escapes && quoted[0] != '`');
    assert ScanAt(s, |before|, escapes) == Some(Scan([Atom], |before| + |quoted|));
  }

  lemma LiteralIsOneAtom(before: string, value: string, rest: string, escapes: bool)
    requires rest == [] || rest[0] != '\''
    ensures var literal := MysqlText.MysqlStringLiteral(value);
            Lex(before + literal + rest, |before|, escapes) ==
            Onto([Atom], Lex(before + literal + rest, |before| + |literal|, escapes))
  {
    hide Lex, MysqlText.ReadQuoted;
    MysqlText.LiteralRoundTrip(value, rest);
    QuotedTokenLexes(before, MysqlText.MysqlStringLiteral(value), rest, escapes);
  }

  lemma IdentifierIsOneAtom(before: string, name: string, rest: string, escapes: bool)
    requires rest == [] || rest[0] != '`'
    ensures var quoted := MysqlText.QuoteIdentifier(name);
            Lex(before + quoted + rest, |before|, escapes) ==
            Onto([Atom], Lex(before + quoted + rest, |before| + |quoted|, escapes))
  {
    hide Lex, MysqlText.ReadQuoted;
    MysqlText.IdentifierRoundTrip(name, rest);
    QuotedTokenLexes(before, MysqlText.QuoteIdentifier(name), rest, escapes);
  }

  lemma {:induction false} WordEndsAt(s: string, i: nat, end: nat)
    requires i <= end <= |s| && (end < |s| ==> !IsWordPart(s[end]))
    requires forall k :: i <= k < end ==> IsWordPart(s[k])
    ensures WordEnd(s, i) == end
    decreases end - i
  {
    if i < end {
      WordEndsAt(s, i + 1, end);
    }
  }

  const DESCRIBE := "DESCRIBE "

  lemma LexStep(s: string, i: nat, escapes: bool, scan: Scan)
    requires i < |s| && ScanAt(s, i, escapes) == Some(scan)
    ensures Lex(s, i, escapes) == Onto(scan.tokens, Lex(s, scan.next, escapes))
  {
  }

  lemma DescribeWordScans(rest: string, escapes: bool)
    ensures ScanAt(DESCRIBE + rest, 0, escapes) == Some(Scan([Word("DESCRIBE")], 8))
    ensures ScanAt(DESCRIBE + rest, 8, escapes) == Some(Scan([], 9))
  {
    var sql := DESCRIBE + rest;
    WordEndsAt(sql, 1, 8);
    assert sql[0..8] == "DESCRIBE";
    assert Upper("DESCRIBE") == "DESCRIBE";
  }

  lemma DescribeLexes(name: string, escapes: bool)
    ensures Lex(DESCRIBE + MysqlText.QuoteIdentifier(name), 0, escapes) == Some([Word("DESCRIBE"), Atom])
  {
    hide Lex, ScanAt, MysqlText.QuoteIdentifier;
    var quoted := MysqlText.QuoteIdentifier(name);
    var sql := DESCRIBE + quoted;
    DescribeWordScans(quoted, escapes);
    LexStep(sql, 0, escapes, Scan([Word("DESCRIBE")], 8));
    LexStep(sql, 8, escapes, Scan([], 9));
    IdentifierIsOneAtom(DESCRIBE, name, [], escapes);
    assert DESCRIBE + quoted + [] == sql;
    LexEnds(sql, escapes);
    assert [Atom] + [] == [Atom] && [] + [Atom] == [Atom] && [Word("DESCRIBE")] + [Atom] == [Word("DESCRIBE"), Atom];
  }

  lemma LexEnds(s: string, escapes: bool)
    ensures Lex(s, |s|, escapes) == Some([])
  {
  }

  lemma DescribeIsRead()
    ensures SingleStatement([Word("DESCRIBE"), Atom]) == Some([Word("DESCRIBE"), Atom])
    ensures Balanced([Word("DESCRIBE"), Atom]) && ClassifyStatement([Word("DESCRIBE"), Atom]) == Read
  {
    var tokens := [Word("DESCRIBE"), Atom];
    assert tokens[1..] == [Atom] && [Atom][1..] == [];
    assert Balance([], 0) == Some(0) && Balance([Atom], 0) == Some(0);
  }

  lemma DescribeIsTheOnlyWord()
    ensures WordTexts([Word("DESCRIBE"), Atom]) == ["DESCRIBE"]
  {
    var tokens := [Word("DESCRIBE"), Atom];
    assert tokens[1..] == [Atom] && [Atom][1..] == [];
    assert WordTexts([]) == [] && WordTexts([Atom]) == [];
  }

  lemma DescribeIsNotListed()
    ensures !IsListed("DESCRIBE")
  {
  }

  lemma DescribeHasNoListedPiece()
    ensures !HasListedPiece("DESCRIBE")
  {
    hide Pieces, IsListed;
    DescribeIsNotListed();
    assert NoDollar("DESCRIBE");
    NoDollarMeansNone("DESCRIBE");
    PlainWordIsItsOnlyPiece("DESCRIBE");
  }

  /** Describing a table by its quoted name always passes the gate, whatever the name contains. */
  lemma DescribeAlwaysPasses(name: string)
    ensures ClassifySql(DESCRIBE + MysqlText.QuoteIdentifier(name)) == Read
    ensures McpMayExecute(DESCRIBE + MysqlText.QuoteIdentifier(name)) == Success(())
  {
    hide Lex, Balanced, SingleStatement, ClassifyStatement, WordTexts, HasListedPiece, MysqlText.QuoteIdentifier;
    DescribeLexes(name, true);
    DescribeLexes(name, false);
    DescribeIsRead();
    DescribeIsTheOnlyWord();
    DescribeHasNoListedPiece();
  }
}
