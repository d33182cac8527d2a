/**
 What the lexer of the SQL policy reads: a text is accepted exactly when it falls into lexical elements,
 and its tokens are then those of the elements. Executable comments are no element.
 */
module SqlTokens {
  import opened Wrappers
  import opened SqlPolicy
  import MysqlText

  datatype Element =
    | Gap(c: char)
    | Text(quote: char, body: string)
    | Remark(mark: string, text: string)
    | BlockRemark(text: string)
    | Name(text: string)
    | Sign(c: char)

  function Spelled(e: Element): string
  {
    match e
    case Gap(c) => [c]
    case Text(quote, body) => [quote] + body
    case Remark(mark, text) => mark + text
    case BlockRemark(text) => "/*" + text + "*/"
    case Name(text) => text
    case Sign(c) => [c]
  }

  predicate IsLetter(c: char) { 'a' <= c <= 'z' || 'A' <= c <= 'Z' }

  predicate IsNumber(c: char) { '0' <= c <= '9' }

  /** A space, or one of the characters that do not print. */
  predicate IsBlank(c: char) { c as int <= 32 || c as int == 127 }

  predicate IsPrinted(c: char) { '!' <= c <= '~' }

  predicate GoesOn(c: char) { IsLetter(c) || IsNumber(c) || c == '_' || c == '$' }

  /** No block comment ends before the end of the text. */
  predicate IsOpenText(text: string)
  {
    forall i :: 0 <= i < |text| ==> !(text[i] == '*' && (text + "*/")[i + 1] == '/')
  }

  /** MySQL and MariaDB run what is in comments that begin like this. */
  predicate IsExecutable(text: string)
  {
    (text != [] && text[0] == '!') || (|text| > 1 && (text[0] == 'M' || text[0] == 'm') && text[1] == '!')
  }

  /** The element stands in front of the rest. */
  predicate Stands(e: Element, rest: string, escapes: bool)
  {
    match e
    case Gap(c) => !IsPrinted(c) || IsNumber(c)
    case Text(quote, body) =>
      && (quote == '\'' || quote == '"' || quote == '`')
      && (var read := MysqlText.ReadBody(body + rest, quote, escapes && quote != '`');
          read.Some? && read.value.length == |body|)
    case Remark(mark, text) =>
      && '\n' !in text && (rest != [] ==> rest[0] == '\n')
      && (mark == "#" || (mark == "--" && text + rest != [] && IsBlank((text + rest)[0])))
    case BlockRemark(text) => IsOpenText(text) && !IsExecutable(text)
    case Name(text) =>
      && text != [] && (IsLetter(text[0]) || text[0] == '_') && (forall i :: 0 <= i < |text| ==> GoesOn(text[i]))
      && (rest != [] ==> !GoesOn(rest[0]))
    case Sign(c) =>
      && IsPrinted(c) && !IsLetter(c) && !IsNumber(c) && c != '_' && c != '\'' && c != '"' && c != '`' && c != '#'
      && (c == '-' && |rest| > 1 && rest[0] == '-' ==> !IsBlank(rest[1]))
      && (c == '/' && rest != [] ==> rest[0] != '*')
  }

  predicate AreCapitals(text: string, capitals: string)
  {
    && |capitals| == |text|
    && forall i :: 0 <= i < |text| ==>
         if 'a' <= text[i] <= 'z' then capitals[i] as int == text[i] as int - 32 else capitals[i] == text[i]
  }

  /** The tokens of an element. */
  ghost predicate Yields(e: Element, tokens: seq<Token>)
  {
    match e
    case Text(_, _) => tokens == [Atom]
    case Name(text) => exists capitals :: AreCapitals(text, capitals) && tokens == [Word(capitals)]
    case Sign(c) =>
      tokens == [if c == '(' then OpenParen else if c == ')' then CloseParen else if c == ';' then Semicolon else Symbol(c)]
    case _ => tokens == []
  }

  // ----- scanning one element

  lemma SpelledIsThere(before: string, e: Element, rest: string)
    ensures var s := before + Spelled(e) + rest;
            s[|before|..] == Spelled(e) + rest && |s| == |before| + |Spelled(e)| + |rest|
            && s[|before| + |Spelled(e)|..] == rest
            && (forall k :: 0 <= k < |Spelled(e)| ==> s[|before| + k] == Spelled(e)[k])
            && (forall k :: 0 <= k < |rest| ==> s[|before| + |Spelled(e)| + k] == rest[k])
  {
    hide Spelled;
  }

  lemma {:induction false} LineEndsAt(s: string, i: nat, end: nat)
    requires i <= end <= |s| && (end < |s| ==> s[end] == '\n')
    requires forall k :: i <= k < end ==> s[k] != '\n'
    ensures LineEnd(s, i) == end
    decreases end - i
  {
    if i < end {
      LineEndsAt(s, i + 1, end);
    }
  }

  lemma {:induction false} BlockEndsAt(s: string, i: nat, end: nat)
    requires i <= end && end + 1 < |s| && s[end] == '*' && s[end + 1] == '/'
    requires forall k :: i <= k < end ==> !(s[k] == '*' && s[k + 1] == '/')
    ensures BlockEnd(s, i) == Some(end + 2)
    decreases end - i
  {
    if i < end {
      BlockEndsAt(s, i + 1, end);
    }
  }

  lemma GapScans(before: string, e: Element, rest: string, escapes: bool)
    requires e.Gap? && Stands(e, rest, escapes)
    ensures ScanAt(before + Spelled(e) + rest, |before|, escapes) == Some(Scan([], |before| + |Spelled(e)|))
  {
    hide QuotedEnd, LineEnd, BlockEnd, WordEnd;
    SpelledIsThere(before, e, rest);
  }

  lemma TextScans(before: string, e: Element, rest: string, escapes: bool)
    requires e.Text? && Stands(e, rest, escapes)
    ensures ScanAt(before + Spelled(e) + rest, |before|, escapes) == Some(Scan([Atom], |before| + |Spelled(e)|))
  {
    hide QuotedEnd, LineEnd, BlockEnd, WordEnd, MysqlText.ReadBody;
    var s, quote := before + Spelled(e) + rest, e.quote;
    TextIsThere(before, quote, e.body, rest);
    QuotedEndIsReadBody(s, |before| + 1, quote, escapes && quote != '`');
  }

  lemma TextIsThere(before: string, quote: char, body: string, rest: string)
    ensures var s := before + ([quote] + body) + rest;
            |s| == |before| + 1 + |body| + |rest| && s[|before|] == quote && s[|before| + 1..] == body + rest
  {
  }

  lemma LineEndBehind(s: string, i: nat, text: string, rest: string)
    requires i <= |s| && s[i..] == text + rest && '\n' !in text && (rest != [] ==> rest[0] == '\n')
    ensures LineEnd(s, i) == i + |text|
  {
    hide LineEnd;
    assert forall k :: i <= k < i + |text| ==> s[k] == s[i..][k - i] == text[k - i];
    if rest != [] {
      assert s[i + |text|] == s[i..][|text|] == rest[0];
    }
    LineEndsAt(s, i, i + |text|);
  }

  lemma MarkIsThere(before: string, mark: string, text: string, rest: string)
    requires mark == "#" || mark == "--"
    ensures var s, n := before + (mark + text) + rest, |before| + |mark|;
            && |s| == n + |text| + |rest| && s[n..] == text + rest
            && s[|before|] == mark[0] && (mark == "--" ==> s[|before| + 1] == '-')
  {
  }

  lemma RemarkScans(before: string, e: Element, rest: string, escapes: bool)
    requires e.Remark? && Stands(e, rest, escapes)
    ensures ScanAt(before + Spelled(e) + rest, |before|, escapes) == Some(Scan([], |before| + |Spelled(e)|))
  {
    hide QuotedEnd, LineEnd, BlockEnd, WordEnd;
    MarkIsThere(before, e.mark, e.text, rest);
    var s, n := before + (e.mark + e.text) + rest, |before| + |e.mark|;
    LineEndBehind(s, n, e.text, rest);
    if e.mark == "--" {
      assert s[n] == s[n..][0];
    }
  }

  lemma BlockScans(before: string, e: Element, rest: string, escapes: bool)
    requires e.BlockRemark? && Stands(e, rest, escapes)
    ensures ScanAt(before + Spelled(e) + rest, |before|, escapes) == Some(Scan([], |before| + |Spelled(e)|))
  {
    hide QuotedEnd, LineEnd, BlockEnd, WordEnd;
    SpelledIsThere(before, e, rest);
    var s, start, text := before + Spelled(e) + rest, |before| + 2, e.text;
    assert Spelled(e) == "/*" + (text + "*/");
    assert forall k :: start <= k < start + |text| + 2 ==> s[k] == (text + "*/")[k - start];
    BlockEndsAt(s, start, start + |text|);
  }

  lemma NameIsThere(before: string, text: string, rest: string)
    ensures var s, end := before + text + rest, |before| + |text|;
            && |s| == end + |rest| && s[|before|..end] == text && (rest != [] ==> s[end] == rest[0])
            && (forall k :: |before| <= k < end ==> s[k] == text[k - |before|])
  {
  }

  lemma NameEnds(before: string, text: string, rest: string)
    requires text != [] && (forall i :: 0 <= i < |text| ==> GoesOn(text[i])) && (rest != [] ==> !GoesOn(rest[0]))
    ensures WordEnd(before + text + rest, |before| + 1) == |before| + |text|
  {
    NameIsThere(before, text, rest);
    var s := before + text + rest;
    forall k | |before| <= k < |before| + |text| ensures IsWordPart(s[k]) {
      assert GoesOn(text[k - |before|]);
    }
    hide GoesOn, IsWordPart;
    GoingOnIsWordPart(rest);
    WordEndsAt(s, |before| + 1, |before| + |text|);
  }

  lemma GoingOnIsWordPart(rest: string)
    ensures rest != [] ==> (GoesOn(rest[0]) <==> IsWordPart(rest[0]))
  {
  }

  lemma NameScans(before: string, e: Element, rest: string, escapes: bool)
    requires e.Name? && Stands(e, rest, escapes)
    ensures ScanAt(before + Spelled(e) + rest, |before|, escapes) ==
            Some(Scan([Word(Upper(e.text))], |before| + |Spelled(e)|))
  {
    hide QuotedEnd, LineEnd, BlockEnd, WordEnd, Upper;
    NameIsThere(before, e.text, rest);
    NameEnds(before, e.text, rest);
  }

  lemma SignScans(before: string, e: Element, rest: string, escapes: bool)
    requires e.Sign? && Stands(e, rest, escapes)
    ensures var tokens := [if e.c == '(' then OpenParen else if e.c == ')' then CloseParen
                           else if e.c == ';' then Semicolon else Symbol(e.c)];
            ScanAt(before + Spelled(e) + rest, |before|, escapes) == Some(Scan(tokens, |before| + |Spelled(e)|))
  {
    hide QuotedEnd, LineEnd, BlockEnd, WordEnd;
    SpelledIsThere(before, e, rest);
  }

  lemma UpperIsCapitals(text: string)
    ensures AreCapitals(text, Upper(text))
    ensures forall capitals :: AreCapitals(text, capitals) ==> capitals == Upper(text)
  {
    forall capitals | AreCapitals(text, capitals) ensures capitals == Upper(text) {
      assert forall i :: 0 <= i < |text| ==> capitals[i] == Upper(text)[i];
    }
  }

  /** An element is scanned as such, and as its tokens. */
  lemma ElementScans(before: string, e: Element, rest: string, escapes: bool) returns (tokens: seq<Token>)
    requires Stands(e, rest, escapes)
    ensures Yields(e, tokens)
    ensures ScanAt(before + Spelled(e) + rest, |before|, escapes) == Some(Scan(tokens, |before| + |Spelled(e)|))
    ensures 0 < |Spelled(e)|
  {
    match e {
      case Gap(_) =>
        GapScans(before, e, rest, escapes);
        tokens := [];
      case Text(_, _) =>
        TextScans(before, e, rest, escapes);
        tokens := [Atom];
      case Remark(_, _) =>
        RemarkScans(before, e, rest, escapes);
        tokens := [];
      case BlockRemark(_) =>
        BlockScans(before, e, rest, escapes);
        tokens := [];
      case Name(text) =>
        NameScans(before, e, rest, escapes);
        UpperIsCapitals(text);
        tokens := [Word(Upper(text))];
      case Sign(c) =>
        SignScans(before, e, rest, escapes);
        tokens := [if c == '(' then OpenParen else if c == ')' then CloseParen else if c == ';' then Semicolon else Symbol(c)];
    }
  }

  // ----- the element that was scanned

  lemma {:induction false} LineEndIs(s: string, i: nat)
    requires i <= |s|
    ensures i <= LineEnd(s, i) <= |s| && (LineEnd(s, i) < |s| ==> s[LineEnd(s, i)] == '\n')
    ensures forall k :: i <= k < LineEnd(s, i) ==> s[k] != '\n'
    decreases |s| - i
  {
    if i < |s| && s[i] != '\n' {
      LineEndIs(s, i + 1);
    }
  }

  lemma {:induction false} BlockEndIs(s: string, i: nat)
    requires BlockEnd(s, i).Some?
    ensures var end := BlockEnd(s, i).value;
            && i + 2 <= end <= |s| && s[end - 2] == '*' && s[end - 1] == '/'
            && forall k :: i <= k < end - 2 ==> !(s[k] == '*' && s[k + 1] == '/')
    decreases |s| - i
  {
    if !(s[i] == '*' && s[i + 1] == '/') {
      BlockEndIs(s, i + 1);
    }
  }

  lemma {:induction false} WordEndIs(s: string, i: nat)
    requires i <= |s|
    ensures i <= WordEnd(s, i) <= |s| && (WordEnd(s, i) < |s| ==> !IsWordPart(s[WordEnd(s, i)]))
    ensures forall k :: i <= k < WordEnd(s, i) ==> IsWordPart(s[k])
    decreases |s| - i
  {
    if i < |s| && IsWordPart(s[i]) {
      WordEndIs(s, i + 1);
    }
  }

  /** What was scanned from `i` on is the element. */
  ghost predicate Found(s: string, i: nat, next: nat, e: Element, escapes: bool)
  {
    i < next <= |s| && Spelled(e) == s[i..next] && Stands(e, s[next..], escapes)
  }

  lemma TextIsFound(s: string, i: nat, next: nat, escapes: bool) returns (e: Element)
    requires i < |s| && (s[i] == '\'' || s[i] == '"' || s[i] == '`')
    requires QuotedEnd(s, i + 1, s[i], escapes && s[i] != '`') == Some(next)
    ensures e.Text? && Found(s, i, next, e, escapes)
  {
    hide QuotedEnd, MysqlText.ReadBody;
    var quote := s[i];
    QuotedEndIsReadBody(s, i + 1, quote, escapes && quote != '`');
    ReadBodyFits(s[i + 1..], quote, escapes && quote != '`');
    e := Text(quote, s[i + 1..next]);
    assert s[i + 1..] == e.body + s[next..] && [quote] + e.body == s[i..next];
  }

  lemma {:induction false} ReadBodyFits(s: string, quote: char, escapes: bool)
    ensures MysqlText.ReadBody(s, quote, escapes).Some? ==> 0 < MysqlText.ReadBody(s, quote, escapes).value.length <= |s|
    decreases |s|
  {
    if s != [] {
      ReadBodyFits(s[1..], quote, escapes);
      if |s| > 1 {
        ReadBodyFits(s[2..], quote, escapes);
      }
    }
  }

  lemma RemarkIsFound(s: string, i: nat, mark: string, escapes: bool) returns (e: Element)
    requires i + |mark| <= |s| && s[i..i + |mark|] == mark
    requires mark == "#" || (mark == "--" && StartsLineComment(s, i))
    ensures e.Remark? && Found(s, i, LineEnd(s, i + |mark|), e, escapes)
  {
    hide LineEnd, Stands;
    var start := i + |mark|;
    LineEndIs(s, start);
    var next := LineEnd(s, start);
    e := Remark(mark, s[start..next]);
    assert mark + e.text == s[i..next];
    RemarkStands(s, start, next, mark, escapes);
  }

  lemma RemarkStands(s: string, start: nat, next: nat, mark: string, escapes: bool)
    requires start <= next <= |s| && (next < |s| ==> s[next] == '\n')
    requires forall k :: start <= k < next ==> s[k] != '\n'
    requires mark == "#" || (mark == "--" && start < |s| && IsBlank(s[start]))
    ensures Stands(Remark(mark, s[start..next]), s[next..], escapes)
  {
    assert s[start..next] + s[next..] == s[start..];
    if mark == "--" {
      assert s[start..][0] == s[start];
    }
  }

  lemma BlockIsFound(s: string, i: nat, next: nat, escapes: bool) returns (e: Element)
    requires i + 1 < |s| && s[i] == '/' && s[i + 1] == '*'
    requires !IsExecutableComment(s, i) && BlockEnd(s, i + 2) == Some(next)
    ensures e.BlockRemark? && Found(s, i, next, e, escapes)
  {
    hide BlockEnd;
    BlockEndIs(s, i + 2);
    var text := s[i + 2..next - 2];
    e := BlockRemark(text);
    assert text + "*/" == s[i + 2..next];
    assert "/*" + (text + "*/") == s[i..next] && Spelled(e) == "/*" + (text + "*/");
    assert forall k :: 0 <= k < |text| + 2 ==> (text + "*/")[k] == s[i + 2 + k];
  }

  lemma NameIsFound(s: string, i: nat, escapes: bool) returns (e: Element)
    requires i < |s| && (IsAlphabetic(s[i]) || s[i] == '_')
    ensures e == Name(s[i..WordEnd(s, i + 1)]) && Found(s, i, WordEnd(s, i + 1), e, escapes)
  {
    hide WordEnd;
    WordEndIs(s, i + 1);
    e := Name(s[i..WordEnd(s, i + 1)]);
  }

  /** Every scan is the scan of an element. */
  lemma ScanIsElement(s: string, i: nat, escapes: bool) returns (e: Element)
    requires i < |s| && ScanAt(s, i, escapes).Some?
    ensures Found(s, i, ScanAt(s, i, escapes).value.next, e, escapes)
    ensures Yields(e, ScanAt(s, i, escapes).value.tokens)
  {
    hide QuotedEnd, LineEnd, BlockEnd, WordEnd, IsExecutableComment, MysqlText.ReadBody, Upper;
    var c, next := s[i], ScanAt(s, i, escapes).value.next;
    if IsSpace(c) {
      e := Gap(c);
    } else if c == '\'' || c == '"' || c == '`' {
      e := TextIsFound(s, i, next, escapes);
    } else if c == '#' {
      e := RemarkIsFound(s, i, "#", escapes);
    } else if StartsLineComment(s, i) {
      e := RemarkIsFound(s, i, "--", escapes);
    } else if StartsBlockComment(s, i) {
      e := BlockIsFound(s, i, next, escapes);
    } else if IsAlphabetic(c) || c == '_' {
      e := NameIsFound(s, i, escapes);
      UpperIsCapitals(e.text);
    } else if IsPunctuation(c) {
      e := Sign(c);
    } else {
      e := Gap(c);
    }
  }

  // ----- whole texts

  function SpelledAll(es: seq<Element>): string
  {
    if es == [] then [] else Spelled(es[0]) + SpelledAll(es[1..])
  }

  predicate StandAll(es: seq<Element>, escapes: bool)
  {
    es == [] || (Stands(es[0], SpelledAll(es[1..]), escapes) && StandAll(es[1..], escapes))
  }

  ghost predicate YieldAll(es: seq<Element>, tokens: seq<Token>)
  {
    if es == [] then tokens == []
    else exists first, rest :: Yields(es[0], first) && YieldAll(es[1..], rest) && tokens == first + rest
  }

  lemma {:induction false} ElementsLex(before: string, es: seq<Element>, escapes: bool) returns (tokens: seq<Token>)
    requires StandAll(es, escapes)
    ensures YieldAll(es, tokens) && Lex(before + SpelledAll(es), |before|, escapes) == Some(tokens)
    decreases |es|
  {
    hide ScanAt, Stands, Spelled, Yields;
    if es == [] {
      tokens := [];
    } else {
      var e, rest := es[0], SpelledAll(es[1..]);
      var s := before + SpelledAll(es);
      assert s == before + Spelled(e) + rest;
      var first := ElementScans(before, e, rest, escapes);
      var more := ElementsLex(before + Spelled(e), es[1..], escapes);
      LexStep(s, |before|, escapes, Scan(first, |before| + |Spelled(e)|));
      tokens := first + more;
    }
  }

  lemma {:induction false} LexedIsElements(s: string, i: nat, escapes: bool) returns (es: seq<Element>)
    requires i <= |s| && Lex(s, i, escapes).Some?
    ensures SpelledAll(es) == s[i..] && StandAll(es, escapes) && YieldAll(es, Lex(s, i, escapes).value)
    decreases |s| - i
  {
    hide ScanAt, Stands, Spelled, Yields;
    if i == |s| {
      es := [];
    } else {
      var scan := ScanAt(s, i, escapes).value;
      var e := ScanIsElement(s, i, escapes);
      LexStep(s, i, escapes, scan);
      var rest := LexedIsElements(s, scan.next, escapes);
      es := [e] + rest;
      assert es[1..] == rest && s[i..] == s[i..scan.next] + s[scan.next..];
    }
  }

  lemma {:induction false} YieldsAreUnique(es: seq<Element>, one: seq<Token>, other: seq<Token>)
    requires YieldAll(es, one) && YieldAll(es, other)
    ensures one == other
    decreases |es|
  {
    hide Yields;
    if es != [] {
      var a, b :| Yields(es[0], a) && YieldAll(es[1..], b) && one == a + b;
      var c, d :| Yields(es[0], c) && YieldAll(es[1..], d) && other == c + d;
      YieldIsUnique(es[0], a, c);
      YieldsAreUnique(es[1..], b, d);
    }
  }

  lemma YieldIsUnique(e: Element, one: seq<Token>, other: seq<Token>)
    requires Yields(e, one) && Yields(e, other)
    ensures one == other
  {
    if e.Name? {
      UpperIsCapitals(e.text);
    }
  }

  /** The text falls into elements that yield these tokens. */
  ghost predicate Means(s: string, escapes: bool, tokens: seq<Token>)
  {
    exists es: seq<Element> :: SpelledAll(es) == s && StandAll(es, escapes) && YieldAll(es, tokens)
  }

  /** A text is accepted with these tokens exactly when it means them. */
  lemma LexExactly(s: string, escapes: bool, tokens: seq<Token>)
    ensures Lex(s, 0, escapes) == Some(tokens) <==> Means(s, escapes, tokens)
  {
    hide Lex, SpelledAll, StandAll, YieldAll;
    if Lex(s, 0, escapes) == Some(tokens) {
      var es := LexedIsElements(s, 0, escapes);
      assert s[0..] == s;
    }
    if Means(s, escapes, tokens) {
      var es: seq<Element> :| SpelledAll(es) == s && StandAll(es, escapes) && YieldAll(es, tokens);
      var found := ElementsLex([], es, escapes);
      assert [] + SpelledAll(es) == s;
      YieldsAreUnique(es, tokens, found);
    }
  }

  /** A comment that MySQL or MariaDB would execute is refused, whatever is in front of it and behind it. */
  lemma ExecutableIsRefused(es: seq<Element>, text: string, escapes: bool)
    requires IsExecutable(text) && StandsBefore(es, "/*" + text, escapes)
    ensures Lex(SpelledAll(es) + "/*" + text, 0, escapes) == None
  {
    hide Lex, ScanAt, Stands, Spelled;
    var s := SpelledAll(es) + "/*" + text;
    var tokens := ElementsLexBefore([], es, "/*" + text, escapes);
    assert [] + SpelledAll(es) + ("/*" + text) == s;
    ExecutableScans(SpelledAll(es), text, escapes);
    LexStops(s, |SpelledAll(es)|, escapes);
  }

  /** The elements stand in front of the rest. */
  predicate StandsBefore(es: seq<Element>, rest: string, escapes: bool)
  {
    es == [] || (Stands(es[0], SpelledAll(es[1..]) + rest, escapes) && StandsBefore(es[1..], rest, escapes))
  }

  lemma {:induction false} ElementsLexBefore(before: string, es: seq<Element>, rest: string, escapes: bool)
    returns (tokens: seq<Token>)
    requires StandsBefore(es, rest, escapes)
    ensures var s := before + SpelledAll(es) + rest;
            Lex(s, |before|, escapes) == Onto(tokens, Lex(s, |before| + |SpelledAll(es)|, escapes))
    decreases |es|
  {
    hide ScanAt, Stands, Spelled, Yields;
    var s := before + SpelledAll(es) + rest;
    if es == [] {
      tokens := [];
      OntoNothing(Lex(s, |before|, escapes));
    } else {
      var e := es[0];
      assert s == before + Spelled(e) + (SpelledAll(es[1..]) + rest);
      assert s == before + Spelled(e) + SpelledAll(es[1..]) + rest;
      var first := ElementScans(before, e, SpelledAll(es[1..]) + rest, escapes);
      var more := ElementsLexBefore(before + Spelled(e), es[1..], rest, escapes);
      LexStep(s, |before|, escapes, Scan(first, |before| + |Spelled(e)|));
      tokens := first + more;
      OntoOnto(first, more, Lex(s, |before| + |SpelledAll(es)|, escapes));
    }
  }

  lemma ExecutableScans(before: string, text: string, escapes: bool)
    requires IsExecutable(text)
    ensures ScanAt(before + "/*" + text, |before|, escapes) == None
  {
    var s := before + "/*" + text;
    assert s[|before|] == '/' && s[|before| + 1] == '*' && s[|before| + 2] == text[0];
  }

  lemma LexStops(s: string, i: nat, escapes: bool)
    requires i < |s| && ScanAt(s, i, escapes) == None
    ensures Lex(s, i, escapes) == None
  {
  }
}
