/** The texts that the parser takes, and what they mean to it. */
module SExpressionGrammar {
  import opened SExpression
  import opened SExpressionText

  /** The terminator does not occur inside of a text. */
  predicate IsText(s: string) {
    forall c <- s :: c != NUL
  }

  /* ---------- Characters ---------- */

  /** White space is what stands from 9 to 13 and at 32, and with the parentheses it ends a run. */
  lemma SpaceCharacters(c: char)
    ensures IsSpace(c) <==> 9 <= c as nat <= 13 || c as nat == 32
    ensures IsDelimiter(c) <==> c as nat == 40 || c as nat == 41 || IsSpace(c)
  {
  }

  /** A symbol starts with a letter or one of seventeen signs, and goes on with these, digits, and dashes. */
  lemma SymbolCharacters(c: char)
    requires c != NUL
    ensures IsInitial(c) <==>
              || 97 <= c as nat <= 122 || 65 <= c as nat <= 90
              || c as nat in {33, 36, 37, 38, 42, 43, 46, 47, 58, 59, 60, 61, 62, 63, 95, 124, 126}
    ensures IsSymbolChar(c) <==> IsInitial(c) || 48 <= c as nat <= 57 || c as nat == 45
  {
  }

  /** Digits, and what they are worth: those of upper case nothing. */
  lemma DigitCharacters(c: char, d: nat)
    ensures IsDigit(c) <==> c in "0123456789"
    ensures IsHexDigit(c) <==> c in "0123456789abcdef" || c in "ABCDEF"
    ensures d < 16 ==> DigitValue("0123456789abcdef"[d]) == d
    ensures c !in "0123456789abcdef" ==> DigitValue(c) == 0
  {
  }

  /* ---------- The grammar ---------- */

  predicate Blank(s: string, i: nat, k: nat) {
    i <= k <= |s| && forall x :: i <= x < k ==> IsSpace(s[x])
  }

  predicate IsWord(s: string, k: nat, j: nat, name: string) {
    k < j <= |s| && Delimited(s, j) && name == s[k..j] && LegalName(name)
  }

  /** Decimal digits, or hexadecimal ones of either case, of which those of upper case count as zero. */
  predicate IsNumber(s: string, k: nat, j: nat, n: nat) {
    && k < j <= |s| && Delimited(s, j)
    && (|| ((forall x :: k <= x < j ==> IsDigit(s[x])) && n == Value(s[k..j], 10) % 18446744073709551616)
        || (&& k + 2 < j && s[k] == '#' && s[k + 1] == 'x'
            && (forall x :: k + 2 <= x < j ==> IsHexDigit(s[x])) && n == Value(s[k + 2..j], 16) % 18446744073709551616))
  }

  /**
   The text from i up to j is one of the tree: its token behind white space, or its elements behind an
   opening parenthesis. The empty list is a closing parenthesis, with any number of opening ones in front.
   */
  ghost predicate Denotes(s: string, i: nat, j: nat, n: Node)
    requires i <= |s|
    decreases n, |s| - i, 0
  {
    match n
    case Symbol(name) => exists k: nat :: Blank(s, i, k) && IsWord(s, k, j, name)
    case Integer(v) => exists k: nat :: Blank(s, i, k) && IsNumber(s, k, j, v)
    case EmptyList =>
      exists k: nat :: Blank(s, i, k) && k < |s| && ((s[k] == ')' && j == k + 1) || (s[k] == '(' && Denotes(s, k + 1, j, n)))
    case Pair(_, _) => exists k: nat :: Blank(s, i, k) && k < |s| && s[k] == '(' && Elements(s, k + 1, j, n)
    case Null => false
  }

  /** The text from i up to j holds the elements of a list and its end. No element is an empty list. */
  ghost predicate Elements(s: string, i: nat, j: nat, n: Node)
    requires i <= |s|
    decreases n, |s| - i, 1
  {
    match n
    case EmptyList => Denotes(s, i, j, n)
    case Pair(car, cdr) => car != EmptyList && exists m: nat :: m <= |s| && Denotes(s, i, m, car) && Elements(s, m, j, cdr)
    case _ => false
  }

  /* ---------- What is parsed belongs to the grammar ---------- */

  lemma {:induction false} InnerDenotes(s: string, i: nat)
    requires i <= |s| && IsText(s) && !IsError(ParseInner(s, i)) && ParseInner(s, i).node != Null
    ensures Denotes(s, i, ParseInner(s, i).position, ParseInner(s, i).node)
    decreases |s| - i, 0
  {
    hide Token, IsText, Elements;
    var t, r := Token(s, i), ParseInner(s, i);
    if t.status == FoundList {
      OpeningToken(s, i);
      var k := RunEnd(s, i, IsSpace);
      ListDenotes(s, k + 1);
      if r.node == EmptyList {
        EmptyElements(s, k + 1, r.position);
      }
    } else {
      TokenDenotes(s, i);
    }
  }

  lemma EmptyElements(s: string, i: nat, j: nat)
    requires i <= |s|
    ensures Elements(s, i, j, EmptyList) <==> Denotes(s, i, j, EmptyList)
  {
  }

  lemma {:induction false} ListDenotes(s: string, i: nat)
    requires i <= |s| && IsText(s) && !IsError(ParseList(s, i))
    ensures Elements(s, i, ParseList(s, i).position, ParseList(s, i).node)
    ensures ParseList(s, i).node.EmptyList? || ParseList(s, i).node.Pair?
    decreases |s| - i, 1
  {
    hide Token, IsText, Denotes, ParseInner;
    var car := ParseInner(s, i);
    InnerIsComplete(s, i);
    if car.node != Null {
      InnerDenotes(s, i);
      if !IsEmptyList(car) {
        ListDenotes(s, car.position);
      }
    }
  }

  lemma OpeningToken(s: string, i: nat)
    requires i <= |s| && Token(s, i).status == FoundList
    ensures var k := RunEnd(s, i, IsSpace); Blank(s, i, k) && k < |s| && s[k] == '(' && Token(s, i).position == k + 1
  {
  }

  lemma TokenDenotes(s: string, i: nat)
    requires i <= |s| && IsText(s) && Token(s, i).status == Success && Token(s, i).node != Null
    ensures Denotes(s, i, Token(s, i).position, Token(s, i).node)
  {
    hide IsSymbolChar, InTable, IsHexDigit, Value, IsDelimiter;
    var k := RunEnd(s, i, IsSpace);
    if IsHexStart(s, k) {
      HexDenotes(s, k);
    } else if IsDigit(s[k]) {
      DecimalDenotes(s, k);
    } else if s[k] != ')' {
      WordDenotes(s, k);
    }
  }

  lemma DecimalDenotes(s: string, k: nat)
    requires k < |s| && IsDigit(s[k]) && IntegerAt(s, k, 0, 10).status == Success
    ensures var r := IntegerAt(s, k, 0, 10); r.node.Integer? && IsNumber(s, k, r.position, r.node.n)
  {
    hide Value, IsDelimiter;
    RunStarts(s, k, IsDigit);
  }

  lemma HexDenotes(s: string, k: nat)
    requires k < |s| && IsText(s) && IsHexStart(s, k) && IntegerAt(s, k, 2, 16).status == Success
    ensures var r := IntegerAt(s, k, 2, 16); r.node.Integer? && IsNumber(s, k, r.position, r.node.n)
  {
    hide IsHexDigit, Value, IsDelimiter;
    var j := RunEnd(s, k + 2, IsHexDigit);
    TerminatorIsNoDigit();
    RunStarts(s, k + 2, IsHexDigit);
    assert s[k..j] == "#x" + s[k + 2..j];
    LeadingZeros("#x", s[k + 2..j], 16);
  }

  lemma TerminatorIsNoDigit()
    ensures !IsHexDigit(NUL)
  {
  }

  lemma WordDenotes(s: string, k: nat)
    requires k < |s| && IsText(s) && IsInitial(s[k]) && SymbolAt(s, k).status == Success
    ensures var r := SymbolAt(s, k); r.node.Symbol? && IsWord(s, k, r.position, r.node.name)
  {
    hide InTable, IsDelimiter;
    var j := RunEnd(s, k, IsSymbolChar);
    var name := s[k..j];
    RunStarts(s, k, IsSymbolChar);
    forall c | c in name ensures IsSymbolChar(c) && c != NUL {
      var x :| 0 <= x < |name| && name[x] == c;
      assert s[k + x] == c && s[k + x] in s;
    }
    assert name[0] == s[k] && name[0] in name;
    CopiedWhole(name);
  }

  /* ---------- What belongs to the grammar is parsed ---------- */

  lemma {:induction false} RunIs(s: string, i: nat, k: nat, fits: char -> bool)
    requires i <= k <= |s| && (forall x :: i <= x < k ==> fits(s[x])) && (k < |s| ==> !fits(s[k]))
    ensures RunEnd(s, i, fits) == k
    decreases k - i
  {
    if i < k {
      RunIs(s, i + 1, k, fits);
    }
  }

  lemma ParsedBehindSpace(s: string, i: nat, k: nat)
    requires Blank(s, i, k) && k < |s| && !IsSpace(s[k])
    ensures ParseInner(s, i) == ParseInner(s, k)
  {
    RunIs(s, i, k, IsSpace);
    RunIs(s, k, k, IsSpace);
  }

  lemma WordIsParsed(s: string, k: nat, j: nat, name: string)
    requires IsWord(s, k, j, name)
    ensures !IsSpace(s[k]) && ParseInner(s, k) == Result(j, Success, Symbol(name))
  {
    hide Token, LegalName, Delimited;
    WordStarts(name);
    assert s[k] == name[0];
    WordIsRead(s, k, name);
  }

  lemma WordStarts(name: string)
    requires LegalName(name)
    ensures name != [] && !IsSpace(name[0])
  {
  }

  lemma NumberIsParsed(s: string, k: nat, j: nat, n: nat)
    requires IsNumber(s, k, j, n)
    ensures !IsSpace(s[k]) && ParseInner(s, k) == Result(j, Success, Integer(n))
  {
    hide Value, IsSymbolChar, IsInitial, IsHexDigit, Token;
    if s[k] == '#' {
      var digits := s[k + 2..j];
      assert s[k..j] == "#x" + digits;
      HexDigitsAreRead(s, k, digits);
    } else {
      DecimalIsRead(s, k, j);
    }
  }

  lemma DecimalIsRead(s: string, k: nat, j: nat)
    requires k < j <= |s| && Delimited(s, j) && forall x :: k <= x < j ==> IsDigit(s[x])
    ensures Token(s, k) == Result(j, Success, Integer(Value(s[k..j], 10) % TWO_64))
  {
    hide Value, IsSymbolChar, IsInitial;
    if j < |s| {
      DelimitersEndRuns(s[j]);
    }
    RunIs(s, k, j, IsDigit);
    RunIs(s, k, k, IsSpace);
  }

  lemma {:induction false} DenotedIsParsed(s: string, i: nat, j: nat, n: Node)
    requires i <= |s| && Denotes(s, i, j, n)
    ensures ParseInner(s, i) == Result(j, Success, n)
    decreases n, |s| - i, 0
  {
    hide Elements, ParseInner, ParseList, IsWord, IsNumber;
    match n
    case Symbol(name) =>
      var k: nat :| Blank(s, i, k) && IsWord(s, k, j, name);
      WordIsParsed(s, k, j, name);
      ParsedBehindSpace(s, i, k);
    case Integer(v) =>
      var k: nat :| Blank(s, i, k) && IsNumber(s, k, j, v);
      NumberIsParsed(s, k, j, v);
      ParsedBehindSpace(s, i, k);
    case EmptyList =>
      var k: nat :| Blank(s, i, k) && k < |s| && ((s[k] == ')' && j == k + 1) || (s[k] == '(' && Denotes(s, k + 1, j, n)));
      ParsedBehindSpace(s, i, k);
      if s[k] == ')' {
        ClosingIsRead(s, k);
      } else {
        EmptyElements(s, k + 1, j);
        ElementsAreParsed(s, k + 1, j, n);
        OpeningIsRead(s, k);
      }
    case Pair(_, _) =>
      var k: nat :| Blank(s, i, k) && k < |s| && s[k] == '(' && Elements(s, k + 1, j, n);
      ParsedBehindSpace(s, i, k);
      ElementsAreParsed(s, k + 1, j, n);
      OpeningIsRead(s, k);
  }

  lemma {:induction false} ElementsAreParsed(s: string, i: nat, j: nat, n: Node)
    requires i <= |s| && Elements(s, i, j, n)
    ensures ParseList(s, i) == Result(j, Success, n)
    decreases n, |s| - i, 1
  {
    hide Denotes, ParseInner, ParseList;
    match n
    case EmptyList =>
      DenotedIsParsed(s, i, j, n);
      InnerNeedsText(s, i);
      OneElement(s, i, ParseInner(s, i));
    case Pair(car, cdr) =>
      var m: nat :| m <= |s| && Denotes(s, i, m, car) && Elements(s, m, j, cdr);
      DenotedIsParsed(s, i, m, car);
      ElementsAreParsed(s, m, j, cdr);
      InnerNeedsText(s, i);
      OneElement(s, i, ParseInner(s, i));
  }

  lemma InnerNeedsText(s: string, i: nat)
    requires i <= |s| && !IsError(ParseInner(s, i))
    ensures i < |s|
  {
  }

  /* ---------- The language of the parser ---------- */

  /** The parser takes exactly the texts of the grammar, each for the tree that it denotes. */
  lemma ParsesExactly(s: string, i: nat, j: nat, n: Node)
    requires i <= |s| && IsText(s) && n != Null
    ensures Parse(s, i) == Result(j, Success, n) <==> Denotes(s, i, j, n)
  {
    hide ParseInner, Denotes;
    if Denotes(s, i, j, n) {
      DenotedIsParsed(s, i, j, n);
    }
    if Parse(s, i) == Result(j, Success, n) {
      InnerDenotes(s, i);
    }
  }

  /* ---------- What the parser refuses ---------- */

  /** What stands at k is no token: an unknown character, or a run that ends neither at a delimiter nor at the end. */
  predicate TokenFails(s: string, k: nat, status: Status, position: nat) {
    && k < |s| && !IsSpace(s[k])
    && match status
       case UnknownInput =>
         position == k && s[k] != '(' && s[k] != ')' && !IsDigit(s[k]) && !InTable(s[k]) && !IsHexStart(s, k)
       case BrokenInteger =>
         && k < position < |s| && !IsDelimiter(s[position])
         && (|| ((forall x :: k <= x < position ==> IsDigit(s[x])) && !IsDigit(s[position]))
             || (&& k + 2 < position && s[k] == '#' && s[k + 1] == 'x'
                 && (forall x :: k + 2 <= x < position ==> IsHexDigit(s[x])) && !IsHexDigit(s[position])))
       case BrokenSymbol =>
         && k < position < |s| && InTable(s[k]) && (forall x :: k <= x < position ==> IsSymbolChar(s[x]))
         && !IsSymbolChar(s[position]) && !IsDelimiter(s[position])
       case _ => false
  }

  /** The text from i on starts with what is no token, or with a list that is broken; or there is nothing. */
  ghost predicate Fails(s: string, i: nat, status: Status, position: nat)
    requires i <= |s|
    decreases |s| - i, 0
  {
    || (i == |s| && status == UnexpectedEnd && position == |s|)
    || exists k: nat ::
         Blank(s, i, k) && k < |s| && (TokenFails(s, k, status, position) || (s[k] == '(' && ElementsFail(s, k + 1, status, position)))
  }

  /** A list that is not closed ends unexpectedly, at position zero; or one of its elements is broken. */
  ghost predicate ElementsFail(s: string, i: nat, status: Status, position: nat)
    requires i <= |s|
    decreases |s| - i, 1
  {
    || (Blank(s, i, |s|) && status == UnexpectedEnd && position == 0)
    || (i < |s| && Fails(s, i, status, position))
    || exists m: nat, n :: i < m <= |s| && n != EmptyList && Denotes(s, i, m, n) && ElementsFail(s, m, status, position)
  }

  lemma {:induction false} InnerFails(s: string, i: nat)
    requires i <= |s| && IsText(s) && IsError(ParseInner(s, i))
    ensures Fails(s, i, ParseInner(s, i).status, ParseInner(s, i).position)
    decreases |s| - i, 0
  {
    hide Token, IsText, ElementsFail, TokenFails;
    var t := Token(s, i);
    if t.status == FoundList {
      OpeningToken(s, i);
      ListFails(s, RunEnd(s, i, IsSpace) + 1);
    } else if i < |s| {
      BrokenToken(s, i);
    } else {
      assert RunEnd(s, i, IsSpace) == |s|;
      NothingThere(s);
    }
  }

  lemma NothingThere(s: string)
    ensures Token(s, |s|) == Result(|s|, Success, Null)
  {
  }

  lemma {:induction false} ListFails(s: string, i: nat)
    requires i <= |s| && IsText(s) && IsError(ParseList(s, i))
    ensures ElementsFail(s, i, ParseList(s, i).status, ParseList(s, i).position)
    decreases |s| - i, 1
  {
    hide Token, IsText, Denotes, ParseInner, Fails;
    if i < |s| {
      var car := ParseInner(s, i);
      if IsError(car) {
        InnerFails(s, i);
      } else {
        InnerIsComplete(s, i);
        if car.node != Null {
          InnerDenotes(s, i);
          ListFails(s, car.position);
        }
      }
    }
  }

  lemma BrokenToken(s: string, i: nat)
    requires i < |s| && IsText(s) && IsError(Token(s, i))
    ensures var k := RunEnd(s, i, IsSpace); Blank(s, i, k) && k < |s| && TokenFails(s, k, Token(s, i).status, Token(s, i).position)
  {
    hide IsSymbolChar, InTable, IsHexDigit, Value, IsDelimiter;
    var k := RunEnd(s, i, IsSpace);
    assert s[k] in s;
    if IsHexStart(s, k) {
      TerminatorIsNoDigit();
      RunStarts(s, k + 2, IsHexDigit);
    } else if IsDigit(s[k]) {
      RunStarts(s, k, IsDigit);
    } else if InTable(s[k]) && s[k] != '(' && s[k] != ')' {
      InitialsStart(s[k]);
      RunStarts(s, k, IsSymbolChar);
    }
  }

  lemma TokenIsRefused(s: string, i: nat, k: nat, status: Status, position: nat)
    requires Blank(s, i, k) && k < |s| && IsText(s) && TokenFails(s, k, status, position)
    ensures Token(s, i).status == status && Token(s, i).position == position
  {
    hide IsSymbolChar, InTable, IsHexDigit, Value, IsDelimiter;
    RunIs(s, i, k, IsSpace);
    assert s[k] in s;
    match status
    case BrokenInteger =>
      if s[k] == '#' {
        RunIs(s, k + 2, position, IsHexDigit);
      } else {
        RunIs(s, k, position, IsDigit);
      }
    case BrokenSymbol =>
      InitialsAreNothingElse(s[k]);
      RunIs(s, k, position, IsSymbolChar);
    case _ =>
  }

  lemma {:induction false} FailureIsParsed(s: string, i: nat, status: Status, position: nat)
    requires i <= |s| && IsText(s) && Fails(s, i, status, position)
    ensures ParseInner(s, i).status == status && ParseInner(s, i).position == position
    decreases |s| - i, 0
  {
    hide Token, IsText, ElementsFail, TokenFails, ParseList;
    if i == |s| && status == UnexpectedEnd && position == |s| {
      NothingThere(s);
    } else {
      var k: nat :| Blank(s, i, k) && k < |s| && (TokenFails(s, k, status, position) || (s[k] == '(' && ElementsFail(s, k + 1, status, position)));
      if TokenFails(s, k, status, position) {
        FailingTokens(s, k, status, position);
        TokenIsRefused(s, i, k, status, position);
      } else {
        ParsedBehindSpace(s, i, k);
        OpeningIsRead(s, k);
        FailedListIsParsed(s, k + 1, status, position);
      }
    }
  }

  lemma FailingTokens(s: string, k: nat, status: Status, position: nat)
    requires TokenFails(s, k, status, position)
    ensures status in {UnknownInput, BrokenInteger, BrokenSymbol}
  {
  }

  lemma {:induction false} FailedListIsParsed(s: string, i: nat, status: Status, position: nat)
    requires i <= |s| && IsText(s) && ElementsFail(s, i, status, position)
    ensures ParseList(s, i).status == status && ParseList(s, i).position == position
    decreases |s| - i, 1
  {
    hide Token, IsText, Denotes, Fails, ParseInner;
    if Blank(s, i, |s|) && status == UnexpectedEnd && position == 0 {
      BlankIsSkipped(s, i);
    } else if i < |s| && Fails(s, i, status, position) {
      FailureIsParsed(s, i, status, position);
      FailuresAreErrors(s, i, status, position);
    } else {
      var m: nat, n :| i < m <= |s| && n != EmptyList && Denotes(s, i, m, n) && ElementsFail(s, m, status, position);
      DenotedIsParsed(s, i, m, n);
      FailedListIsParsed(s, m, status, position);
      OneElement(s, i, ParseInner(s, i));
    }
  }

  lemma {:induction false} FailuresAreErrors(s: string, i: nat, status: Status, position: nat)
    requires i <= |s| && Fails(s, i, status, position)
    ensures status != Success && status != FoundList
    decreases |s| - i, 0
  {
    hide ElementsFail;
    if !(i == |s| && status == UnexpectedEnd && position == |s|) {
      var k: nat :| Blank(s, i, k) && k < |s| && (TokenFails(s, k, status, position) || (s[k] == '(' && ElementsFail(s, k + 1, status, position)));
      if s[k] == '(' && ElementsFail(s, k + 1, status, position) {
        ListFailuresAreErrors(s, k + 1, status, position);
      }
    }
  }

  lemma {:induction false} ListFailuresAreErrors(s: string, i: nat, status: Status, position: nat)
    requires i <= |s| && ElementsFail(s, i, status, position)
    ensures status != Success && status != FoundList
    decreases |s| - i, 1
  {
    hide Fails, Denotes;
    if Blank(s, i, |s|) && status == UnexpectedEnd && position == 0 {
    } else if i < |s| && Fails(s, i, status, position) {
      FailuresAreErrors(s, i, status, position);
    } else {
      var m: nat, n :| i < m <= |s| && n != EmptyList && Denotes(s, i, m, n) && ElementsFail(s, m, status, position);
      ListFailuresAreErrors(s, m, status, position);
    }
  }

  /** Blank text up to the end gives success without a node, and in a list an unexpected end. */
  lemma BlankIsSkipped(s: string, i: nat)
    requires Blank(s, i, |s|)
    ensures i < |s| ==> ParseInner(s, i) == Result(|s|, Success, Null)
    ensures ParseList(s, i).status == UnexpectedEnd && ParseList(s, i).position == 0
  {
    RunIs(s, i, |s|, IsSpace);
    assert ParseList(s, |s|) == Result(0, UnexpectedEnd, Null);
  }

  /** The parser refuses exactly these texts, with this reason and at this position. */
  lemma RefusesExactly(s: string, i: nat, status: Status, position: nat)
    requires i <= |s| && IsText(s) && status != Success
    ensures Parse(s, i) == Result(position, status, Null) <==> Fails(s, i, status, position)
    ensures Parse(s, i) == Result(|s|, Success, Null) <==> i < |s| && Blank(s, i, |s|)
  {
    hide ParseInner, ParseList, Fails;
    if Fails(s, i, status, position) {
      FailuresAreErrors(s, i, status, position);
      FailureIsParsed(s, i, status, position);
    }
    if Parse(s, i) == Result(position, status, Null) {
      InnerFails(s, i);
    }
    InnerIsComplete(s, i);
    if i < |s| && Blank(s, i, |s|) {
      BlankIsSkipped(s, i);
    }
    if !IsError(ParseInner(s, i)) {
      InnerNeedsText(s, i);
    }
  }

  /** No text has two readings. */
  lemma Unambiguous(s: string, i: nat, j: nat, n: Node, j': nat, n': Node)
    requires i <= |s| && Denotes(s, i, j, n) && Denotes(s, i, j', n')
    ensures j == j' && n == n'
  {
    hide ParseInner, Denotes;
    DenotedIsParsed(s, i, j, n);
    DenotedIsParsed(s, i, j', n');
  }

  /** An expression for a tree; missing nodes do not occur in trees. */
  function ExpressionOf(n: Node): Expression {
    match n
    case Symbol(name) => Word(name)
    case Integer(v) => Number(v, false)
    case Pair(car, cdr) => List(Cons(ExpressionOf(car), ItemsOf(cdr)))
    case _ => List(Nil)
  }

  function ItemsOf(n: Node): Items {
    match n
    case Pair(car, cdr) => Cons(ExpressionOf(car), ItemsOf(cdr))
    case _ => Nil
  }

  lemma {:induction false} DenotedIsLegal(s: string, i: nat, j: nat, n: Node)
    requires i <= |s| && Denotes(s, i, j, n)
    ensures var e := ExpressionOf(n); Tree(e) == n && Legal(e) && NoEmptyElement(e)
    decreases n, |s| - i, 0
  {
    hide Elements, LegalName;
    match n
    case Pair(_, _) =>
      var k: nat :| Blank(s, i, k) && k < |s| && s[k] == '(' && Elements(s, k + 1, j, n);
      ElementsAreLegal(s, k + 1, j, n);
    case _ =>
  }

  lemma {:induction false} ElementsAreLegal(s: string, i: nat, j: nat, n: Node)
    requires i <= |s| && Elements(s, i, j, n)
    ensures var items := ItemsOf(n);
            && TreeOfList(items) == n && AllLegal(items) && NoneEmpty(items)
            && (n.Pair? ==> ExpressionOf(n) == List(items))
    decreases n, |s| - i, 1
  {
    hide Denotes, LegalName;
    match n
    case Pair(car, cdr) =>
      var m: nat :| m <= |s| && Denotes(s, i, m, car) && Elements(s, m, j, cdr);
      DenotedIsLegal(s, i, m, car);
      ElementsAreLegal(s, m, j, cdr);
      TreeIsEmpty(ExpressionOf(car));
    case _ =>
  }

  /** Whatever has been parsed can be printed, and parsing that print gives the same tree. */
  lemma PrintingIsFaithful(s: string, i: nat, space: string)
    requires i <= |s| && IsText(s) && IsSpacing(space)
    requires !IsError(Parse(s, i)) && Parse(s, i).node != Null
    ensures var n := Parse(s, i).node;
            var e := ExpressionOf(n);
            && Legal(e) && NoEmptyElement(e) && Tree(e) == n
            && Parse(Text(e, space), 0) == Result(|Text(e, space)|, Success, n)
  {
    hide ParseInner, Denotes, Text, Tree, Legal, NoEmptyElement, IsSpacing, Delimited;
    var r := Parse(s, i);
    InnerDenotes(s, i);
    DenotedIsLegal(s, i, r.position, r.node);
    var e := ExpressionOf(r.node);
    WholeText(e, space);
    TextIsRead(e, Text(e, space), 0, space);
  }

  lemma WholeText(e: Expression, space: string)
    ensures var text := Text(e, space); At(text, 0, text) && Delimited(text, |text|)
  {
  }

  /** A closing parenthesis on its own is taken for an empty list, and so is one with several opening ones in front. */
  lemma StrayParentheses()
    ensures Parse(")", 0) == Result(1, Success, EmptyList)
    ensures Parse("(()", 0) == Result(3, Success, EmptyList)
  {
    hide ParseInner, ParseList;
    ClosingIsRead(")", 0);
    ClosingIsRead("(()", 2);
    OpeningIsRead("(()", 1);
    OpeningIsRead("(()", 0);
    OneElement("(()", 1, ParseInner("(()", 1));
  }
}
