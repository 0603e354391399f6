/** Expressions, their text, and what the parser makes of it. */
module SExpressionText {
  import opened SExpression

  datatype Expression =
    | Word(name: string)
    | Number(n: nat, hex: bool)
    | List(items: Items)

  datatype Items = Nil | Cons(head: Expression, tail: Items)

  /* ---------- Printing ---------- */

  predicate IsBase(base: nat) {
    base == 10 || base == 16
  }

  function DigitChar(d: nat): (c: char)
    requires d < 16
    ensures DigitValue(c) == d && IsHexDigit(c) && (d < 10 ==> IsDigit(c))
  {
    if d < 10 then ('0' as nat + d) as char else ('a' as nat + d - 10) as char
  }

  function Digits(n: nat, base: nat): (s: string)
    requires IsBase(base)
    ensures s != [] && forall c <- s :: if base == 10 then IsDigit(c) else IsHexDigit(c)
  {
    (if n < base then [] else Digits(n / base, base)) + [DigitChar(n % base)]
  }

  /** The text of an expression, with the given white space between the elements of lists. */
  function Text(e: Expression, space: string): string
    decreases e, 0
  {
    match e
    case Word(name) => name
    case Number(n, hex) => if hex then "#x" + Digits(n, 16) else Digits(n, 10)
    case List(Nil) => "()"
    case List(Cons(head, tail)) => "(" + (Text(head, space) + TailText(tail, space))
  }

  /** The text behind an element of a list, up to the end of the list. */
  function TailText(items: Items, space: string): string
    decreases items, 1
  {
    match items
    case Nil => ")"
    case Cons(head, tail) => space + (Text(head, space) + TailText(tail, space))
  }

  function Tree(e: Expression): Node
    decreases e, 0
  {
    match e
    case Word(name) => Symbol(name)
    case Number(n, _) => Integer(n)
    case List(items) => TreeOfList(items)
  }

  function TreeOfList(items: Items): Node
    decreases items, 1
  {
    match items
    case Nil => EmptyList
    case Cons(head, tail) => Pair(Tree(head), TreeOfList(tail))
  }

  /* ---------- Legal expressions ---------- */

  predicate LegalName(name: string) {
    && name != [] && InTable(name[0])
    && forall c <- name :: IsSymbolChar(c) && c != NUL
  }

  predicate Legal(e: Expression)
    decreases e, 0
  {
    match e
    case Word(name) => LegalName(name)
    case Number(n, _) => n < TWO_64
    case List(items) => AllLegal(items)
  }

  predicate AllLegal(items: Items)
    decreases items, 1
  {
    match items
    case Nil => true
    case Cons(head, tail) => Legal(head) && AllLegal(tail)
  }

  /** No empty list is an element of a list, at any depth. */
  predicate NoEmptyElement(e: Expression)
    decreases e, 0
  {
    e.List? ==> NoneEmpty(e.items)
  }

  predicate NoneEmpty(items: Items)
    decreases items, 1
  {
    match items
    case Nil => true
    case Cons(head, tail) => head != List(Nil) && NoEmptyElement(head) && NoneEmpty(tail)
  }

  predicate IsSpacing(space: string) {
    space != [] && forall c <- space :: IsSpace(c)
  }

  /** A text stands in another at a position. */
  predicate At(s: string, i: nat, text: string) {
    i + |text| <= |s| && s[i..i + |text|] == text
  }

  lemma AtParts(s: string, i: nat, a: string, b: string)
    ensures At(s, i, a + b) <==> At(s, i, a) && At(s, i + |a|, b)
  {
    if At(s, i, a + b) {
      assert s[i..i + |a|] == (a + b)[..|a|] == a;
      assert s[i + |a|..i + |a| + |b|] == (a + b)[|a|..] == b;
    }
    if At(s, i, a) && At(s, i + |a|, b) {
      assert s[i..i + |a + b|] == s[i..i + |a|] + s[i + |a|..i + |a| + |b|];
    }
  }

  lemma AtChar(s: string, i: nat, text: string, k: nat)
    requires At(s, i, text) && k < |text|
    ensures s[i + k] == text[k]
  {
    assert s[i..i + |text|][k] == s[i + k];
  }

  /* ---------- Runs of characters ---------- */

  /** A run ends where its text does, if what follows does not belong to it. */
  lemma {:induction false} RunOver(s: string, i: nat, text: string, fits: char -> bool)
    requires At(s, i, text) && forall c <- text :: fits(c)
    requires i + |text| < |s| ==> !fits(s[i + |text|])
    ensures RunEnd(s, i, fits) == i + |text|
    decreases |text|
  {
    if text != [] {
      AtChar(s, i, text, 0);
      assert text == text[..1] + text[1..];
      AtParts(s, i, text[..1], text[1..]);
      RunOver(s, i + 1, text[1..], fits);
    }
  }

  lemma {:induction false} ValueOfDigits(n: nat, base: nat)
    requires IsBase(base)
    ensures Value(Digits(n, base), base) == n
  {
    hide DigitChar;
    var s := Digits(n, base);
    Shifted(n, base);
    if n < base {
      assert s[..|s| - 1] == [];
    } else {
      assert s[..|s| - 1] == Digits(n / base, base);
      ValueOfDigits(n / base, base);
    }
  }

  lemma Shifted(n: nat, base: nat)
    requires IsBase(base)
    ensures (n / base) * base + n % base == n
    ensures n < base ==> n % base == n
    ensures n >= base ==> n / base < n
  {
  }

  /** Zeros in front, and what counts as such, make no difference. */
  lemma {:induction false} LeadingZeros(zeros: string, digits: string, base: nat)
    requires forall c <- zeros :: DigitValue(c) == 0
    ensures Value(zeros + digits, base) == Value(digits, base)
    decreases |zeros| + |digits|
  {
    var s := zeros + digits;
    if digits != [] {
      assert s[..|s| - 1] == zeros + digits[..|digits| - 1];
      LeadingZeros(zeros, digits[..|digits| - 1], base);
    } else if zeros != [] {
      assert s == zeros;
      assert s[..|s| - 1] == zeros[..|zeros| - 1] + [];
      LeadingZeros(zeros[..|zeros| - 1], [], base);
    }
  }

  lemma {:induction false} CopiedWhole(name: string)
    requires forall c <- name :: c != NUL
    ensures Copied(name) == name
  {
    if name != [] {
      assert name[0] in name && forall c <- name[1..] :: c in name;
      CopiedWhole(name[1..]);
    }
  }

  /* ---------- Single tokens ---------- */

  lemma WordIsRead(s: string, i: nat, name: string)
    requires LegalName(name) && At(s, i, name) && Delimited(s, i + |name|)
    ensures Token(s, i) == Result(i + |name|, Success, Symbol(name))
  {
    hide IsSymbolChar, IsInitial, InTable;
    AtChar(s, i, name, 0);
    InitialsAreNothingElse(s[i]);
    InitialsStart(s[i]);
    if i + |name| < |s| {
      DelimitersEndRuns(s[i + |name|]);
    }
    RunOver(s, i, name, IsSymbolChar);
    CopiedWhole(name);
    assert RunEnd(s, i, IsSpace) == i;
  }

  lemma InitialsAreNothingElse(c: char)
    requires InTable(c)
    ensures !IsSpace(c) && !IsDigit(c) && c != '(' && c != ')' && c != '#'
  {
  }

  lemma InitialsStart(c: char)
    requires InTable(c)
    ensures IsInitial(c) && IsSymbolChar(c)
  {
  }

  lemma DelimitersEndRuns(c: char)
    requires IsDelimiter(c)
    ensures !IsSymbolChar(c) && !IsHexDigit(c)
  {
  }

  lemma NumberIsRead(s: string, i: nat, n: nat)
    requires n < TWO_64 && At(s, i, Digits(n, 10)) && Delimited(s, i + |Digits(n, 10)|)
    ensures Token(s, i) == Result(i + |Digits(n, 10)|, Success, Integer(n))
  {
    hide Digits, Value, IsSymbolChar, IsInitial;
    var digits := Digits(n, 10);
    if i + |digits| < |s| {
      DelimitersEndRuns(s[i + |digits|]);
    }
    ValueOfDigits(n, 10);
    AtChar(s, i, digits, 0);
    assert digits[0] in digits;
    RunOver(s, i, digits, IsDigit);
    assert RunEnd(s, i, IsSpace) == i;
  }

  /** Hexadecimal digits of either case are read, and weighed by the parser's table of digits. */
  lemma HexDigitsAreRead(s: string, i: nat, digits: string)
    requires digits != [] && (forall c <- digits :: IsHexDigit(c))
    requires At(s, i, "#x" + digits) && Delimited(s, i + 2 + |digits|)
    ensures Token(s, i) == Result(i + 2 + |digits|, Success, Integer(Value(digits, 16) % TWO_64))
  {
    hide Value, IsSymbolChar, IsInitial, Delimited, IntegerAt;
    AtParts(s, i, "#x", digits);
    AtChar(s, i, "#x", 0);
    AtChar(s, i, "#x", 1);
    AtChar(s, i + 2, digits, 0);
    assert digits[0] in digits;
    HexIntegerIsRead(s, i, digits);
    assert RunEnd(s, i, IsSpace) == i;
  }

  lemma HexIntegerIsRead(s: string, i: nat, digits: string)
    requires forall c <- digits :: IsHexDigit(c)
    requires At(s, i, "#x" + digits) && Delimited(s, i + 2 + |digits|)
    ensures IntegerAt(s, i, 2, 16) == Result(i + 2 + |digits|, Success, Integer(Value(digits, 16) % TWO_64))
  {
    hide Value, IsHexDigit, At, IsDelimiter;
    AtParts(s, i, "#x", digits);
    if i + 2 + |digits| < |s| {
      DelimitersEndRuns(s[i + 2 + |digits|]);
    }
    LeadingZeros("#x", digits, 16);
    RunOver(s, i + 2, digits, IsHexDigit);
    SliceAt(s, i, "#x" + digits, i + 2 + |digits|);
  }

  lemma SliceAt(s: string, i: nat, text: string, j: nat)
    requires At(s, i, text) && j == i + |text|
    ensures j <= |s| && s[i..j] == text
  {
  }

  lemma HexNumberIsRead(s: string, i: nat, n: nat)
    requires n < TWO_64 && At(s, i, "#x" + Digits(n, 16)) && Delimited(s, i + 2 + |Digits(n, 16)|)
    ensures Token(s, i) == Result(i + 2 + |Digits(n, 16)|, Success, Integer(n))
  {
    hide Token, Value, Digits;
    ValueOfDigits(n, 16);
    HexDigitsAreRead(s, i, Digits(n, 16));
  }

  /* ---------- Upper-case digits ---------- */

  predicate IsUpperDigit(c: char) {
    'A' <= c <= 'F'
  }

  /** The number that a writer of hexadecimal digits of either case means. */
  function Written(digits: string): nat {
    if digits == [] then 0
    else
      var c := digits[|digits| - 1];
      Written(digits[..|digits| - 1]) * 16 + if IsUpperDigit(c) then c as nat - 'A' as nat + 10 else DigitValue(c)
  }

  lemma {:induction false} UpperDigitsAreZeros(digits: string)
    ensures Value(digits, 16) <= Written(digits)
    ensures Value(digits, 16) == Written(digits) <==> forall c <- digits :: !IsUpperDigit(c)
    decreases |digits|
  {
    if digits != [] {
      var n := |digits| - 1;
      UpperDigitsAreZeros(digits[..n]);
      assert digits == digits[..n] + [digits[n]];
      assert digits[n] in digits && forall c <- digits :: c in digits[..n] || c == digits[n];
    }
  }

  /** Hexadecimal text is read as the number it means exactly if that fits 64 bits and has no upper-case digit. */
  lemma HexIsReadAsWritten(s: string, i: nat, digits: string)
    requires digits != [] && (forall c <- digits :: IsHexDigit(c))
    requires At(s, i, "#x" + digits) && Delimited(s, i + 2 + |digits|)
    ensures Token(s, i).status == Success && Token(s, i).position == i + 2 + |digits|
    ensures Token(s, i).node == Integer(Written(digits)) <==>
              Written(digits) < TWO_64 && forall c <- digits :: !IsUpperDigit(c)
  {
    hide Token, Value, Written, At, Delimited, IsUpperDigit, IsHexDigit;
    HexDigitsAreRead(s, i, digits);
    UpperDigitsAreZeros(digits);
    WrappedToItself(Value(digits, 16), Written(digits));
  }

  lemma WrappedToItself(v: nat, w: nat)
    requires v <= w
    ensures v % TWO_64 == w <==> w < TWO_64 && v == w
  {
  }

  /** White space in front of a token is skipped. */
  lemma SpaceIsSkipped(s: string, i: nat, space: string)
    requires At(s, i, space) && forall c <- space :: IsSpace(c)
    requires i + |space| < |s| && !IsSpace(s[i + |space|])
    ensures Token(s, i) == Token(s, i + |space|)
  {
    RunOver(s, i, space, IsSpace);
    assert RunEnd(s, i + |space|, IsSpace) == i + |space|;
  }

  /* ---------- Printing and parsing ---------- */

  /** The text of an expression starts with something other than white space. */
  lemma TextStarts(e: Expression, space: string)
    requires Legal(e)
    ensures Text(e, space) != [] && !IsSpace(Text(e, space)[0])
  {
    match e
    case Word(name) => InitialsAreNothingElse(name[0]);
    case Number(n, hex) =>
      if !hex {
        assert Digits(n, 10)[0] in Digits(n, 10);
      }
    case List(_) =>
  }

  lemma TailStarts(items: Items, space: string)
    requires IsSpacing(space)
    ensures TailText(items, space) != [] && IsDelimiter(TailText(items, space)[0])
  {
    if items.Cons? {
      assert space[0] in space;
    }
  }

  /** White space in front of an expression is skipped. */
  lemma InnerSkipsSpace(s: string, i: nat, space: string)
    requires At(s, i, space) && IsSpacing(space)
    requires i + |space| < |s| && !IsSpace(s[i + |space|])
    ensures ParseInner(s, i) == ParseInner(s, i + |space|)
  {
    hide Token;
    SpaceIsSkipped(s, i, space);
  }

  lemma ClosingIsRead(s: string, i: nat)
    requires i < |s| && s[i] == ')'
    ensures ParseInner(s, i) == ParseList(s, i) == Result(i + 1, Success, EmptyList)
  {
    assert RunEnd(s, i, IsSpace) == i;
  }

  lemma OpeningIsRead(s: string, i: nat)
    requires i < |s| && s[i] == '('
    ensures ParseInner(s, i) == ParseList(s, i + 1)
  {
    assert RunEnd(s, i, IsSpace) == i;
  }

  lemma AtomIsRead(e: Expression, s: string, i: nat, space: string)
    requires Legal(e) && !e.List? && At(s, i, Text(e, space)) && Delimited(s, i + |Text(e, space)|)
    ensures ParseInner(s, i) == Result(i + |Text(e, space)|, Success, Tree(e))
  {
    hide Token, LegalName, Delimited, Digits;
    match e
    case Word(name) => WordIsRead(s, i, name);
    case Number(n, hex) =>
      if hex {
        HexNumberIsRead(s, i, n);
      } else {
        NumberIsRead(s, i, n);
      }
  }

  /** The elements of a list, given that its first element is read. */
  lemma OneElement(s: string, i: nat, car: Result)
    requires i < |s| && car == ParseInner(s, i) && !IsError(car)
    ensures ParseList(s, i)
         == if IsEmptyList(car) then car
            else var cdr := ParseList(s, car.position); Result(cdr.position, cdr.status, Pair(car.node, cdr.node))
  {
  }

  lemma TreeIsEmpty(e: Expression)
    ensures Tree(e) == EmptyList <==> e == List(Nil)
  {
  }

  /** An expression without empty elements is read back from its text, and nothing behind it is touched. */
  lemma {:induction false} TextIsRead(e: Expression, s: string, i: nat, space: string)
    requires Legal(e) && NoEmptyElement(e) && IsSpacing(space)
    requires At(s, i, Text(e, space)) && (e.List? || Delimited(s, i + |Text(e, space)|))
    ensures ParseInner(s, i) == Result(i + |Text(e, space)|, Success, Tree(e))
    decreases e, 0
  {
    hide IsSpacing, ParseInner, ParseList, Token, Delimited;
    match e
    case List(Nil) =>
      AtChar(s, i, "()", 0);
      AtChar(s, i, "()", 1);
      OpeningIsRead(s, i);
      ClosingIsRead(s, i + 1);
    case List(Cons(head, tail)) =>
      AtParts(s, i, "(", Text(head, space) + TailText(tail, space));
      AtChar(s, i, "(", 0);
      OpeningIsRead(s, i);
      ElementIsRead(head, tail, s, i + 1, space);
    case _ => AtomIsRead(e, s, i, space);
  }

  lemma {:induction false} ElementIsRead(head: Expression, tail: Items, s: string, i: nat, space: string)
    requires Legal(head) && NoEmptyElement(head) && head != List(Nil) && AllLegal(tail) && NoneEmpty(tail) && IsSpacing(space)
    requires At(s, i, Text(head, space) + TailText(tail, space))
    ensures ParseInner(s, i) == Result(i + |Text(head, space)|, Success, Tree(head))
    ensures ParseList(s, i)
         == Result(i + |Text(head, space) + TailText(tail, space)|, Success, Pair(Tree(head), TreeOfList(tail)))
    decreases Cons(head, tail), 0
  {
    hide IsSpacing, ParseInner, ParseList, Token;
    var j := i + |Text(head, space)|;
    AtParts(s, i, Text(head, space), TailText(tail, space));
    TailStarts(tail, space);
    AtChar(s, j, TailText(tail, space), 0);
    TextIsRead(head, s, i, space);
    TreeIsEmpty(head);
    OneElement(s, i, ParseInner(s, i));
    TailIsRead(tail, s, j, space);
  }

  lemma {:induction false} TailIsRead(items: Items, s: string, i: nat, space: string)
    requires AllLegal(items) && NoneEmpty(items) && IsSpacing(space) && At(s, i, TailText(items, space))
    ensures ParseList(s, i) == Result(i + |TailText(items, space)|, Success, TreeOfList(items))
    decreases items, 1
  {
    hide IsSpacing, ParseInner, ParseList, Token;
    match items
    case Nil =>
      AtChar(s, i, ")", 0);
      ClosingIsRead(s, i);
    case Cons(head, tail) =>
      var text := Text(head, space) + TailText(tail, space);
      AtParts(s, i, space, text);
      TextStarts(head, space);
      AtChar(s, i + |space|, text, 0);
      InnerSkipsSpace(s, i, space);
      ElementIsRead(head, tail, s, i + |space|, space);
      SameList(s, i, i + |space|);
  }

  lemma SameList(s: string, i: nat, j: nat)
    requires i < |s| && j < |s| && ParseInner(s, i) == ParseInner(s, j)
    ensures ParseList(s, i) == ParseList(s, j)
  {
  }

  /* ---------- Where a list ends ---------- */

  function Step(c: char): int {
    if c == '(' then 1 else if c == ')' then -1 else 0
  }

  /** Opening less closing parentheses between two positions. */
  function Depth(s: string, i: nat, q: nat): int
    requires i <= q <= |s|
    decreases q
  {
    if i == q then 0 else Depth(s, i, q - 1) + Step(s[q - 1])
  }

  lemma {:induction false} DepthSplit(s: string, i: nat, j: nat, q: nat)
    requires i <= j <= q <= |s|
    ensures Depth(s, i, q) == Depth(s, i, j) + Depth(s, j, q)
    decreases q
  {
    if j < q {
      DepthSplit(s, i, j, q - 1);
    }
  }

  lemma {:induction false} DepthAt(s: string, i: nat, text: string, q: nat)
    requires At(s, i, text) && q <= |text|
    ensures Depth(s, i, i + q) == Depth(text, 0, q)
    decreases q
  {
    if q > 0 {
      AtChar(s, i, text, q - 1);
      DepthAt(s, i, text, q - 1);
    }
  }

  /** From i on, parentheses do not close more than they have opened before position p. */
  ghost predicate Above(s: string, i: nat, p: nat) {
    i <= p <= |s| && forall q :: i <= q < p ==> Depth(s, i, q) >= 0
  }

  lemma {:induction false} NoParentheses(s: string, i: nat, p: nat)
    requires i <= p <= |s| && forall k :: i <= k < p ==> Step(s[k]) == 0
    ensures Depth(s, i, p) == 0 && Above(s, i, p)
    decreases p
  {
    if i < p {
      NoParentheses(s, i, p - 1);
    }
  }

  lemma AboveAndOn(s: string, i: nat, j: nat, p: nat)
    requires Above(s, i, j) && Depth(s, i, j) >= 0 && Above(s, j, p)
    ensures Above(s, i, p) && Depth(s, i, p) >= Depth(s, j, p)
  {
    forall q | i <= q < p ensures Depth(s, i, q) >= 0 {
      if j <= q {
        DepthSplit(s, i, j, q);
      }
    }
    DepthSplit(s, i, j, p);
  }

  /** A token's depth: only parentheses have one. */
  lemma TokenDepth(s: string, i: nat)
    requires i <= |s| && !IsError(Token(s, i))
    ensures var r := Token(s, i);
            && i <= r.position <= |s| && Above(s, i, r.position)
            && (r.status == FoundList ==> r.position > i && Depth(s, i, r.position) == 1)
            && (r.status == Success && r.node != EmptyList ==> Depth(s, i, r.position) == 0)
  {
    hide Value, Copied;
    var r, j := Token(s, i), RunEnd(s, i, IsSpace);
    NoParentheses(s, i, j);
    if r.status == FoundList || r.node == EmptyList {
      assert r.position == j + 1;
    } else {
      NoParentheses(s, i, r.position);
    }
  }

  /** A list never reaches past the parenthesis that closes it. */
  lemma {:induction false} ListEndsInTime(s: string, i: nat)
    requires !IsError(ParseList(s, i))
    ensures Above(s, i, ParseList(s, i).position)
    decreases |s| - i, 1
  {
    hide Token;
    var car := ParseInner(s, i);
    InnerEndsInTime(s, i);
    if !IsEmptyList(car) {
      ListEndsInTime(s, car.position);
      AboveAndOn(s, i, car.position, ParseList(s, i).position);
    }
  }

  lemma {:induction false} InnerEndsInTime(s: string, i: nat)
    requires i <= |s| && !IsError(ParseInner(s, i))
    ensures var r := ParseInner(s, i);
            Above(s, i, r.position) && (r.node != EmptyList ==> Depth(s, i, r.position) >= 0)
    decreases |s| - i, 0
  {
    hide Token;
    var r, t := ParseInner(s, i), Token(s, i);
    TokenDepth(s, i);
    if t.status == FoundList {
      ListEndsInTime(s, t.position);
      AboveAndOn(s, i, t.position, r.position);
      DepthSplit(s, i, t.position, r.position - 1);
    }
  }

  /* ---------- The depth of texts ---------- */

  ghost predicate Balanced(t: string) {
    Above(t, 0, |t|) && Depth(t, 0, |t|) == 0
  }

  ghost predicate Enclosed(t: string) {
    Depth(t, 0, |t|) == 0 && forall q :: 0 < q < |t| ==> Depth(t, 0, q) >= 1
  }

  ghost predicate Closing(t: string) {
    Above(t, 0, |t|) && Depth(t, 0, |t|) == -1
  }

  lemma DepthOfConcat(a: string, b: string, q: nat)
    requires q <= |a + b|
    ensures Depth(a + b, 0, q) == if q <= |a| then Depth(a, 0, q) else Depth(a, 0, |a|) + Depth(b, 0, q - |a|)
  {
    AtParts(a + b, 0, a, b);
    assert At(a + b, 0, a + b);
    if q <= |a| {
      DepthAt(a + b, 0, a, q);
    } else {
      DepthSplit(a + b, 0, |a|, q);
      DepthAt(a + b, 0, a, |a|);
      DepthAt(a + b, |a|, b, q - |a|);
    }
  }

  lemma BalancedThenClosing(a: string, b: string)
    requires Balanced(a) && Closing(b)
    ensures Closing(a + b)
  {
    forall q: nat | q <= |a + b|
      ensures Depth(a + b, 0, q) == if q <= |a| then Depth(a, 0, q) else Depth(b, 0, q - |a|)
    {
      DepthOfConcat(a, b, q);
    }
  }

  lemma OpenedThenClosing(b: string)
    requires Closing(b)
    ensures Enclosed("(" + b) && Balanced("(" + b)
  {
    OneDeep();
    forall q: nat | 1 <= q <= |"(" + b|
      ensures Depth("(" + b, 0, q) == 1 + Depth(b, 0, q - 1)
    {
      DepthOfConcat("(", b, q);
    }
  }

  lemma OneDeep()
    ensures Depth("(", 0, 1) == 1 && Depth("(", 0, 0) == 0
    ensures Closing(")")
  {
    assert Depth(")", 0, 0) == 0 && Depth(")", 0, 1) == -1;
  }

  lemma SpacingIsBalanced(space: string)
    requires IsSpacing(space)
    ensures Balanced(space)
  {
    forall k | 0 <= k < |space| ensures Step(space[k]) == 0 {
      assert space[k] in space;
    }
    NoParentheses(space, 0, |space|);
  }

  lemma AtomIsBalanced(e: Expression, space: string)
    requires Legal(e) && !e.List?
    ensures Balanced(Text(e, space))
  {
    var text := Text(e, space);
    forall k | 0 <= k < |text| ensures Step(text[k]) == 0 {
      match e
      case Word(name) =>
        assert text[k] in name;
      case Number(n, hex) =>
        var digits := Digits(n, if hex then 16 else 10);
        if hex && k < 2 {
          assert text[k] == "#x"[k];
        } else {
          assert text[k] in digits;
        }
    }
    NoParentheses(text, 0, |text|);
  }

  lemma {:induction false} TextIsBalanced(e: Expression, space: string)
    requires Legal(e) && IsSpacing(space)
    ensures Balanced(Text(e, space)) && (e.List? ==> Enclosed(Text(e, space)))
    decreases e, 0
  {
    hide Balanced, Closing, Enclosed, IsSpacing;
    match e
    case List(Nil) =>
      OneDeep();
      OpenedThenClosing(")");
      assert "(" + ")" == "()";
    case List(Cons(head, tail)) =>
      TextIsBalanced(head, space);
      TailIsClosing(tail, space);
      BalancedThenClosing(Text(head, space), TailText(tail, space));
      OpenedThenClosing(Text(head, space) + TailText(tail, space));
    case _ => AtomIsBalanced(e, space);
  }

  lemma {:induction false} TailIsClosing(items: Items, space: string)
    requires AllLegal(items) && IsSpacing(space)
    ensures Closing(TailText(items, space))
    decreases items, 1
  {
    hide Balanced, Closing, Enclosed, IsSpacing;
    match items
    case Nil => OneDeep();
    case Cons(head, tail) =>
      SpacingIsBalanced(space);
      TextIsBalanced(head, space);
      TailIsClosing(tail, space);
      BalancedThenClosing(Text(head, space), TailText(tail, space));
      BalancedThenClosing(space, Text(head, space) + TailText(tail, space));
  }

  /* ---------- Empty elements ---------- */

  /** The parser fails or stops too early. */
  predicate FallsShort(r: Result, end: nat) {
    IsError(r) || r.position < end
  }

  /** Once inside an enclosed text, the rest of a list ends with that text at the latest. */
  lemma CutShort(s: string, i: nat, text: string, p: nat)
    requires At(s, i, text) && Enclosed(text) && i < p < i + |text|
    requires !IsError(ParseList(s, p))
    ensures ParseList(s, p).position <= i + |text|
  {
    var end := i + |text|;
    ListEndsInTime(s, p);
    DepthAt(s, i, text, p - i);
    DepthAt(s, i, text, |text|);
    DepthSplit(s, i, p, end);
  }

  lemma {:induction false} EmptyElementIsMisread(e: Expression, s: string, i: nat, space: string)
    requires Legal(e) && !NoEmptyElement(e) && IsSpacing(space) && At(s, i, Text(e, space))
    ensures FallsShort(ParseInner(s, i), i + |Text(e, space)|)
    decreases e, 0
  {
    hide IsSpacing, ParseInner, ParseList, Token;
    match e
    case List(Cons(head, tail)) =>
      AtParts(s, i, "(", Text(head, space) + TailText(tail, space));
      AtChar(s, i, "(", 0);
      OpeningIsRead(s, i);
      ElementIsMisread(head, tail, s, i + 1, space);
  }

  lemma {:induction false} ElementIsMisread(head: Expression, tail: Items, s: string, i: nat, space: string)
    requires Legal(head) && AllLegal(tail) && IsSpacing(space) && !NoneEmpty(Cons(head, tail))
    requires At(s, i, Text(head, space) + TailText(tail, space))
    ensures FallsShort(ParseList(s, i), i + |Text(head, space) + TailText(tail, space)|)
    decreases Cons(head, tail), 0
  {
    hide IsSpacing, ParseInner, ParseList, Token, Enclosed;
    var text := Text(head, space);
    var j := i + |text|;
    AtParts(s, i, text, TailText(tail, space));
    TailStarts(tail, space);
    AtChar(s, j, TailText(tail, space), 0);
    TextStarts(head, space);
    if head != List(Nil) && NoEmptyElement(head) {
      TextIsRead(head, s, i, space);
      TreeIsEmpty(head);
      OneElement(s, i, ParseInner(s, i));
      TailIsMisread(tail, s, j, space);
    } else {
      if head == List(Nil) {
        TextIsRead(head, s, i, space);
      } else {
        EmptyElementIsMisread(head, s, i, space);
      }
      var car := ParseInner(s, i);
      ListAfter(s, i, car);
      if !IsError(car) && !IsEmptyList(car) && !IsError(ParseList(s, car.position)) {
        TextIsBalanced(head, space);
        CutShort(s, i, text, car.position);
      }
    }
  }

  lemma ListAfter(s: string, i: nat, car: Result)
    requires i < |s| && car == ParseInner(s, i)
    ensures !IsError(car) ==> i < car.position
    ensures var r := ParseList(s, i);
            if IsEmptyList(car) || IsError(car) then r == car
            else
              var cdr := ParseList(s, car.position);
              r.position == cdr.position && r.status == cdr.status
  {
  }

  lemma {:induction false} TailIsMisread(items: Items, s: string, i: nat, space: string)
    requires AllLegal(items) && !NoneEmpty(items) && IsSpacing(space) && At(s, i, TailText(items, space))
    ensures FallsShort(ParseList(s, i), i + |TailText(items, space)|)
    decreases items, 1
  {
    hide IsSpacing, ParseInner, ParseList, Token;
    match items
    case Cons(head, tail) =>
      var text := Text(head, space) + TailText(tail, space);
      AtParts(s, i, space, text);
      TextStarts(head, space);
      AtChar(s, i + |space|, text, 0);
      InnerSkipsSpace(s, i, space);
      ElementIsMisread(head, tail, s, i + |space|, space);
      SameList(s, i, i + |space|);
  }

  /**
   Parsing the text of an expression gives that expression back, with the exact end of its text, if
   and only if none of its lists has an empty list for an element.
   */
  lemma ParsesBack(e: Expression, s: string, i: nat, space: string)
    requires Legal(e) && IsSpacing(space)
    requires At(s, i, Text(e, space)) && (e.List? || Delimited(s, i + |Text(e, space)|))
    ensures Parse(s, i) == Result(i + |Text(e, space)|, Success, Tree(e)) <==> NoEmptyElement(e)
  {
    hide IsSpacing, ParseInner, Token, Delimited;
    if NoEmptyElement(e) {
      TextIsRead(e, s, i, space);
    } else {
      EmptyElementIsMisread(e, s, i, space);
    }
  }
}
