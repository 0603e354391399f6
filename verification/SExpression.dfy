/** The s-expression parser: symbols, unsigned integers, and lists of them. */
module SExpression {

  datatype Status = Success | FoundList | BrokenInteger | BrokenSymbol | UnknownInput | UnexpectedEnd

  /** A tree as the parser builds it; `Null` is a missing node. */
  datatype Node = Symbol(name: string) | Integer(n: nat) | Pair(car: Node, cdr: Node) | EmptyList | Null

  datatype Result = Result(position: nat, status: Status, node: Node)

  const NUL: char := '\0'
  const TWO_64: nat := 0x1_0000_0000_0000_0000

  /* ---------- Characters ---------- */

  predicate IsSpace(c: char) {
    c == ' ' || c == '\t' || c == '\n' || c == '\r' || c == '\U{0b}' || c == '\U{0c}'
  }

  predicate IsDigit(c: char) {
    '0' <= c <= '9'
  }

  predicate IsHexDigit(c: char) {
    IsDigit(c) || 'a' <= c <= 'f' || 'A' <= c <= 'F'
  }

  /** The table of characters that a symbol may start with. */
  predicate InTable(c: char) {
    || 'a' <= c <= 'z' || 'A' <= c <= 'Z'
    || c in {'+', '%', '|', '/', '_', ':', ';', '.', '!', '?', '$', '&', '=', '*', '<', '>', '~'}
  }

  /** The search in that table also finds its terminator. */
  predicate IsInitial(c: char) {
    InTable(c) || c == NUL
  }

  predicate IsSymbolChar(c: char) {
    IsInitial(c) || IsDigit(c) || c == '-'
  }

  predicate IsDelimiter(c: char) {
    c == '(' || c == ')' || IsSpace(c)
  }

  /** The value of a digit. Upper-case digits are not in the table and count as zero. */
  function DigitValue(c: char): (d: nat)
    ensures d < 16
  {
    if '0' <= c <= '9' then c as nat - '0' as nat
    else if 'a' <= c <= 'f' then c as nat - 'a' as nat + 10
    else 0
  }

  /* ---------- Tokens ---------- */

  /** The first position from j on that does not fit the predicate. */
  function RunEnd(s: string, j: nat, fits: char -> bool): (e: nat)
    requires j <= |s|
    ensures j <= e <= |s|
    ensures forall k :: j <= k < e ==> fits(s[k])
    ensures e < |s| ==> !fits(s[e])
    decreases |s| - j
  {
    if j < |s| && fits(s[j]) then RunEnd(s, j + 1, fits) else j
  }

  /** A run of characters has ended where it may: at the end of the text or at a delimiter. */
  predicate Delimited(s: string, j: nat) {
    j < |s| ==> IsDelimiter(s[j])
  }

  /** The number that digits make, the last one counting least. */
  function Value(digits: string, base: nat): nat {
    if digits == [] then 0
    else Value(digits[..|digits| - 1], base) * base + DigitValue(digits[|digits| - 1])
  }

  /** A copy of a string ends at its first terminator. */
  function Copied(name: string): string {
    if name == [] || name[0] == NUL then [] else [name[0]] + Copied(name[1..])
  }

  function SymbolAt(s: string, i: nat): Result
    requires i <= |s|
  {
    var j := RunEnd(s, i, IsSymbolChar);
    if Delimited(s, j) then Result(j, Success, Symbol(Copied(s[i..j]))) else Result(j, BrokenSymbol, Null)
  }

  /** An integer of 64 bits; the characters in front of its digits count as zero digits. */
  function IntegerAt(s: string, i: nat, offset: nat, base: nat): Result
    requires i + offset <= |s|
  {
    var j := RunEnd(s, i + offset, if base == 10 then IsDigit else IsHexDigit);
    if Delimited(s, j) then Result(j, Success, Integer(Value(s[i..j], base) % TWO_64)) else Result(j, BrokenInteger, Null)
  }

  /** The text is followed by a terminator, which is what stands at its end. */
  function CharAt(s: string, i: nat): char {
    if i < |s| then s[i] else NUL
  }

  predicate IsHexStart(s: string, i: nat)
    requires i < |s|
  {
    i + 1 < |s| && s[i] == '#' && s[i + 1] == 'x' && IsHexDigit(CharAt(s, i + 2))
  }

  /** One token from position i on. */
  function Token(s: string, i: nat): (r: Result)
    requires i <= |s|
    ensures r.status in {Success, FoundList, BrokenInteger, BrokenSymbol, UnknownInput}
    ensures r.position <= |s|
    ensures r.status in {Success, FoundList} && i < |s| ==> i < r.position
    ensures r.status == FoundList ==> i < r.position
    ensures r.status != Success ==> r.node == Null
  {
    var j := RunEnd(s, i, IsSpace);
    if j == |s| then Result(j, Success, Null)
    else if IsHexStart(s, j) then IntegerAt(s, j, 2, 16)
    else if s[j] == '(' then Result(j + 1, FoundList, Null)
    else if s[j] == ')' then Result(j + 1, Success, EmptyList)
    else if IsDigit(s[j]) then
      RunStarts(s, j, IsDigit);
      IntegerAt(s, j, 0, 10)
    else if IsInitial(s[j]) then
      RunStarts(s, j, IsSymbolChar);
      SymbolAt(s, j)
    else Result(j, UnknownInput, Null)
  }

  lemma RunStarts(s: string, j: nat, fits: char -> bool)
    requires j < |s| && fits(s[j])
    ensures j < RunEnd(s, j, fits)
  {
  }

  /* ---------- Expressions ---------- */

  predicate IsError(r: Result) {
    r.status != Success && r.status != FoundList
  }

  predicate IsEmptyList(r: Result) {
    r.status == Success && r.node == EmptyList
  }

  /** The elements of a list and its end. An empty list is taken for the end, wherever it comes from. */
  function ParseList(s: string, i: nat): (r: Result)
    ensures r.status != FoundList
    ensures !IsError(r) ==> i < r.position <= |s|
    decreases |s| - i, 1
  {
    if |s| <= i then Result(0, UnexpectedEnd, Null)
    else
      var car := ParseInner(s, i);
      if IsEmptyList(car) || IsError(car) then car
      else
        var cdr := ParseList(s, car.position);
        Result(cdr.position, cdr.status, Pair(car.node, cdr.node))
  }

  function ParseInner(s: string, i: nat): (r: Result)
    requires i <= |s|
    ensures r.status != FoundList
    ensures !IsError(r) ==> i < r.position <= |s|
    decreases |s| - i, 0
  {
    var r := Token(s, i);
    if r.status == FoundList then ParseList(s, r.position)
    else if |s| <= i && r.node == Null then r.(status := UnexpectedEnd)
    else r
  }

  /** Parse the expression at position i. */
  function Parse(s: string, i: nat): (r: Result)
    requires i <= |s|
    ensures r.status != FoundList
    ensures IsError(r) ==> r.node == Null
    ensures !IsError(r) ==> i < r.position <= |s|
  {
    var r := ParseInner(s, i);
    if IsError(r) then r.(node := Null) else r
  }

  /* ---------- Complete trees ---------- */

  predicate Complete(n: Node) {
    match n
    case Pair(car, cdr) => Complete(car) && Complete(cdr)
    case Null => false
    case _ => true
  }

  predicate IsProperList(n: Node) {
    match n
    case EmptyList => true
    case Pair(_, cdr) => IsProperList(cdr)
    case _ => false
  }

  lemma {:induction false} ListsAreProper(s: string, i: nat)
    ensures var r := ParseList(s, i); !IsError(r) ==> Complete(r.node) && IsProperList(r.node)
    decreases |s| - i, 1
  {
    if i < |s| {
      InnerIsComplete(s, i);
      var car := ParseInner(s, i);
      if !IsEmptyList(car) && !IsError(car) {
        ListsAreProper(s, car.position);
        if car.node == Null {
          assert ParseList(s, |s|).status == UnexpectedEnd;
        }
      }
    }
  }

  /** Only blank text is parsed successfully without a tree; every tree is complete, and its lists are proper. */
  lemma {:induction false} InnerIsComplete(s: string, i: nat)
    requires i <= |s|
    ensures var r := ParseInner(s, i);
            !IsError(r) ==>
              && (r.node == Null ==> r.position == |s| && RunEnd(s, i, IsSpace) == |s|)
              && (r.node != Null ==> Complete(r.node))
              && (r.node.Pair? ==> IsProperList(r.node))
    decreases |s| - i, 0
  {
    var r := Token(s, i);
    if r.status == FoundList {
      ListsAreProper(s, r.position);
    }
  }

  /* ---------- The loops ---------- */

  method DigitToInt(c: char) returns (rv: nat)
    ensures rv == DigitValue(c)
  {
    var digits := "0123456789abcdef";
    rv := 0;
    while rv < 16
      invariant rv <= 16
      invariant forall d :: 0 <= d < rv ==> digits[d] != c
    {
      if digits[rv] == c {
        return;
      }
      rv := rv + 1;
    }
    DigitPlace(c);
    return 0;
  }

  lemma DigitPlace(c: char)
    ensures DigitValue(c) != 0 ==> "0123456789abcdef"[DigitValue(c)] == c
  {
  }

  method FindRunEnd(s: string, i: nat, fits: char -> bool) returns (j: nat)
    requires i <= |s|
    ensures j == RunEnd(s, i, fits)
  {
    j := i;
    while j < |s|
      invariant i <= j <= |s| && RunEnd(s, j, fits) == RunEnd(s, i, fits)
    {
      if !fits(s[j]) {
        break;
      }
      j := j + 1;
    }
  }

  method ParseSymbol(s: string, i: nat) returns (r: Result)
    requires i <= |s|
    ensures r == SymbolAt(s, i)
  {
    var j := FindRunEnd(s, i, IsSymbolChar);
    if j < |s| && !IsDelimiter(s[j]) {
      return Result(j, BrokenSymbol, Null);
    }
    return Result(j, Success, Symbol(Copied(s[i..j])));
  }

  function Power(base: nat, k: nat): nat {
    if k == 0 then 1 else base * Power(base, k - 1)
  }

  function Wrapped(n: nat): (r: nat)
    ensures r < TWO_64
  {
    n % TWO_64
  }

  /** Sums and products may be cut to 64 bits at any time. */
  lemma WrapEarly(n: nat, mult: nat, d: nat, base: nat)
    ensures Wrapped(Wrapped(n) + Wrapped(mult) * d) == Wrapped(n + mult * d)
    ensures Wrapped(Wrapped(mult) * base) == Wrapped(mult * base)
  {
    WrapProduct(mult, d);
    WrapProduct(mult, base);
    var q := mult / TWO_64;
    WrapSum(n, Wrapped(mult) * d);
    WrapMore(n + Wrapped(mult) * d, q * d);
  }

  lemma WrapProduct(mult: nat, d: nat)
    ensures mult * d == Wrapped(mult) * d + TWO_64 * ((mult / TWO_64) * d)
    ensures Wrapped(Wrapped(mult) * d) == Wrapped(mult * d)
  {
    var q, r := mult / TWO_64, Wrapped(mult);
    assert mult == TWO_64 * q + r;
    assert mult * d == (TWO_64 * q + r) * d == TWO_64 * (q * d) + r * d;
    WrapMore(r * d, q * d);
  }

  lemma WrapMore(n: nat, q: nat)
    ensures Wrapped(n + TWO_64 * q) == Wrapped(n)
  {
  }

  lemma WrapSum(n: nat, m: nat)
    ensures Wrapped(Wrapped(n) + m) == Wrapped(n + m)
  {
  }

  /** One more digit in front. */
  lemma {:induction false} ValueOfMore(c: char, digits: string, base: nat)
    ensures Value([c] + digits, base) == Power(base, |digits|) * DigitValue(c) + Value(digits, base)
    decreases |digits|
  {
    var s := [c] + digits;
    if digits == [] {
      assert s[..0] == [];
    } else {
      var n := |digits| - 1;
      assert s[..|s| - 1] == [c] + digits[..n];
      ValueOfMore(c, digits[..n], base);
      Distribute(Power(base, n), DigitValue(c), Value(digits[..n], base), base);
    }
  }

  lemma Distribute(p: nat, d: nat, v: nat, base: nat)
    ensures (p * d + v) * base == (base * p) * d + v * base
  {
  }

  /** The digits are weighed from the last one on, in arithmetic of 64 bits. */
  method WeighDigits(digits: string, base: nat) returns (n: nat)
    ensures n == Wrapped(Value(digits, base))
  {
    hide Wrapped, Value;
    var mult, j := 1, |digits|;
    n := 0;
    NothingWeighed(base);
    assert digits[|digits|..] == [];
    while j > 0
      invariant 0 <= j <= |digits|
      invariant n == Wrapped(Value(digits[j..], base)) && mult == Wrapped(Power(base, |digits| - j))
    {
      WeighOne(digits, j - 1, base);
      j := j - 1;
      var d := DigitToInt(digits[j]);
      n := Wrapped(n + mult * d);
      mult := Wrapped(mult * base);
    }
    assert digits[0..] == digits;
  }

  lemma WeighOne(digits: string, j: nat, base: nat)
    requires j < |digits|
    ensures var n, mult := Wrapped(Value(digits[j + 1..], base)), Wrapped(Power(base, |digits| - (j + 1)));
            && Wrapped(n + mult * DigitValue(digits[j])) == Wrapped(Value(digits[j..], base))
            && Wrapped(mult * base) == Wrapped(Power(base, |digits| - j))
  {
    hide Wrapped, Value;
    var weight := Power(base, |digits| - (j + 1));
    assert digits[j..] == [digits[j]] + digits[j + 1..];
    ValueOfMore(digits[j], digits[j + 1..], base);
    WrapEarly(Value(digits[j + 1..], base), weight, DigitValue(digits[j]), base);
    Commutes(weight, base);
  }

  lemma Commutes(a: nat, b: nat)
    ensures a * b == b * a
  {
  }

  lemma NothingWeighed(base: nat)
    ensures Wrapped(Value([], base)) == 0 && Wrapped(Power(base, 0)) == 1
  {
  }

  method ParseInteger(s: string, i: nat, offset: nat, base: nat) returns (r: Result)
    requires i + offset <= |s|
    ensures r == IntegerAt(s, i, offset, base)
  {
    var j := FindRunEnd(s, i + offset, if base == 10 then IsDigit else IsHexDigit);
    if j < |s| && !IsDelimiter(s[j]) {
      return Result(j, BrokenInteger, Null);
    }
    var n := WeighDigits(s[i..j], base);
    return Result(j, Success, Integer(n));
  }

  method ParseToken(s: string, i: nat) returns (r: Result)
    requires i <= |s|
    ensures r == Token(s, i)
  {
    hide IsSpace, IsInitial, IsDigit, Value, Copied;
    var j := FindRunEnd(s, i, IsSpace);
    if j == |s| {
      return Result(j, Success, Null);
    }
    if IsHexStart(s, j) {
      r := ParseInteger(s, j, 2, 16);
    } else if s[j] == '(' {
      r := Result(j + 1, FoundList, Null);
    } else if s[j] == ')' {
      r := Result(j + 1, Success, EmptyList);
    } else if IsDigit(s[j]) {
      r := ParseInteger(s, j, 0, 10);
    } else if IsInitial(s[j]) {
      r := ParseSymbol(s, j);
    } else {
      r := Result(j, UnknownInput, Null);
    }
  }
}
