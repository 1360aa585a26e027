/** Decimal numbers, splitting and joining, as strconv and strings do them. */
module Text {
  import opened Options

  // ----- decimal numbers -----

  predicate IsDigit(c: char) {
    '0' <= c <= '9'
  }

  function Digit(d: nat): (c: char)
    requires d < 10
    ensures IsDigit(c)
  {
    '0' + d as char
  }

  function DigitValue(c: char): (d: nat)
    requires IsDigit(c)
    ensures d < 10 && Digit(d) == c
  {
    (c - '0') as nat
  }

  function Decimal(n: nat): (s: string)
    ensures s != [] && forall i :: 0 <= i < |s| ==> IsDigit(s[i])
  {
    if n < 10 then [Digit(n)] else Decimal(n / 10) + [Digit(n % 10)]
  }

  /** The value of a non-empty run of digits. */
  function Value(s: string): Option<nat> {
    if s == [] || !IsDigit(s[|s| - 1]) then None
    else if |s| == 1 then Some(DigitValue(s[0]))
    else
      var high := Value(s[..|s| - 1]);
      if high.None? then None else Some(10 * high.value + DigitValue(s[|s| - 1]))
  }

  lemma {:induction false} ValueOfDecimal(n: nat)
    ensures Value(Decimal(n)) == Some(n)
  {
    var s := Decimal(n);
    if n >= 10 {
      ValueOfDecimal(n / 10);
      assert s[..|s| - 1] == Decimal(n / 10);
      assert s[|s| - 1] == Digit(n % 10);
    }
  }

  /** Exactly the non-empty runs of digits have a value. */
  lemma {:induction false} ValueOfDigits(s: string)
    ensures Value(s).Some? <==> s != "" && forall i :: 0 <= i < |s| ==> '0' <= s[i] <= '9'
  {
    if |s| > 1 {
      ValueOfDigits(s[..|s| - 1]);
      assert forall i :: 0 <= i < |s| - 1 ==> s[..|s| - 1][i] == s[i];
    }
  }

  lemma DecimalIsInjective(a: nat, b: nat)
    requires Decimal(a) == Decimal(b)
    ensures a == b
  {
    ValueOfDecimal(a);
    ValueOfDecimal(b);
  }

  /** strconv.ParseUint in base 10: None stands for a syntax or range error. */
  function ParseUint(s: string, max: nat): Option<nat> {
    var v := Value(s);
    if v.Some? && v.value <= max then v else None
  }

  /** Decimal with a minus sign in front of negative numbers. */
  function Signed(n: int): string {
    if n < 0 then "-" + Decimal(-n) else Decimal(n)
  }

  /** strconv.ParseInt in base 10, for numbers from -max-1 to max. */
  function ParseInt(s: string, max: nat): Option<int> {
    if s == [] then None
    else
      var negative := s[0] == '-';
      var v := Value(if negative || s[0] == '+' then s[1..] else s);
      if v.None? || v.value > (if negative then max + 1 else max) then None
      else Some(if negative then 0 - v.value else v.value)
  }

  lemma ParseIntOfSigned(n: int, max: nat)
    ensures ParseInt(Signed(n), max) == if (if n < 0 then -n <= max + 1 else n <= max) then Some(n) else None
  {
    hide Value, Decimal;
    if n < 0 {
      ValueOfDecimal(-n);
      assert Signed(n)[1..] == Decimal(-n);
    } else {
      ValueOfDecimal(n);
      assert IsDigit(Decimal(n)[0]);
    }
  }

  lemma SignedIsInjective(a: int, b: int)
    requires Signed(a) == Signed(b)
    ensures a == b
  {
    var max := if a < 0 then -a else a;
    var both := max + if b < 0 then -b else b;
    ParseIntOfSigned(a, both);
    ParseIntOfSigned(b, both);
  }

  // ----- splitting and joining -----

  /** strings.Split with a one-character separator. */
  function Split(s: string, sep: char): (parts: seq<string>)
    ensures parts != []
  {
    if s == [] then [""]
    else
      var rest := Split(s[1..], sep);
      if s[0] == sep then [""] + rest else [[s[0]] + rest[0]] + rest[1..]
  }

  /** strings.Join with a one-character separator. */
  function Join(parts: seq<string>, sep: char): string {
    if parts == [] then ""
    else if |parts| == 1 then parts[0]
    else parts[0] + [sep] + Join(parts[1..], sep)
  }

  lemma {:induction false} JoinFront(p: string, rest: seq<string>, sep: char)
    requires rest != []
    ensures Join([p] + rest, sep) == p + [sep] + Join(rest, sep)
  {
    assert ([p] + rest)[1..] == rest;
  }

  /** The first part ends at the first separator. */
  lemma {:induction false} SplitFirst(p: string, rest: string, sep: char)
    requires sep !in p
    ensures Split(p + [sep] + rest, sep) == [p] + Split(rest, sep)
  {
    var s := p + [sep] + rest;
    if p == [] {
      assert s[1..] == rest;
    } else {
      assert s[1..] == p[1..] + [sep] + rest;
      SplitFirst(p[1..], rest, sep);
      assert [p[0]] + p[1..] == p;
      assert ([p[1..]] + Split(rest, sep))[1..] == Split(rest, sep);
    }
  }

  lemma {:induction false} SplitWhole(p: string, sep: char)
    requires sep !in p
    ensures Split(p, sep) == [p]
  {
    if p != [] {
      SplitWhole(p[1..], sep);
      assert [p[0]] + p[1..] == p;
    }
  }

  /** Splitting undoes joining when no part contains the separator. */
  lemma {:induction false} SplitOfJoin(parts: seq<string>, sep: char)
    requires parts != [] && forall i :: 0 <= i < |parts| ==> sep !in parts[i]
    ensures Split(Join(parts, sep), sep) == parts
  {
    if |parts| == 1 {
      SplitWhole(parts[0], sep);
    } else {
      SplitFirst(parts[0], Join(parts[1..], sep), sep);
      SplitOfJoin(parts[1..], sep);
      assert [parts[0]] + parts[1..] == parts;
    }
  }
}
