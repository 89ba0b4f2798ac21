/** Values of one parsed row of the district CSV.

    The CSV is parsed with dynamic typing, so a cell arrives either as a
    number, as the original text (the literal `NA` among others), or as
    `null` for an empty field; reading a column the row does not have gives
    `undefined`. Numbers are modelled as integers. */
module Cells {

  datatype Cell = Num(n: int) | Text(s: string) | Null | Undefined

  /** One district row: column name to cell, as the parser produces it. */
  datatype Record = Record(fields: map<string, Cell>) {
    /** Property access `row[key]`: a missing column reads as `undefined`. */
    function Get(key: string): Cell {
      if key in fields then fields[key] else Undefined
    }
  }

  /** Truthiness of a cell in a JavaScript condition. */
  predicate Truthy(c: Cell) {
    match c
    case Num(n) => n != 0
    case Text(s) => s != ""
    case Null => false
    case Undefined => false
  }

  /** The "not available" test shared by the table and the chart:
      the text `NA`, `null` or `undefined`. */
  predicate IsSentinel(c: Cell) {
    c == Text("NA") || c == Null || c == Undefined
  }

  predicate IsDigits(s: string) {
    forall i :: 0 <= i < |s| ==> '0' <= s[i] <= '9'
  }

  function DigitChar(d: nat): char
    requires d < 10
  {
    "0123456789"[d]
  }

  function DigitValue(c: char): nat
    requires '0' <= c <= '9'
  {
    (c as int - '0' as int) as nat
  }

  /** Decimal digits of a natural number, without leading zeros. */
  function NatToString(n: nat): (s: string)
    ensures s != [] && IsDigits(s)
    ensures |s| > 1 ==> s[0] != '0'
    decreases n
  {
    if n < 10 then [DigitChar(n)] else NatToString(n / 10) + [DigitChar(n % 10)]
  }

  /** The text an integer turns into when concatenated with a string. */
  function IntToString(n: int): (s: string)
    ensures s != [] && (s[0] == '-' <==> n < 0)
    ensures n >= 0 ==> IsDigits(s)
    ensures n < 0 ==> IsDigits(s[1..])
    ensures n >= 0 && |s| > 1 ==> s[0] != '0'
    ensures n < 0 ==> |s| >= 2 && s[1] != '0'
  {
    if n < 0 then "-" + NatToString(-n) else NatToString(n)
  }

  function ParseNat(s: string): nat
    requires IsDigits(s)
  {
    if s == [] then 0 else 10 * ParseNat(s[..|s| - 1]) + DigitValue(s[|s| - 1])
  }

  function ParseInt(s: string): int
    requires s != [] && (if s[0] == '-' then IsDigits(s[1..]) else IsDigits(s))
  {
    if s[0] == '-' then -(ParseNat(s[1..]) as int) else ParseNat(s)
  }

  lemma {:induction false} ParseNatToString(n: nat)
    ensures ParseNat(NatToString(n)) == n
    decreases n
  {
    var s := NatToString(n);
    if n >= 10 {
      ParseNatToString(n / 10);
      assert s[..|s| - 1] == NatToString(n / 10);
    }
  }

  /** Printing an integer loses nothing: the text parses back to the value. */
  lemma IntToStringRoundTrip(n: int)
    ensures ParseInt(IntToString(n)) == n
  {
    ParseNatToString(if n < 0 then -n else n);
    if n < 0 {
      var digits := NatToString(-n);
      assert ("-" + digits)[1..] == digits;
    }
  }

  /** `String(value)`: the text a cell contributes to a string concatenation. */
  function CellText(c: Cell): string {
    match c
    case Num(n) => IntToString(n)
    case Text(s) => s
    case Null => "null"
    case Undefined => "undefined"
  }
}
