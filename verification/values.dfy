/** Python values as they flow through the reader: cell values, row lists,
    resolver results and the arguments of the sheet setters. */
module Values {

  newtype Byte = x: int | 0 <= x < 256

  /** One Python value. `Null` is Python's `None`. Floats and dates read from
      cells are not distinguished from other scalars: the reader only ever
      asks whether a cell value is `None`. */
  datatype Value = Null | Bool(b: bool) | Int(i: int) | Str(s: string) | Bytes(data: seq<Byte>)

  /** Python truthiness (`if res:`): None, False, 0 and empty str/bytes are falsy. */
  predicate Truthy(v: Value) {
    match v
    case Null => false
    case Bool(b) => b
    case Int(i) => i != 0
    case Str(s) => |s| > 0
    case Bytes(d) => |d| > 0
  }

  /** `isinstance(v, int)`: in Python a bool is an int. */
  predicate IsPyInt(v: Value) {
    v.Int? || v.Bool?
  }

  /** The integer an int-like value stands for (True is 1, False is 0). */
  function AsInt(v: Value): int
    requires IsPyInt(v)
  {
    if v.Bool? then (if v.b then 1 else 0) else v.i
  }

  predicate IsDigit(c: char) {
    '0' <= c <= '9'
  }

  /** Decimal digits of a natural number, most significant first. */
  function Decimal(n: nat): (s: string)
    ensures |s| >= 1
    ensures forall k :: 0 <= k < |s| ==> IsDigit(s[k])
    ensures n < 10 <==> |s| == 1
    decreases n
  {
    var d := (48 + n % 10) as char;
    if n < 10 then [d] else Decimal(n / 10) + [d]
  }

  /** The number a string of decimal digits denotes, most significant first. */
  function DigitsValue(s: string): nat
    requires forall k :: 0 <= k < |s| ==> IsDigit(s[k])
  {
    if |s| == 0 then 0
    else
      var last := s[|s| - 1];
      assert IsDigit(last);
      10 * DigitsValue(s[..|s| - 1]) + (last as int - 48)
  }

  /** The digits of `n` denote `n`. */
  lemma {:induction false} DecimalValue(n: nat)
    ensures DigitsValue(Decimal(n)) == n
    decreases n
  {
    var d := (48 + n % 10) as char;
    if n >= 10 {
      var s := Decimal(n / 10) + [d];
      assert s[..|s| - 1] == Decimal(n / 10);
      DecimalValue(n / 10);
    }
  }

  /** Python's `str(n)` for an int. */
  function PyStr(n: int): (s: string)
    ensures |s| >= 1
    ensures s[0] == '-' <==> n < 0
    ensures forall k :: 0 < k < |s| ==> IsDigit(s[k])
    ensures n >= 0 ==> forall k :: 0 <= k < |s| ==> IsDigit(s[k])
  {
    if n < 0 then "-" + Decimal(-n) else Decimal(n)
  }

  /** Reading back what `str` wrote: an optional minus sign, then digits. */
  function ParseInt(s: string): int
    requires |s| >= 1
    requires forall k :: 0 < k < |s| ==> IsDigit(s[k])
    requires s[0] == '-' || IsDigit(s[0])
  {
    if s[0] == '-' then -(DigitsValue(s[1..]) as int) else DigitsValue(s)
  }

  /** `str` loses nothing: parsing its text gives the number back. */
  lemma StrRoundTrip(n: int)
    ensures ParseInt(PyStr(n)) == n
  {
    if n < 0 {
      assert PyStr(n)[1..] == Decimal(-n);
      DecimalValue(-n);
    } else {
      DecimalValue(n);
    }
  }

  /** Different numbers have different decimal texts. */
  lemma PyStrInjective(a: int, b: int)
    ensures PyStr(a) == PyStr(b) ==> a == b
  {
    StrRoundTrip(a);
    StrRoundTrip(b);
  }

  /** Python's `list.index(x)`: the first position holding `x`. */
  function IndexOf<T(==)>(s: seq<T>, x: T): (i: nat)
    requires x in s
    ensures i < |s| && s[i] == x
    ensures forall j :: 0 <= j < i ==> s[j] != x
  {
    if s[0] == x then 0 else 1 + IndexOf(s[1..], x)
  }

  /** Number of `None` entries in a list. */
  function CountNull(s: seq<Value>): nat {
    if |s| == 0 then 0 else (if s[0] == Null then 1 else 0) + CountNull(s[1..])
  }

  /** Replacing one `None` by a non-`None` value removes exactly one `None`. */
  lemma {:induction false} CountNullUpdate(s: seq<Value>, p: nat, v: Value)
    requires p < |s| && s[p] == Null && v != Null
    ensures CountNull(s[p := v]) == CountNull(s) - 1
  {
    if p == 0 {
      assert s[p := v][1..] == s[1..];
    } else {
      assert s[p := v][1..] == s[1..][p - 1 := v];
      CountNullUpdate(s[1..], p - 1, v);
    }
  }

  /** The row reader's per-cell flags: 0 for a `None` cell (`read_row` writes False), 1 for any other. */
  function Flags(row: seq<Value>): (f: seq<int>) {
    seq(|row|, i requires 0 <= i < |row| => if row[i] == Null then 0 else 1)
  }

  /** Python's `sum`. */
  function Sum(xs: seq<int>): int {
    if |xs| == 0 then 0 else xs[0] + Sum(xs[1..])
  }

  lemma {:induction false} SumFlagsZero(row: seq<Value>)
    ensures Sum(Flags(row)) >= 0
    ensures Sum(Flags(row)) == 0 <==> forall i :: 0 <= i < |row| ==> row[i] == Null
  {
    if |row| > 0 {
      assert Flags(row)[1..] == Flags(row[1..]);
      SumFlagsZero(row[1..]);
      if forall i :: 0 <= i < |row| ==> row[i] == Null {
        assert forall i :: 0 <= i < |row[1..]| ==> row[1..][i] == row[i + 1];
      }
      if forall i :: 0 <= i < |row[1..]| ==> row[1..][i] == Null {
        if row[0] == Null {
          forall i | 0 <= i < |row|
            ensures row[i] == Null
          {
            if i > 0 {
              assert row[i] == row[1..][i - 1];
            }
          }
        }
      }
    }
  }

  /** The empty-row test of the row reader: `sum(flags) == 0`. */
  function BlankRow(row: seq<Value>): (b: bool)
    ensures b <==> forall i :: 0 <= i < |row| ==> row[i] == Null
  {
    SumFlagsZero(row);
    Sum(Flags(row)) == 0
  }
}
