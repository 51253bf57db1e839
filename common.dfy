/** Vocabulary shared by every part of the model: optional values, the JavaScript
    truthiness of request fields, SQLite's ordering of TEXT values, and the decimal
    digits that grade labels and years are written with. */
module Common {

  datatype Option<T> = None | Some(value: T)

  /** A string field of a request body or query is truthy in JavaScript iff it was
      sent and is not the empty string. */
  predicate Truthy(s: Option<string>)
  {
    s.Some? && s.value != ""
  }

  /** SQLite compares TEXT with the BINARY collation: character by character,
      a proper prefix sorting before every extension of it. */
  predicate TextLe(a: string, b: string)
    decreases |a|
  {
    a == [] || (b != [] && (a[0] < b[0] || (a[0] == b[0] && TextLe(a[1..], b[1..]))))
  }

  lemma {:induction false} TextLeRefl(a: string)
    ensures TextLe(a, a)
    decreases |a|
  {
    if a != [] {
      TextLeRefl(a[1..]);
    }
  }

  lemma {:induction false} TextLeTotal(a: string, b: string)
    ensures TextLe(a, b) || TextLe(b, a)
    decreases |a|
  {
    if a != [] && b != [] && a[0] == b[0] {
      TextLeTotal(a[1..], b[1..]);
    }
  }

  lemma {:induction false} TextLeTrans(a: string, b: string, c: string)
    requires TextLe(a, b) && TextLe(b, c)
    ensures TextLe(a, c)
    decreases |a|
  {
    if a != [] && b != [] && c != [] && a[0] == b[0] && b[0] == c[0] {
      TextLeTrans(a[1..], b[1..], c[1..]);
    }
  }

  lemma {:induction false} TextLeAntisym(a: string, b: string)
    requires TextLe(a, b) && TextLe(b, a)
    ensures a == b
    decreases |a|
  {
    if a != [] && b != [] {
      TextLeAntisym(a[1..], b[1..]);
      assert a == [a[0]] + a[1..] && b == [b[0]] + b[1..];
    }
  }

  predicate IsDigit(c: char)
  {
    '0' <= c <= '9'
  }

  /** The JavaScript regular expression `\d` (without the u flag) matches exactly these. */
  predicate AllDigits(s: string)
  {
    forall i :: 0 <= i < |s| ==> IsDigit(s[i])
  }

  function DigitChar(d: nat): (c: char)
    requires d < 10
    ensures IsDigit(c) && c as int - '0' as int == d
  {
    ('0' as int + d) as char
  }

  /** The number a string of decimal digits denotes; `parseInt` reads this value from
      the leading digits of a grade label. */
  function DigitsValue(s: string): nat
    requires AllDigits(s)
    decreases |s|
  {
    if s == [] then 0 else DigitsValue(s[..|s| - 1]) * 10 + (s[|s| - 1] as int - '0' as int)
  }

  /** The shortest decimal spelling of n, as a JavaScript template literal writes an integer. */
  function Decimal(n: nat): string
    decreases n
  {
    if n < 10 then [DigitChar(n)] else Decimal(n / 10) + [DigitChar(n % 10)]
  }

  lemma {:induction false} DecimalRoundTrip(n: nat)
    ensures AllDigits(Decimal(n)) && DigitsValue(Decimal(n)) == n
    decreases n
  {
    if n >= 10 {
      DecimalRoundTrip(n / 10);
      var d := Decimal(n);
      assert d[..|d| - 1] == Decimal(n / 10);
    }
  }

  /** Every year from 1000 to 9999 is spelled with exactly four digits. */
  lemma FourDigitYear(n: nat)
    requires 1000 <= n <= 9999
    ensures |Decimal(n)| == 4 && AllDigits(Decimal(n)) && DigitsValue(Decimal(n)) == n
  {
    DecimalRoundTrip(n);
    assert |Decimal(n / 1000)| == 1;
    assert |Decimal(n / 100)| == 2 by { assert n / 100 / 10 == n / 1000; }
    assert |Decimal(n / 10)| == 3 by { assert n / 10 / 10 == n / 100; }
  }

  /** The first at most n elements, as SQL's `LIMIT n` keeps them. */
  function Take<T>(s: seq<T>, n: nat): (r: seq<T>)
    ensures |r| <= n && |r| <= |s|
    ensures |r| == if |s| < n then |s| else n
    ensures forall i :: 0 <= i < |r| ==> r[i] == s[i]
  {
    if |s| <= n then s else s[..n]
  }

  /** "第n行：", the head of every message about a worksheet row. */
  function RowPrefix(n: nat): string
  {
    "第" + Decimal(n) + "行："
  }
}
