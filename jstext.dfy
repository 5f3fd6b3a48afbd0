/**
 * The JavaScript built-ins the cell-identifier codec relies on, restricted to
 * integers and ASCII text: printing an integer in decimal (what a template
 * string does with a number), `Number(text)` on digit strings, and
 * `String.prototype.split` with a one-character separator.
 */
module JsText {

  predicate IsDigit(c: char) {
    '0' <= c <= '9'
  }

  predicate AllDigits(s: string) {
    forall i :: 0 <= i < |s| ==> IsDigit(s[i])
  }

  /** A numeral as JavaScript prints a non-negative integer: one or more
      digits, with no leading zero unless the numeral is "0" itself. */
  predicate CanonicalDecimal(s: string) {
    |s| > 0 && AllDigits(s) && (s[0] == '0' ==> |s| == 1)
  }

  function DigitValue(c: char): (d: nat)
    requires IsDigit(c)
    ensures d < 10
  {
    c as int - '0' as int
  }

  function DigitChar(d: nat): (c: char)
    requires d < 10
    ensures IsDigit(c) && DigitValue(c) == d
    ensures c == '0' <==> d == 0
  {
    ('0' as int + d) as char
  }

  /** The number of occurrences of `c` in `s`. */
  function Count(s: string, c: char): nat {
    if s == [] then 0 else (if s[0] == c then 1 else 0) + Count(s[1..], c)
  }

  lemma {:induction false} CountAppend(s: string, t: string, c: char)
    ensures Count(s + t, c) == Count(s, c) + Count(t, c)
  {
    if s != [] {
      assert (s + t)[1..] == s[1..] + t;
      CountAppend(s[1..], t, c);
    } else {
      assert s + t == t;
    }
  }

  lemma {:induction false} CountAbsent(s: string, c: char)
    ensures Count(s, c) == 0 <==> c !in s
  {
    if s != [] {
      CountAbsent(s[1..], c);
      assert s == [s[0]] + s[1..];
    }
  }

  // ---------------------------------------------------------------------
  // Decimal printing and parsing
  // ---------------------------------------------------------------------

  /** The decimal numeral of a non-negative integer, as JavaScript prints it. */
  function NatToDecimal(n: nat): (s: string)
    ensures CanonicalDecimal(s)
    ensures s[0] == '0' <==> n == 0
    decreases n
  {
    if n < 10 then [DigitChar(n)] else NatToDecimal(n / 10) + [DigitChar(n % 10)]
  }

  /** The decimal text of an integer as a JavaScript template string renders
      it: a '-' sign before the magnitude for a negative number. */
  function IntToDecimal(n: int): (s: string)
    ensures n >= 0 ==> CanonicalDecimal(s) && DecimalToNat(s) == n
    ensures n < 0 ==> |s| > 1 && s[0] == '-' && CanonicalDecimal(s[1..]) && s[1] != '0'
    ensures n < 0 ==> CanonicalDecimal(s[1..]) && DecimalToNat(s[1..]) == -n
  {
    if n < 0 then
      DecimalToNatOfNatToDecimal(-n);
      var s := "-" + NatToDecimal(-n);
      assert s[1..] == NatToDecimal(-n);
      s
    else
      DecimalToNatOfNatToDecimal(n);
      NatToDecimal(n)
  }

  /** The value of a string of decimal digits; the empty string is 0. */
  function DecimalToNat(s: string): nat
    requires AllDigits(s)
  {
    if s == [] then 0 else DecimalToNat(s[..|s| - 1]) * 10 + DigitValue(s[|s| - 1])
  }

  /** Printing then reading back a numeral gives the number again. */
  lemma {:induction false} DecimalToNatOfNatToDecimal(n: nat)
    ensures DecimalToNat(NatToDecimal(n)) == n
    decreases n
  {
    var s := NatToDecimal(n);
    if n >= 10 {
      DecimalToNatOfNatToDecimal(n / 10);
      assert s[..|s| - 1] == NatToDecimal(n / 10);
    }
  }

  lemma {:induction false} DecimalToNatPositive(s: string)
    requires CanonicalDecimal(s) && s[0] != '0'
    ensures DecimalToNat(s) >= 1
    decreases |s|
  {
    if |s| > 1 {
      var p := s[..|s| - 1];
      assert p[0] == s[0];
      DecimalToNatPositive(p);
    }
  }

  /** Reading then printing a canonical numeral gives the same text. */
  lemma {:induction false} NatToDecimalOfDecimalToNat(s: string)
    requires CanonicalDecimal(s)
    ensures NatToDecimal(DecimalToNat(s)) == s
    decreases |s|
  {
    if |s| > 1 {
      var p := s[..|s| - 1];
      var last := s[|s| - 1];
      assert p[0] == s[0];
      DecimalToNatPositive(p);
      NatToDecimalOfDecimalToNat(p);
      var n := DecimalToNat(s);
      assert n == DecimalToNat(p) * 10 + DigitValue(last);
      assert n / 10 == DecimalToNat(p) && n % 10 == DigitValue(last);
      assert DigitChar(DigitValue(last)) == last;
      assert s == p + [last];
    } else {
      assert DigitChar(DigitValue(s[0])) == s[0];
    }
  }

  /** A JavaScript number produced by `Number(text)`: an integer value, or
      NaN for text that is not all decimal digits. */
  datatype JsNumber = Num(value: int) | NaN

  /** `Number(text)` on the text of one identifier component. Every string of
      ASCII digits reads as its value (the empty string as 0); any other text
      reads as NaN. */
  function ParseNumber(s: string): (r: JsNumber)
    ensures r.Num? <==> AllDigits(s)
    ensures r.Num? ==> r.value >= 0
    ensures s == [] ==> r == Num(0)
  {
    if AllDigits(s) then Num(DecimalToNat(s)) else NaN
  }

  /** Leading zeros do not change the value a digit string reads as. */
  lemma {:induction false} DecimalToNatLeadingZero(s: string)
    requires AllDigits(s)
    ensures AllDigits(['0'] + s) && DecimalToNat(['0'] + s) == DecimalToNat(s)
    decreases |s|
  {
    var z := ['0'] + s;
    if s == [] {
      assert z[..|z| - 1] == [];
    } else {
      var p := s[..|s| - 1];
      DecimalToNatLeadingZero(p);
      assert z[..|z| - 1] == ['0'] + p;
      assert z[|z| - 1] == s[|s| - 1];
    }
  }

  /** `Number` ignores a leading zero: `Number("0" + s) == Number(s)` for
      every digit string `s` (so `Number("07")` is 7 and `Number("0")` is
      `Number("")`, 0). */
  lemma {:induction false} ParseNumberLeadingZero(s: string)
    requires AllDigits(s)
    ensures ParseNumber(['0'] + s) == ParseNumber(s)
  {
    DecimalToNatLeadingZero(s);
  }

  lemma {:induction false} ParseNumberOfNatToDecimal(n: nat)
    ensures ParseNumber(NatToDecimal(n)) == Num(n)
  {
    DecimalToNatOfNatToDecimal(n);
  }

  // ---------------------------------------------------------------------
  // String.prototype.split and its inverse, Array.prototype.join
  // ---------------------------------------------------------------------

  /** `s.split(sep)` for a one-character separator: the maximal pieces of `s`
      between separators, one more piece than there are separators (so
      `"".split(sep)` is `[""]`, and a leading separator gives an empty first
      piece). */
  function Split(s: string, sep: char): (parts: seq<string>)
    ensures |parts| == Count(s, sep) + 1
    ensures forall i :: 0 <= i < |parts| ==> sep !in parts[i]
    decreases |s|
  {
    if s == [] then [[]]
    else if s[0] == sep then [[]] + Split(s[1..], sep)
    else
      var rest := Split(s[1..], sep);
      [[s[0]] + rest[0]] + rest[1..]
  }

  /** `parts.join(sep)`. */
  function Join(parts: seq<string>, sep: char): string
    decreases |parts|
  {
    if |parts| == 0 then []
    else if |parts| == 1 then parts[0]
    else parts[0] + [sep] + Join(parts[1..], sep)
  }

  /** Joining the pieces of a split gives back the original string. */
  lemma {:induction false} JoinOfSplit(s: string, sep: char)
    ensures Join(Split(s, sep), sep) == s
    decreases |s|
  {
    if s != [] {
      var rest := Split(s[1..], sep);
      JoinOfSplit(s[1..], sep);
      if s[0] == sep {
        assert Split(s, sep)[1..] == rest;
      } else {
        var parts := Split(s, sep);
        assert parts[1..] == rest[1..];
        if |rest| > 1 {
          assert rest[1..][1..] == rest[2..];
          assert Join(rest, sep) == rest[0] + [sep] + Join(rest[1..], sep);
        }
      }
    }
  }

  /** A string with no separator splits into itself alone. */
  lemma {:induction false} SplitWithoutSeparator(s: string, sep: char)
    requires sep !in s
    ensures Split(s, sep) == [s]
    decreases |s|
  {
    if s != [] {
      SplitWithoutSeparator(s[1..], sep);
      assert [s[0]] + s[1..] == s;
    }
  }

  /** A separator-free prefix followed by the separator splits off as the
      first piece. */
  lemma {:induction false} SplitAfterPiece(a: string, b: string, sep: char)
    requires sep !in a
    ensures Split(a + [sep] + b, sep) == [a] + Split(b, sep)
    decreases |a|
  {
    if a == [] {
      assert a + [sep] + b == [sep] + b;
      assert ([sep] + b)[1..] == b;
    } else {
      var s := a + [sep] + b;
      assert s[0] == a[0] && s[1..] == a[1..] + [sep] + b;
      SplitAfterPiece(a[1..], b, sep);
      assert [a[0]] + a[1..] == a;
    }
  }

  /** Splitting a join of separator-free pieces gives back the pieces. */
  lemma {:induction false} SplitOfJoin(parts: seq<string>, sep: char)
    requires |parts| > 0
    requires forall i :: 0 <= i < |parts| ==> sep !in parts[i]
    ensures Split(Join(parts, sep), sep) == parts
    decreases |parts|
  {
    if |parts| == 1 {
      SplitWithoutSeparator(parts[0], sep);
    } else {
      SplitOfJoin(parts[1..], sep);
      SplitAfterPiece(parts[0], Join(parts[1..], sep), sep);
      assert [parts[0]] + parts[1..] == parts;
    }
  }
}
