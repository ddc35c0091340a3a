/** The string helpers the version bump relies on: ASCII digits, decimal
    numerals in both directions (`int(...)` and `str(...)`), and splitting and
    joining on a separator character (`str.split` and `str.join`). */
module Strings {

  /** An ASCII decimal digit. */
  predicate IsDigit(c: char) {
    '0' <= c <= '9'
  }

  predicate AllDigits(s: string) {
    forall i :: 0 <= i < |s| ==> IsDigit(s[i])
  }

  /** A non-empty run of ASCII digits: what `\d+` matches and what
      `str.isdigit()` accepts on ASCII text. */
  predicate IsNumeral(s: string) {
    |s| > 0 && AllDigits(s)
  }

  /** A numeral without a superfluous leading zero: the form `str(n)` produces. */
  predicate IsCanonicalNumeral(s: string) {
    IsNumeral(s) && (s[0] == '0' ==> |s| == 1)
  }

  function DigitValue(c: char): (d: nat)
    requires IsDigit(c)
    ensures d < 10
  {
    c as int - '0' as int
  }

  function DigitChar(d: nat): (c: char)
    requires d < 10
    ensures IsDigit(c) && DigitValue(c) == d
    ensures d == 0 <==> c == '0'
  {
    ('0' as int + d) as char
  }

  /** The value of a numeral read in base ten, as `int(s)` computes it;
      leading zeros contribute nothing. */
  function DecimalValue(s: string): nat
    requires AllDigits(s)
  {
    if |s| == 0 then 0 else 10 * DecimalValue(s[..|s| - 1]) + DigitValue(s[|s| - 1])
  }

  /** `str(n)`: the decimal numeral of n, which reads back as n and has no
      leading zero unless n is zero. */
  function NatToDecimal(n: nat): (r: string)
    ensures IsCanonicalNumeral(r)
    ensures DecimalValue(r) == n
    ensures r[0] == '0' <==> n == 0
  {
    if n < 10 then [DigitChar(n)]
    else
      var front := NatToDecimal(n / 10);
      var r := front + [DigitChar(n % 10)];
      assert r[..|r| - 1] == front;
      r
  }

  /** A numeral whose first digit is not zero denotes a positive number. */
  lemma {:induction false} LeadingDigitPositive(s: string)
    requires IsNumeral(s) && s[0] != '0'
    ensures DecimalValue(s) >= 1
  {
    if |s| > 1 {
      var front := s[..|s| - 1];
      LeadingDigitPositive(front);
    } else {
      assert s[..0] == [];
    }
  }

  /** `str(int(s)) == s` exactly for canonical numerals: together with the
      contract of NatToDecimal, the two are inverse bijections between nat and
      the canonical numerals. */
  lemma {:induction false} DecimalCanonical(s: string)
    requires IsCanonicalNumeral(s)
    ensures NatToDecimal(DecimalValue(s)) == s
  {
    var last := s[|s| - 1];
    var front := s[..|s| - 1];
    if |s| == 1 {
      assert front == [];
      assert DigitChar(DigitValue(last)) == last;
    } else {
      assert front[0] == s[0];
      LeadingDigitPositive(front);
      DecimalCanonical(front);
      var n := DecimalValue(s);
      assert n == 10 * DecimalValue(front) + DigitValue(last);
      assert n / 10 == DecimalValue(front) && n % 10 == DigitValue(last);
      assert DigitChar(DigitValue(last)) == last;
      assert front + [last] == s;
    }
  }

  /** `s.split(sep)`: the pieces of s between the occurrences of sep, in order;
      there is always at least one piece and no piece contains sep. */
  function Split(s: string, sep: char): (parts: seq<string>)
    ensures |parts| >= 1
    ensures forall i :: 0 <= i < |parts| ==> sep !in parts[i]
  {
    if |s| == 0 then [""]
    else
      var rest := Split(s[1..], sep);
      if s[0] == sep then [""] + rest
      else [[s[0]] + rest[0]] + rest[1..]
  }

  /** `sep.join(parts)`. */
  function Join(parts: seq<string>, sep: char): string {
    if |parts| == 0 then ""
    else if |parts| == 1 then parts[0]
    else parts[0] + [sep] + Join(parts[1..], sep)
  }

  /** Joining the pieces of a split gives the original text back. */
  lemma {:induction false} JoinSplit(s: string, sep: char)
    ensures Join(Split(s, sep), sep) == s
  {
    if |s| > 0 {
      var rest := Split(s[1..], sep);
      JoinSplit(s[1..], sep);
      if s[0] == sep {
        assert ([""] + rest)[1..] == rest;
      } else if |rest| > 1 {
        assert ([[s[0]] + rest[0]] + rest[1..])[1..] == rest[1..];
      }
    }
  }

  /** A text without the separator is a single piece. */
  lemma {:induction false} SplitNoSeparator(s: string, sep: char)
    requires sep !in s
    ensures Split(s, sep) == [s]
  {
    if |s| > 0 {
      assert sep !in s[1..];
      SplitNoSeparator(s[1..], sep);
      assert [s[0]] + s[1..] == s;
    }
  }

  /** Splitting distributes over a separator placed between two texts. */
  lemma {:induction false} SplitConcat(x: string, y: string, sep: char)
    ensures Split(x + [sep] + y, sep) == Split(x, sep) + Split(y, sep)
  {
    var s := x + [sep] + y;
    if |x| == 0 {
      assert s[1..] == y;
    } else {
      assert s[1..] == x[1..] + [sep] + y;
      SplitConcat(x[1..], y, sep);
    }
  }

  /** The pieces of a split of pieces joined back are those pieces. */
  lemma {:induction false} SplitJoin(parts: seq<string>, sep: char)
    requires |parts| >= 1
    requires forall i :: 0 <= i < |parts| ==> sep !in parts[i]
    ensures Split(Join(parts, sep), sep) == parts
  {
    if |parts| == 1 {
      SplitNoSeparator(parts[0], sep);
    } else {
      SplitJoin(parts[1..], sep);
      SplitConcat(parts[0], Join(parts[1..], sep), sep);
      SplitNoSeparator(parts[0], sep);
      assert [parts[0]] + parts[1..] == parts;
    }
  }

  /** Joining after appending one more piece appends the separator and that piece. */
  lemma {:induction false} JoinAppend(parts: seq<string>, last: string, sep: char)
    requires |parts| >= 1
    ensures Join(parts + [last], sep) == Join(parts, sep) + [sep] + last
  {
    if |parts| > 1 {
      assert (parts + [last])[1..] == parts[1..] + [last];
      JoinAppend(parts[1..], last, sep);
    }
  }

  /** When a split yields more than one piece, the last piece is the text
      after some occurrence of the separator. */
  lemma {:induction false} SplitLastPiece(s: string, sep: char) returns (i: nat)
    requires |Split(s, sep)| > 1
    ensures i < |s| && s[i] == sep
    ensures Split(s, sep)[|Split(s, sep)| - 1] == s[i + 1..]
  {
    var rest := Split(s[1..], sep);
    if |rest| > 1 {
      var j := SplitLastPiece(s[1..], sep);
      i := j + 1;
      assert s[1..][j + 1..] == s[i + 1..];
    } else {
      JoinSplit(s[1..], sep);
      i := 0;
    }
  }
}
