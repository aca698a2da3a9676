/** The few string operations the address parsers are built from: Python's
    `str.split`, the ASCII-digit test `isascii() and isdigit()`, `int(s, 10)`
    and `str(n)`. */
module Text {

  predicate IsDigit(c: char) {
    '0' <= c <= '9'
  }

  /** `s.isascii() and s.isdigit()`: non-empty and made of ASCII digits only. */
  predicate IsDecimal(s: string) {
    |s| > 0 && forall i :: 0 <= i < |s| ==> IsDigit(s[i])
  }

  function DigitValue(c: char): (d: nat)
    requires IsDigit(c)
    ensures d < 10
  {
    c as int - '0' as int
  }

  function DigitChar(d: nat): (c: char)
    requires d < 10
    ensures IsDigit(c) && DigitValue(c) == d
  {
    ('0' as int + d) as char
  }

  /** `int(s, 10)` on a string of ASCII digits (leading zeros allowed). */
  function DecimalValue(s: string): nat
    requires forall i :: 0 <= i < |s| ==> IsDigit(s[i])
  {
    if s == [] then 0 else 10 * DecimalValue(s[..|s| - 1]) + DigitValue(s[|s| - 1])
  }

  /** `str(n)`: the decimal digits of `n`, without leading zeros. */
  function FormatDecimal(n: nat): (r: string)
    ensures IsDecimal(r)
  {
    if n < 10 then [DigitChar(n)] else FormatDecimal(n / 10) + [DigitChar(n % 10)]
  }

  /** `s.split(sep)`: the maximal pieces of `s` between separators, empty pieces included. */
  function Split(s: string, sep: char): (r: seq<string>)
    ensures |r| >= 1 && forall k :: 0 <= k < |r| ==> sep !in r[k]
  {
    if s == [] then [""]
    else
      var rest := Split(s[1..], sep);
      if s[0] == sep then [""] + rest else [[s[0]] + rest[0]] + rest[1..]
  }

  /** `sep.join(parts)`. */
  function Join(parts: seq<string>, sep: char): (r: string)
    requires |parts| > 0
    ensures |parts[0]| <= |r| && r[..|parts[0]|] == parts[0]
  {
    if |parts| == 1 then parts[0] else parts[0] + [sep] + Join(parts[1..], sep)
  }

  predicate StartsWith(s: string, prefix: string) {
    |prefix| <= |s| && s[..|prefix|] == prefix
  }

  // ---------------------------------------------------------------------------
  // Decimal numerals

  /** `str` and `int` are inverse: the formatted numeral is all digits and reads back as `n`,
      and it has a leading zero only when it is "0". */
  lemma {:induction false} FormatDecimalReadsBack(n: nat)
    ensures IsDecimal(FormatDecimal(n))
    ensures DecimalValue(FormatDecimal(n)) == n
    ensures FormatDecimal(n)[0] == '0' ==> FormatDecimal(n) == "0"
  {
    if n >= 10 {
      FormatDecimalReadsBack(n / 10);
      var s := FormatDecimal(n / 10) + [DigitChar(n % 10)];
      assert s[..|s| - 1] == FormatDecimal(n / 10);
      assert s[0] == FormatDecimal(n / 10)[0];
    }
  }

  /** A number below 1000 has one to three decimal digits. */
  lemma FormatDecimalLength(n: nat)
    requires n < 1000
    ensures 1 <= |FormatDecimal(n)| <= 3
  {
    if n >= 10 {
      assert n / 10 < 100;
      if n / 10 >= 10 {
        assert n / 100 < 10;
      }
    }
  }

  /** A numeral without a leading zero that starts with a non-zero digit has a positive value. */
  lemma {:induction false} LeadingDigitPositive(s: string)
    requires IsDecimal(s) && s[0] != '0'
    ensures DecimalValue(s) >= 1
  {
    if |s| > 1 {
      LeadingDigitPositive(s[..|s| - 1]);
    }
  }

  /** Every canonical numeral (digits only, no leading zero unless it is "0") is `str` of its value. */
  lemma {:induction false} CanonicalNumeral(s: string)
    requires IsDecimal(s)
    requires s[0] == '0' ==> |s| == 1
    ensures FormatDecimal(DecimalValue(s)) == s
  {
    var init := s[..|s| - 1];
    if |s| == 1 {
      assert init == [];
    } else {
      LeadingDigitPositive(init);
      CanonicalNumeral(init);
      var n := DecimalValue(s);
      assert n / 10 == DecimalValue(init) && n % 10 == DigitValue(s[|s| - 1]);
      assert s == init + [s[|s| - 1]];
    }
  }

  // ---------------------------------------------------------------------------
  // Splitting and joining

  lemma {:induction false} SplitNonEmpty(s: string, sep: char)
    ensures |Split(s, sep)| >= 1
  {
    if s != [] {
      SplitNonEmpty(s[1..], sep);
    }
  }

  /** The pieces never contain the separator, and joining them gives back the string. */
  lemma {:induction false} JoinSplit(s: string, sep: char)
    ensures |Split(s, sep)| >= 1
    ensures forall k :: 0 <= k < |Split(s, sep)| ==> sep !in Split(s, sep)[k]
    ensures Join(Split(s, sep), sep) == s
  {
    if s != [] {
      JoinSplit(s[1..], sep);
      var rest := Split(s[1..], sep);
      if s[0] == sep {
        assert Split(s, sep) == [""] + rest;
        assert Split(s, sep)[1..] == rest;
      } else {
        var parts := Split(s, sep);
        assert parts[1..] == rest[1..];
        if |rest| > 1 {
          assert Join(rest, sep) == rest[0] + [sep] + Join(rest[1..], sep);
        }
      }
    }
  }

  /** Splitting a join of separator-free pieces gives the pieces back. */
  lemma {:induction false} SplitJoin(parts: seq<string>, sep: char)
    requires |parts| >= 1
    requires forall k :: 0 <= k < |parts| ==> sep !in parts[k]
    ensures Split(Join(parts, sep), sep) == parts
  {
    if |parts| == 1 {
      SplitNoSeparator(parts[0], sep);
    } else {
      SplitJoin(parts[1..], sep);
      SplitAppend(parts[0], Join(parts[1..], sep), sep);
    }
  }

  /** A string without the separator is a single piece. */
  lemma {:induction false} SplitNoSeparator(s: string, sep: char)
    requires sep !in s
    ensures Split(s, sep) == [s]
  {
    if s != [] {
      assert s[0] != sep && sep !in s[1..];
      SplitNoSeparator(s[1..], sep);
      assert [s[0]] + s[1..] == s;
    }
  }

  /** Splitting `a + [sep] + b` for a separator-free `a`. */
  lemma {:induction false} SplitAppend(a: string, b: string, sep: char)
    requires sep !in a
    ensures Split(a + [sep] + b, sep) == [a] + Split(b, sep)
  {
    if a == [] {
      assert a + [sep] + b == [sep] + b;
      assert ([sep] + b)[1..] == b;
    } else {
      SplitAppend(a[1..], b, sep);
      assert (a + [sep] + b)[1..] == a[1..] + [sep] + b;
      assert [a[0]] + a[1..] == a;
    }
  }

  /** A string with no separator splits into itself alone, and any string
      containing the separator splits into two or more pieces. */
  lemma {:induction false} SplitSingle(s: string, sep: char)
    ensures |Split(s, sep)| == 1 <==> sep !in s
  {
    if s != [] {
      SplitSingle(s[1..], sep);
      SplitNonEmpty(s[1..], sep);
    }
  }

  /** A character that is not a digit does not occur in a numeral. */
  lemma DecimalExcludes(s: string, c: char)
    requires IsDecimal(s) && !IsDigit(c)
    ensures c !in s
  {
  }

  /** Joining pieces free of `c` with a separator other than `c` gives a string free of `c`. */
  lemma {:induction false} JoinExcludes(parts: seq<string>, sep: char, c: char)
    requires |parts| > 0 && c != sep
    requires forall k :: 0 <= k < |parts| ==> c !in parts[k]
    ensures c !in Join(parts, sep)
  {
    if |parts| > 1 {
      JoinExcludes(parts[1..], sep, c);
      assert c !in parts[0];
    }
  }

  /** Every character of the first piece occurs in the joined string. */
  lemma JoinIncludesFirst(parts: seq<string>, sep: char, c: char)
    requires |parts| > 0 && c in parts[0]
    ensures c in Join(parts, sep)
  {
    if |parts| > 1 {
      assert Join(parts, sep)[..|parts[0]|] == parts[0];
    }
  }
}
