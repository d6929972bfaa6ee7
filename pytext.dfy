/**
 * The Python `str` operations that findk4.py applies to a reply:
 * `split` on a one-character delimiter, `zfill` and the `%d` conversion
 * of a non-negative count.
 */
module PyText {

  /** `s.split(sep)` for a one-character separator: the text between
      consecutive separators, empty fields included; `"".split(":")` is `[""]`. */
  function Split(s: string, sep: char): (fields: seq<string>)
    ensures |fields| >= 1
    ensures forall i :: 0 <= i < |fields| ==> sep !in fields[i]
    ensures Join(fields, sep) == s
    decreases |s|
  {
    if s == [] then [""]
    else
      var rest := Split(s[1..], sep);
      if s[0] == sep then
        assert ([""] + rest)[1..] == rest;
        [""] + rest
      else
        var fields := [[s[0]] + rest[0]] + rest[1..];
        assert fields[1..] == rest[1..];
        assert s == [s[0]] + s[1..];
        fields
  }

  /** `sep.join(fields)`: the fields with one separator between neighbours. */
  function Join(fields: seq<string>, sep: char): string
    requires |fields| >= 1
    decreases |fields|
  {
    if |fields| == 1 then fields[0] else fields[0] + [sep] + Join(fields[1..], sep)
  }

  /** The number of positions of `s` that hold `c`. */
  function Occurrences(s: string, c: char): nat
    decreases |s|
  {
    if s == [] then 0 else (if s[0] == c then 1 else 0) + Occurrences(s[1..], c)
  }

  /** `split` yields one field more than there are separators. */
  lemma {:induction false} SplitFieldCount(s: string, sep: char)
    ensures |Split(s, sep)| == Occurrences(s, sep) + 1
    decreases |s|
  {
    if s != [] {
      SplitFieldCount(s[1..], sep);
    }
  }

  /** Splitting text that starts with a separator-free piece `p` glues `p`
      onto the first field of the rest. */
  lemma {:induction false} SplitAfterPiece(p: string, x: string, sep: char)
    requires sep !in p
    ensures Split(p + x, sep) == [p + Split(x, sep)[0]] + Split(x, sep)[1..]
    decreases |p|
  {
    if p != [] {
      assert (p + x)[1..] == p[1..] + x;
      assert (p + x)[0] == p[0];
      SplitAfterPiece(p[1..], x, sep);
      assert [p[0]] + (p[1..] + Split(x, sep)[0]) == p + Split(x, sep)[0];
    } else {
      assert p + x == x;
      assert p + Split(x, sep)[0] == Split(x, sep)[0];
      assert Split(x, sep) == [Split(x, sep)[0]] + Split(x, sep)[1..];
    }
  }

  /** `split` undoes `join` whenever no field holds the separator: the
      fields of a joined text are exactly the joined fields. */
  lemma {:induction false} SplitJoin(fields: seq<string>, sep: char)
    requires |fields| >= 1
    requires forall i :: 0 <= i < |fields| ==> sep !in fields[i]
    ensures Split(Join(fields, sep), sep) == fields
    decreases |fields|
  {
    if |fields| == 1 {
      SplitAfterPiece(fields[0], "", sep);
      assert fields[0] + "" == fields[0];
    } else {
      var rest := Join(fields[1..], sep);
      SplitJoin(fields[1..], sep);
      assert ([sep] + rest)[1..] == rest;
      assert Split([sep] + rest, sep) == [""] + fields[1..];
      assert fields[0] + [sep] + rest == fields[0] + ([sep] + rest);
      SplitAfterPiece(fields[0], [sep] + rest, sep);
      assert fields[0] + "" == fields[0];
      assert fields == [fields[0]] + fields[1..];
    }
  }

  /** The first field of `split` begins with any separator-free prefix of the text. */
  lemma {:induction false} SplitKeepsPrefix(p: string, x: string, sep: char)
    requires sep !in p
    ensures |p| <= |Split(p + x, sep)[0]| && Split(p + x, sep)[0][..|p|] == p
  {
    SplitAfterPiece(p, x, sep);
    assert (p + Split(x, sep)[0])[..|p|] == p;
  }

  /** A run of `n` zero characters. */
  function Zeros(n: nat): (z: string)
    ensures |z| == n && forall i :: 0 <= i < n ==> z[i] == '0'
  {
    seq(n, i => '0')
  }

  /** `s.zfill(width)` computed the way CPython does it: a string at least
      `width` long is returned as it is; otherwise it is padded on the left
      with `'0'` and, when the character the original started with is a
      sign, that sign is moved back in front of the zeros. */
  function ZFill(s: string, width: nat): (r: string)
    ensures |r| == if |s| >= width then |s| else width
    ensures |s| >= width ==> r == s
  {
    if |s| >= width then s
    else
      var fill := width - |s|;
      var padded := Zeros(fill) + s;
      if s != [] && (padded[fill] == '+' || padded[fill] == '-') then
        padded[0 := padded[fill]][fill := '0']
      else
        padded
  }

  /** Whether `s` opens with a `+` or `-` sign; `zfill` keeps such a sign first. */
  function SignLength(s: string): (k: nat)
    ensures k <= |s| && k <= 1
  {
    if s != [] && (s[0] == '+' || s[0] == '-') then 1 else 0
  }

  /** A short string is padded by inserting zeros after its sign, if it has
      one, and nothing else changes. */
  lemma ZFillInsertsZeros(s: string, width: nat)
    requires |s| < width
    ensures ZFill(s, width) == s[..SignLength(s)] + Zeros(width - |s|) + s[SignLength(s)..]
  {
    var fill := width - |s|;
    var k := SignLength(s);
    var r := ZFill(s, width);
    var want := s[..k] + Zeros(fill) + s[k..];
    assert |r| == |want|;
    forall i | 0 <= i < |r|
      ensures r[i] == want[i]
    {
      if k == 1 {
        if i == 0 {
        } else if i <= fill {
          assert want[i] == Zeros(fill)[i - 1];
        } else {
          assert want[i] == s[k..][i - 1 - fill];
        }
      } else {
        if i >= fill {
          assert want[i] == s[i - fill];
        }
      }
    }
  }

  predicate IsDigit(c: char) { '0' <= c <= '9' }

  predicate IsDigits(s: string) { forall i :: 0 <= i < |s| ==> IsDigit(s[i]) }

  /** The number that a string of decimal digits denotes (0 for the empty string). */
  function DigitsValue(s: string): int
    decreases |s|
  {
    if s == [] then 0 else DigitsValue(s[..|s| - 1]) * 10 + (s[|s| - 1] as int - '0' as int)
  }

  /** Zeros in front of a digit string do not change the number it denotes. */
  lemma {:induction false} LeadingZerosValue(n: nat, s: string)
    ensures DigitsValue(Zeros(n) + s) == DigitsValue(s)
    decreases |s| + n
  {
    if s == [] {
      assert Zeros(n) + s == Zeros(n);
      if n > 0 {
        assert Zeros(n)[..n - 1] == Zeros(n - 1);
        LeadingZerosValue(n - 1, "");
        assert Zeros(n - 1) + "" == Zeros(n - 1);
      }
    } else {
      var t := Zeros(n) + s;
      assert t[..|t| - 1] == Zeros(n) + s[..|s| - 1];
      LeadingZerosValue(n, s[..|s| - 1]);
    }
  }

  /** Zero-padding a serial number made of digits keeps it made of digits
      and keeps the number it denotes: `zfill` pads without converting. */
  lemma ZFillKeepsValue(s: string, width: nat)
    requires IsDigits(s)
    ensures IsDigits(ZFill(s, width))
    ensures DigitsValue(ZFill(s, width)) == DigitsValue(s)
  {
    if |s| < width {
      ZFillInsertsZeros(s, width);
      assert SignLength(s) == 0 by {
        if s != [] { assert IsDigit(s[0]); }
      }
      assert ZFill(s, width) == Zeros(width - |s|) + s;
      LeadingZerosValue(width - |s|, s);
    }
  }

  /** The decimal digit for `d`. */
  function Digit(d: nat): char
    requires d < 10
  {
    ('0' as int + d) as char
  }

  /** `"%d" % n` for a non-negative `n`: its decimal numeral, without
      leading zeros. */
  function Decimal(n: nat): (r: string)
    ensures |r| >= 1 && IsDigits(r)
    ensures |r| > 1 ==> r[0] != '0'
    decreases n
  {
    if n < 10 then [Digit(n)] else Decimal(n / 10) + [Digit(n % 10)]
  }

  /** The numeral that `%d` prints denotes the number printed. */
  lemma {:induction false} DecimalValue(n: nat)
    ensures DigitsValue(Decimal(n)) == n
    decreases n
  {
    if n >= 10 {
      var r := Decimal(n);
      assert r[..|r| - 1] == Decimal(n / 10);
      DecimalValue(n / 10);
    }
  }

  /** Two digit strings each followed by a non-digit agree when the texts do. */
  lemma {:induction false} DigitPrefixUnique(a: string, x: string, b: string, y: string)
    requires IsDigits(a) && IsDigits(b)
    requires x != [] && !IsDigit(x[0]) && y != [] && !IsDigit(y[0])
    requires a + x == b + y
    ensures a == b
    decreases |a|
  {
    if a == [] || b == [] {
      assert (a + x)[0] == (b + y)[0];
    } else {
      assert (a + x)[0] == a[0] && (b + y)[0] == b[0];
      assert (a + x)[1..] == a[1..] + x && (b + y)[1..] == b[1..] + y;
      DigitPrefixUnique(a[1..], x, b[1..], y);
      assert a == [a[0]] + a[1..] && b == [b[0]] + b[1..];
    }
  }
}
