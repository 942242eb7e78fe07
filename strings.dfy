/**
 * The Python string built-ins the image handler relies on, restricted to
 * the forms it uses: `str.rfind`, `str.split`, `str(int)`, `int(str)` and
 * `str.upper`.
 */
module Strings {
  import opened Wrappers

  /** Index of the last occurrence of `c` in `s`, or -1 when there is none (`str.rfind`). */
  function RFind(s: string, c: char): (r: int)
    ensures -1 <= r < |s|
    ensures r >= 0 ==> s[r] == c
    ensures forall k :: r < k < |s| ==> s[k] != c
  {
    if |s| == 0 then -1
    else if s[|s| - 1] == c then |s| - 1
    else RFind(s[..|s| - 1], c)
  }

  /** `s.split(sep)`: the pieces of `s` between occurrences of `sep`; never empty. */
  function Split(s: string, sep: char): (parts: seq<string>)
    ensures |parts| >= 1
    ensures forall i :: 0 <= i < |parts| ==> sep !in parts[i]
    ensures |parts| == 1 ==> parts[0] == s
  {
    if s == [] then [[]]
    else
      var rest := Split(s[1..], sep);
      if s[0] == sep then [[]] + rest
      else [[s[0]] + rest[0]] + rest[1..]
  }

  /** `sep.join(parts)`: the inverse of `Split`. */
  function Join(parts: seq<string>, sep: char): string
    requires |parts| >= 1
  {
    if |parts| == 1 then parts[0] else parts[0] + [sep] + Join(parts[1..], sep)
  }

  /** Joining the pieces of a split gives back the original string. */
  lemma {:induction false} JoinSplit(s: string, sep: char)
    ensures Join(Split(s, sep), sep) == s
  {
    if s != [] {
      var rest := Split(s[1..], sep);
      JoinSplit(s[1..], sep);
      if s[0] == sep {
        assert Split(s, sep)[1..] == rest;
      } else {
        var parts := Split(s, sep);
        if |rest| > 1 {
          assert parts[1..] == rest[1..];
          assert Join(rest, sep) == rest[0] + [sep] + Join(rest[1..], sep);
          assert s == [s[0]] + s[1..];
        }
      }
    }
  }

  /** Splitting `a + sep + b` where `a` holds no separator peels `a` off the front. */
  lemma {:induction false} SplitCons(a: string, sep: char, b: string)
    requires sep !in a
    ensures Split(a + [sep] + b, sep) == [a] + Split(b, sep)
  {
    if a == [] {
      assert a + [sep] + b == [sep] + b;
      assert ([sep] + b)[1..] == b;
    } else {
      SplitCons(a[1..], sep, b);
      assert (a + [sep] + b)[1..] == a[1..] + [sep] + b;
      assert [a[0]] + a[1..] == a;
    }
  }

  /** Splitting a join of separator-free pieces gives back the pieces. */
  lemma {:induction false} SplitJoin(parts: seq<string>, sep: char)
    requires |parts| >= 1
    requires forall i :: 0 <= i < |parts| ==> sep !in parts[i]
    ensures Split(Join(parts, sep), sep) == parts
  {
    if |parts| == 1 {
      SplitNoSeparator(parts[0], sep);
    } else {
      SplitJoin(parts[1..], sep);
      SplitCons(parts[0], sep, Join(parts[1..], sep));
      assert [parts[0]] + parts[1..] == parts;
    }
  }

  /** A string without the separator splits into itself alone. */
  lemma {:induction false} SplitNoSeparator(s: string, sep: char)
    requires sep !in s
    ensures Split(s, sep) == [s]
  {
    if s != [] {
      SplitNoSeparator(s[1..], sep);
      assert [s[0]] + s[1..] == s;
    }
  }

  /** The last piece of a split is everything after the last separator: `s.split(sep)[-1]`. */
  lemma {:induction false} LastPiece(s: string, sep: char)
    ensures var parts := Split(s, sep); parts[|parts| - 1] == s[RFind(s, sep) + 1..] && sep !in parts[|parts| - 1]
  {
    var parts := Split(s, sep);
    var last := parts[|parts| - 1];
    LastPieceIsSuffix(s, sep);
    var r := RFind(s, sep);
    var start := |s| - |last|;
    forall k | start <= k < |s| ensures s[k] != sep {
      assert s[k] == last[k - start];
    }
    if start > 0 {
      assert s[start - 1] == sep;
    }
    assert r == start - 1;
  }

  lemma {:induction false} LastPieceIsSuffix(s: string, sep: char)
    ensures var parts := Split(s, sep); var last := parts[|parts| - 1];
      |last| <= |s| && s[|s| - |last|..] == last && (|last| == |s| || s[|s| - |last| - 1] == sep)
      && (|parts| > 1 ==> |last| < |s|)
  {
    if s != [] {
      LastPieceIsSuffix(s[1..], sep);
      var rest := Split(s[1..], sep);
      var parts := Split(s, sep);
      if s[0] == sep {
        assert parts[|parts| - 1] == rest[|rest| - 1];
      } else if |rest| > 1 {
        assert parts[|parts| - 1] == rest[|rest| - 1];
      } else {
        assert parts[|parts| - 1] == s;
      }
    }
  }

  predicate IsDigit(c: char) {
    '0' <= c <= '9'
  }

  predicate AllDigits(s: string) {
    forall i :: 0 <= i < |s| ==> IsDigit(s[i])
  }

  function DigitChar(d: nat): (c: char)
    requires d < 10
    ensures IsDigit(c) && c as int - '0' as int == d
  {
    ('0' as int + d) as char
  }

  /** The decimal digits of `n` without a sign, most significant first, no leading zero. */
  function NatDigits(n: nat): (s: string)
    ensures |s| >= 1 && AllDigits(s)
    ensures |s| > 1 ==> s[0] != '0'
  {
    if n < 10 then [DigitChar(n)] else NatDigits(n / 10) + [DigitChar(n % 10)]
  }

  /** `str(n)` for an integer `n`. */
  function Decimal(n: int): (s: string)
    ensures n >= 0 ==> |s| >= 1 && AllDigits(s)
    ensures n < 0 ==> |s| >= 2 && s[0] == '-' && AllDigits(s[1..])
    ensures |s| > 1 && s[0] != '-' ==> s[0] != '0'
    ensures n < 0 && |s| > 2 ==> s[1] != '0'
  {
    if n < 0 then "-" + NatDigits(-n) else NatDigits(n)
  }

  /** The value of a string of decimal digits. */
  function DigitsValue(s: string): nat
    requires AllDigits(s)
  {
    if s == [] then 0 else DigitsValue(s[..|s| - 1]) * 10 + (s[|s| - 1] as int - '0' as int)
  }

  /**
   * The most decimal digits `int` and `str` convert between (CPython's
   * default integer string conversion limit); beyond it both raise `ValueError`.
   */
  const MaxStrDigits := 4300

  /** `str(n)` stays within the digit limit. */
  predicate WithinDigitLimit(n: int) {
    |NatDigits(if n < 0 then -n else n)| <= MaxStrDigits
  }

  /** A number has at most one more digit than its value. */
  lemma {:induction false} FewDigits(n: nat)
    ensures |NatDigits(n)| <= n + 1
  {
    if n >= 10 {
      FewDigits(n / 10);
    }
  }

  /** Every number below the limit in magnitude, status codes included, prints within it. */
  lemma SmallWithinLimit(n: int)
    requires -MaxStrDigits < n < MaxStrDigits
    ensures WithinDigitLimit(n)
  {
    FewDigits(if n < 0 then -n else n);
  }

  /** An optional sign followed by one to `MaxStrDigits` ASCII digits. */
  predicate IsIntLiteral(s: string) {
    || (0 < |s| <= MaxStrDigits && AllDigits(s))
    || (1 < |s| <= MaxStrDigits + 1 && (s[0] == '-' || s[0] == '+') && AllDigits(s[1..]))
  }

  /**
   * `int(s)` for a base-10 string: an optional sign followed by one or more
   * ASCII digits, at most `MaxStrDigits` of them; anything else is the
   * `ValueError` case, `None`.
   */
  function ParseInt(s: string): (r: Option<int>)
    ensures r.Some? <==> IsIntLiteral(s)
    ensures r.Some? && r.value < 0 ==> s[0] == '-'
    ensures r.Some? && s[0] != '-' ==> r.value >= 0
  {
    if |s| > 0 && (s[0] == '-' || s[0] == '+') then
      var digits := s[1..];
      if 0 < |digits| <= MaxStrDigits && AllDigits(digits) then
        var value: int := DigitsValue(digits);
        Some(if s[0] == '-' then -value else value)
      else None
    else if 0 < |s| <= MaxStrDigits && AllDigits(s) then Some(DigitsValue(s))
    else None
  }

  lemma {:induction false} NatDigitsValue(n: nat)
    ensures DigitsValue(NatDigits(n)) == n
  {
    if n >= 10 {
      NatDigitsValue(n / 10);
      var s := NatDigits(n);
      assert s[..|s| - 1] == NatDigits(n / 10);
    }
  }

  /** `int(str(n)) == n`: printing an integer and parsing it back is the identity. */
  lemma ParseDecimal(n: int)
    requires WithinDigitLimit(n)
    ensures ParseInt(Decimal(n)) == Some(n)
  {
    if n < 0 {
      var digits := NatDigits(-n);
      NatDigitsValue(-n);
      var s := Decimal(n);
      assert s == "-" + digits && s[0] == '-' && s[1..] == digits;
      assert |digits| > 0 && AllDigits(digits);
    } else {
      var digits := NatDigits(n);
      NatDigitsValue(n);
      assert Decimal(n) == digits && digits[0] != '-' && digits[0] != '+';
    }
  }

  /** `str` is injective on integers. */
  lemma DecimalInjective(a: int, b: int)
    requires Decimal(a) == Decimal(b)
    ensures a == b
  {
    var da := NatDigits(if a < 0 then -a else a);
    var db := NatDigits(if b < 0 then -b else b);
    NatDigitsValue(if a < 0 then -a else a);
    NatDigitsValue(if b < 0 then -b else b);
    if (a < 0) != (b < 0) {
      assert false;
    } else if a < 0 {
      assert da == Decimal(a)[1..] == Decimal(b)[1..] == db;
    }
  }

  predicate IsLower(c: char) {
    'a' <= c <= 'z'
  }

  function UpperChar(c: char): char {
    if IsLower(c) then (c as int - 32) as char else c
  }

  /** `s.upper()` on ASCII letters. */
  function Upper(s: string): (u: string)
    ensures |u| == |s|
    ensures forall i :: 0 <= i < |u| ==> !IsLower(u[i])
    ensures forall i :: 0 <= i < |u| && !IsLower(s[i]) ==> u[i] == s[i]
    ensures forall i :: 0 <= i < |u| && IsLower(s[i]) ==> 'A' <= u[i] <= 'Z' && u[i] as int - 'A' as int == s[i] as int - 'a' as int
  {
    seq(|s|, i requires 0 <= i < |s| => UpperChar(s[i]))
  }
}
