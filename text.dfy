/** The string operations Python performs on file names and column labels:
    `str(int)`, `float(text)` for the forms this program writes, `str.split`,
    `str.endswith`, the substring test `in`, and `sorted` on strings. */
module Text {
  import opened Wrappers

  predicate IsDigit(c: char) {
    '0' <= c <= '9'
  }

  predicate AllDigits(s: string) {
    forall i :: 0 <= i < |s| ==> IsDigit(s[i])
  }

  function DigitChar(d: nat): (c: char)
    requires d < 10
    ensures IsDigit(c) && c as int - '0' as int == d
  {
    (d + '0' as int) as char
  }

  function Pow10(n: nat): (p: nat)
    ensures p >= 1
  {
    if n == 0 then 1 else 10 * Pow10(n - 1)
  }

  /** The number a string of decimal digits denotes. */
  function DigitsValue(s: string): nat
    requires AllDigits(s)
  {
    if s == [] then 0 else 10 * DigitsValue(s[..|s| - 1]) + (s[|s| - 1] as int - '0' as int)
  }

  /** Python's `str(n)` for a non-negative integer. */
  function NatToString(n: nat): (s: string)
    ensures |s| > 0 && AllDigits(s)
  {
    if n < 10 then [DigitChar(n)] else NatToString(n / 10) + [DigitChar(n % 10)]
  }

  /** Python's `str(n)` for any integer. */
  function IntToString(n: int): (s: string)
    ensures |s| > 0
  {
    if n < 0 then "-" + NatToString(-n) else NatToString(n)
  }

  /** Python's `f'{n:02}'` for a non-negative integer: at least two digits. */
  function ZeroPad2(n: nat): (s: string)
    ensures AllDigits(s)
    ensures n < 100 ==> |s| == 2
  {
    if n < 10 then ['0'] + NatToString(n)
    else
      assert n < 100 ==> |NatToString(n / 10)| == 1;
      NatToString(n)
  }

  lemma {:induction false} NatToStringValue(n: nat)
    ensures DigitsValue(NatToString(n)) == n
  {
    if n >= 10 {
      NatToStringValue(n / 10);
      var s := NatToString(n);
      assert s[..|s| - 1] == NatToString(n / 10);
    }
  }

  lemma {:induction false} DigitsValueAppend(a: string, b: string)
    requires AllDigits(a) && AllDigits(b)
    ensures AllDigits(a + b)
    ensures DigitsValue(a + b) == DigitsValue(a) * Pow10(|b|) + DigitsValue(b)
    decreases |b|
  {
    assert AllDigits(a + b) by {
      forall i | 0 <= i < |a + b| ensures IsDigit((a + b)[i]) {
        if i >= |a| { assert (a + b)[i] == b[i - |a|]; }
      }
    }
    if b == [] {
      assert a + b == a;
    } else {
      var b' := b[..|b| - 1];
      var d := b[|b| - 1] as int - '0' as int;
      assert (a + b)[..|a + b| - 1] == a + b';
      assert (a + b)[|a + b| - 1] == b[|b| - 1];
      DigitsValueAppend(a, b');
      assert DigitsValue(a + b) == 10 * DigitsValue(a + b') + d;
      assert DigitsValue(b) == 10 * DigitsValue(b') + d;
      assert Pow10(|b|) == 10 * Pow10(|b'|);
      ShiftDigit(DigitsValue(a), Pow10(|b'|), DigitsValue(b'), d);
    }
  }

  /** Appending a digit multiplies by ten and adds it. */
  lemma ShiftDigit(x: int, p: int, y: int, d: int)
    ensures 10 * (x * p + y) + d == x * (10 * p) + (10 * y + d)
  {
    assert 10 * (x * p) == x * (10 * p);
  }

  /** The two-digit month in a file name reads back as the month. */
  lemma ZeroPad2Value(n: nat)
    requires n < 100
    ensures DigitsValue(ZeroPad2(n)) == n
  {
    NatToStringValue(n);
    if n < 10 {
      DigitsValueAppend("0", NatToString(n));
      assert DigitsValue("0") == 0 by { assert "0"[..0] == ""; }
    }
  }

  /** Python's `float(s)` for an optional sign followed by digits with at most one
      decimal point and at least one digit; `None` stands for the `ValueError`. */
  function ParseNumber(s: string): (r: Option<real>)
  {
    if |s| > 0 && (s[0] == '-' || s[0] == '+') then
      match ParseUnsigned(s[1..])
      case Some(v) => Some(if s[0] == '-' then -v else v)
      case None => None
    else
      ParseUnsigned(s)
  }

  function ParseUnsigned(s: string): Option<real>
  {
    var parts := Split(s, '.');
    if |parts| == 1 then
      if parts[0] != [] && AllDigits(parts[0]) then Some(DigitsValue(parts[0]) as real) else None
    else if |parts| == 2 && AllDigits(parts[0]) && AllDigits(parts[1]) && |parts[0]| + |parts[1]| > 0 then
      Some(DigitsValue(parts[0]) as real + Scaled(DigitsValue(parts[1]), |parts[1]|))
    else
      None
  }

  /** `n * 10^-p`: the value of `p` fraction digits that read as `n`. */
  function Scaled(n: nat, p: nat): real {
    n as real / Pow10(p) as real
  }

  /** Python's `str(x)` of a float equal to `k / 10` printed with one decimal, and also
      `format(x, '.1f')`: an optional minus, the whole part, a point, one digit. */
  function DecimalString(negative: bool, k: nat): (s: string)
  {
    (if negative then "-" else "") + NatToString(k / 10) + "." + [DigitChar(k % 10)]
  }

  lemma DigitsNoPoint(s: string)
    requires AllDigits(s)
    ensures '.' !in s && '_' !in s && '-' !in s
  {
    forall i | 0 <= i < |s| ensures s[i] != '.' && s[i] != '_' && s[i] != '-' {
      assert IsDigit(s[i]);
    }
  }

  /** `float(str(n)) == n` for every integer. */
  lemma IntToStringRoundTrip(n: int)
    ensures ParseNumber(IntToString(n)) == Some(n as real)
  {
    var m: nat := if n < 0 then -n else n;
    var digits := NatToString(m);
    NatToStringValue(m);
    DigitsNoPoint(digits);
    SplitWithoutSeparator(digits, '.');
    assert IsDigit(digits[0]);
    assert ParseUnsigned(digits) == Some(m as real);
    if n < 0 {
      assert IntToString(n)[1..] == digits;
    }
  }

  /** `float` reads a one-decimal string back as the number it was printed from. */
  lemma DecimalStringRoundTrip(negative: bool, k: nat)
    ensures ParseNumber(DecimalString(negative, k)) == Some((if negative then -(k as int) else k as int) as real / 10.0)
  {
    var whole := NatToString(k / 10);
    var u := whole + "." + [DigitChar(k % 10)];
    UnsignedDecimalValue(k);
    assert IsDigit(whole[0]);
    if negative {
      assert DecimalString(negative, k) == "-" + u;
      assert ("-" + u)[1..] == u;
    } else {
      assert DecimalString(negative, k) == u;
      assert u[0] == whole[0];
    }
  }

  /** The unsigned part of a one-decimal string reads back as `k / 10`. */
  lemma UnsignedDecimalValue(k: nat)
    ensures ParseUnsigned(NatToString(k / 10) + "." + [DigitChar(k % 10)]) == Some(k as real / 10.0)
  {
    var whole := NatToString(k / 10);
    var last := [DigitChar(k % 10)];
    var u := whole + "." + last;
    NatToStringValue(k / 10);
    DigitsNoPoint(whole);
    SplitAtFirstSeparator(whole, '.', last);
    SplitWithoutSeparator(last, '.');
    assert Split(u, '.') == [whole, last];
    assert DigitsValue(last) == k % 10 by { assert last[..0] == ""; }
    assert Pow10(1) == 10;
    TenthsParts(k);
  }

  /** Python's `str(x)` of a float printed without an exponent: an optional minus,
      the whole part, a point and the fraction digits, `str(41.62) == "41.62"`,
      `str(-0.05) == "-0.05"`. */
  function DecimalText(negative: bool, whole: nat, fraction: string): string {
    (if negative then "-" else "") + (NatToString(whole) + "." + fraction)
  }

  /** `float` reads a decimal text back as the number it was printed from, and the
      text holds no underscore. */
  lemma DecimalTextRoundTrip(negative: bool, whole: nat, fraction: string)
    requires AllDigits(fraction)
    ensures ParseNumber(DecimalText(negative, whole, fraction)).Some?
    ensures ParseNumber(DecimalText(negative, whole, fraction)).value ==
      var v := whole as real + Scaled(DigitsValue(fraction), |fraction|); if negative then -v else v
    ensures '_' !in DecimalText(negative, whole, fraction)
  {
    var digits := NatToString(whole);
    var sign := if negative then "-" else "";
    var u := digits + "." + fraction;
    assert ParseUnsigned(u).Some? && ParseUnsigned(u).value == whole as real + Scaled(DigitsValue(fraction), |fraction|) by {
      NatToStringValue(whole);
      WholeAndFraction(digits, fraction);
    }
    assert IsDigit(u[0]) by { assert u[0] == digits[0]; }
    SignedParse(negative, u);
    DecimalTextNoUnderscore(sign, digits, fraction);
  }

  /** A minus sign in front negates what `float` reads. */
  lemma SignedParse(negative: bool, u: string)
    requires |u| > 0 && IsDigit(u[0]) && ParseUnsigned(u).Some?
    ensures ParseNumber((if negative then "-" else "") + u).Some?
    ensures ParseNumber((if negative then "-" else "") + u).value ==
      if negative then -ParseUnsigned(u).value else ParseUnsigned(u).value
  {
    if negative {
      assert ("-" + u)[1..] == u;
    } else {
      assert "" + u == u;
    }
  }

  lemma DecimalTextNoUnderscore(sign: string, whole: string, frac: string)
    requires '_' !in sign && AllDigits(whole) && AllDigits(frac)
    ensures '_' !in sign + (whole + "." + frac)
  {
    DigitsNoPoint(whole);
    DigitsNoPoint(frac);
    var s := sign + (whole + "." + frac);
    forall i | 0 <= i < |s| ensures s[i] != '_' {
      if i < |sign| {
        assert s[i] == sign[i];
      } else if i < |sign| + |whole| {
        assert s[i] == whole[i - |sign|];
      } else if i > |sign| + |whole| {
        assert s[i] == frac[i - |sign| - |whole| - 1];
      }
    }
  }

  /** `float` of digits, a point and digits. */
  lemma WholeAndFraction(whole: string, frac: string)
    requires |whole| > 0 && AllDigits(whole) && AllDigits(frac)
    ensures ParseUnsigned(whole + "." + frac).Some?
    ensures ParseUnsigned(whole + "." + frac).value == DigitsValue(whole) as real + Scaled(DigitsValue(frac), |frac|)
  {
    DigitsNoPoint(whole);
    DigitsNoPoint(frac);
    SplitAtFirstSeparator(whole, '.', frac);
    SplitWithoutSeparator(frac, '.');
    TwoParts(whole + "." + frac, whole, frac);
  }

  lemma TwoParts(s: string, whole: string, frac: string)
    requires Split(s, '.') == [whole, frac]
    requires |whole| > 0 && AllDigits(whole) && AllDigits(frac)
    ensures ParseUnsigned(s).Some?
    ensures ParseUnsigned(s).value == DigitsValue(whole) as real + Scaled(DigitsValue(frac), |frac|)
  {
  }

  /** A number of tenths is its whole part plus its last digit over ten. */
  lemma TenthsParts(k: nat)
    ensures (k / 10) as real + (k % 10) as real / 10.0 == k as real / 10.0
  {
    assert k == (k / 10) * 10 + k % 10;
  }

  // ---------------------------------------------------------------------------
  // str.split and its inverse, str.join

  /** Python's `s.split(sep)` for a one-character separator. */
  function Split(s: string, sep: char): (parts: seq<string>)
    ensures |parts| > 0
  {
    if s == [] then [""]
    else
      var rest := Split(s[1..], sep);
      if s[0] == sep then [""] + rest else [[s[0]] + rest[0]] + rest[1..]
  }

  /** Python's `sep.join(parts)`. */
  function Join(parts: seq<string>, sep: char): string
    requires |parts| > 0
  {
    if |parts| == 1 then parts[0] else parts[0] + [sep] + Join(parts[1..], sep)
  }

  lemma {:induction false} SplitWithoutSeparator(a: string, sep: char)
    requires sep !in a
    ensures Split(a, sep) == [a]
  {
    if a != [] {
      SplitWithoutSeparator(a[1..], sep);
      assert [a[0]] + a[1..] == a;
    }
  }

  lemma {:induction false} SplitAtFirstSeparator(a: string, sep: char, b: string)
    requires sep !in a
    ensures Split(a + [sep] + b, sep) == [a] + Split(b, sep)
  {
    var s := a + [sep] + b;
    if a == [] {
      assert s[1..] == b;
    } else {
      assert s[1..] == a[1..] + [sep] + b;
      SplitAtFirstSeparator(a[1..], sep, b);
      assert [a[0]] + a[1..] == a;
    }
  }

  /** Splitting a joined list gives the list back when no part holds the separator. */
  lemma {:induction false} SplitJoin(parts: seq<string>, sep: char)
    requires |parts| > 0
    requires forall i :: 0 <= i < |parts| ==> sep !in parts[i]
    ensures Split(Join(parts, sep), sep) == parts
  {
    if |parts| == 1 {
      SplitWithoutSeparator(parts[0], sep);
    } else {
      SplitJoin(parts[1..], sep);
      SplitAtFirstSeparator(parts[0], sep, Join(parts[1..], sep));
    }
  }

  /** Joining the pieces of a split gives the string back. */
  lemma {:induction false} JoinSplit(s: string, sep: char)
    ensures Join(Split(s, sep), sep) == s
  {
    if s != [] {
      JoinSplit(s[1..], sep);
      var rest := Split(s[1..], sep);
      if s[0] != sep {
        var parts := [[s[0]] + rest[0]] + rest[1..];
        assert parts[1..] == rest[1..];
        if |rest| > 1 {
          assert Join(rest, sep) == rest[0] + [sep] + Join(rest[1..], sep);
        }
      } else {
        assert ([""] + rest)[1..] == rest;
      }
    }
  }

  // ---------------------------------------------------------------------------
  // endswith and the substring test

  predicate StartsWith(s: string, prefix: string) {
    |prefix| <= |s| && s[..|prefix|] == prefix
  }

  predicate EndsWith(s: string, suffix: string) {
    |suffix| <= |s| && s[|s| - |suffix|..] == suffix
  }

  /** Python's `sub in s`. */
  predicate Contains(s: string, sub: string)
  {
    StartsWith(s, sub) || (s != [] && Contains(s[1..], sub))
  }

  // ---------------------------------------------------------------------------
  // Python's ordering of strings and `sorted`

  /** Python's `a <= b` on strings: code points compared left to right, a proper
      prefix before the longer string. */
  predicate LessEq(a: string, b: string)
  {
    a == [] || (b != [] && (a[0] < b[0] || (a[0] == b[0] && LessEq(a[1..], b[1..]))))
  }

  lemma {:induction false} LessEqTotal(a: string, b: string)
    ensures LessEq(a, b) || LessEq(b, a)
  {
    if a != [] && b != [] && a[0] == b[0] {
      LessEqTotal(a[1..], b[1..]);
    }
  }

  lemma {:induction false} LessEqTransitive(a: string, b: string, c: string)
    requires LessEq(a, b) && LessEq(b, c)
    ensures LessEq(a, c)
  {
    if a != [] && a[0] == b[0] && b[0] == c[0] {
      LessEqTransitive(a[1..], b[1..], c[1..]);
    }
  }

  lemma {:induction false} LessEqAntisymmetric(a: string, b: string)
    requires LessEq(a, b) && LessEq(b, a)
    ensures a == b
  {
    if a != [] {
      LessEqAntisymmetric(a[1..], b[1..]);
      assert a == [a[0]] + a[1..] && b == [b[0]] + b[1..];
    }
  }

  lemma {:induction false} LessEqReflexive(a: string)
    ensures LessEq(a, a)
  {
    if a != [] {
      LessEqReflexive(a[1..]);
    }
  }

  predicate Sorted(s: seq<string>) {
    forall i, j :: 0 <= i < j < |s| ==> LessEq(s[i], s[j])
  }

  /** Inserts `x` into a sorted list before the first element it is not above. */
  function Insert(x: string, s: seq<string>): (r: seq<string>)
    requires Sorted(s)
    ensures multiset(r) == multiset(s) + multiset{x}
    ensures forall j :: 0 <= j < |r| ==> r[j] == x || r[j] in s
    ensures Sorted(r)
  {
    if s == [] then [x]
    else if LessEq(x, s[0]) then
      InsertAtFront(x, s);
      [x] + s
    else
      var rest := Insert(x, s[1..]);
      InsertBehind(x, s, rest);
      assert s == [s[0]] + s[1..];
      [s[0]] + rest
  }

  lemma InsertAtFront(x: string, s: seq<string>)
    requires Sorted(s) && s != [] && LessEq(x, s[0])
    ensures Sorted([x] + s)
  {
    forall j | 0 < j < |s| ensures LessEq(x, s[j]) {
      LessEqTransitive(x, s[0], s[j]);
    }
  }

  lemma InsertBehind(x: string, s: seq<string>, rest: seq<string>)
    requires Sorted(s) && s != [] && !LessEq(x, s[0])
    requires Sorted(rest)
    requires forall j :: 0 <= j < |rest| ==> rest[j] == x || rest[j] in s[1..]
    ensures Sorted([s[0]] + rest)
  {
    LessEqTotal(x, s[0]);
    forall j | 0 <= j < |rest| ensures LessEq(s[0], rest[j]) {
      if rest[j] != x {
        var k :| 0 <= k < |s[1..]| && s[1..][k] == rest[j];
        assert s[k + 1] == rest[j];
      }
    }
  }

  /** Python's `sorted` on a list of strings (insertion sort). */
  function SortStrings(s: seq<string>): (r: seq<string>)
    ensures Sorted(r)
    ensures multiset(r) == multiset(s)
  {
    if s == [] then []
    else
      assert s == s[..|s| - 1] + [s[|s| - 1]];
      Insert(s[|s| - 1], SortStrings(s[..|s| - 1]))
  }

  lemma SortStringsMembers(s: seq<string>)
    ensures forall x :: x in SortStrings(s) <==> x in s
  {
    forall x ensures x in SortStrings(s) <==> x in s {
      assert x in SortStrings(s) <==> x in multiset(SortStrings(s));
      assert x in s <==> x in multiset(s);
    }
  }

  /** Only one ordering of a list is sorted, so `SortStrings` is Python's `sorted`. */
  lemma {:induction false} SortedPermutationsEqual(a: seq<string>, b: seq<string>)
    requires Sorted(a) && Sorted(b)
    requires multiset(a) == multiset(b)
    ensures a == b
  {
    if a != [] {
      assert |b| == |a| by { assert |multiset(a)| == |a| && |multiset(b)| == |b|; }
      SortedHeadsEqual(a, b);
      assert a == [a[0]] + a[1..] && b == [b[0]] + b[1..];
      TailsPermutation(a, b);
      SortedPermutationsEqual(a[1..], b[1..]);
    }
  }

  lemma SortedHeadsEqual(a: seq<string>, b: seq<string>)
    requires Sorted(a) && Sorted(b) && a != [] && b != []
    requires multiset(a) == multiset(b)
    ensures a[0] == b[0]
  {
    assert a[0] in multiset(b);
    assert b[0] in multiset(a);
    var i :| 0 <= i < |b| && b[i] == a[0];
    var j :| 0 <= j < |a| && a[j] == b[0];
    LessEqReflexive(a[0]);
    assert LessEq(b[0], a[0]) by { if i > 0 { } }
    assert LessEq(a[0], b[0]) by { if j > 0 { } }
    LessEqAntisymmetric(a[0], b[0]);
  }

  lemma TailsPermutation(a: seq<string>, b: seq<string>)
    requires a != [] && b != [] && a[0] == b[0]
    requires multiset(a) == multiset(b)
    ensures multiset(a[1..]) == multiset(b[1..])
  {
    assert a == [a[0]] + a[1..] && b == [b[0]] + b[1..];
    assert multiset(a) == multiset([a[0]]) + multiset(a[1..]);
    assert multiset(b) == multiset([b[0]]) + multiset(b[1..]);
    calc {
      multiset(a[1..]);
      multiset(a) - multiset([a[0]]);
      multiset(b) - multiset([b[0]]);
      multiset(b[1..]);
    }
  }
}
