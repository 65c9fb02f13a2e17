/** The few Python `str` operations the topic pipeline relies on:
    `str.strip()`, `str.split(sep)` and its inverse `sep.join(parts)`,
    Python's ordering of strings, and the decimal rendering an f-string
    gives an `int`. */
module PyStr {

  /** Python's whitespace, as `str.strip()` with no argument uses it: the
      fixed table of code points CPython treats as white space. */
  predicate IsSpace(c: char) {
    var n := c as int;
    (0x09 <= n <= 0x0D) || (0x1C <= n <= 0x20) || n == 0x85 || n == 0xA0
    || n == 0x1680 || (0x2000 <= n <= 0x200A) || n == 0x2028 || n == 0x2029
    || n == 0x202F || n == 0x205F || n == 0x3000
  }

  /** Only white space before index `i` and from index `j` on. */
  predicate SpaceOutside(s: string, i: int, j: int) {
    && (forall k :: 0 <= k < i && k < |s| ==> IsSpace(s[k]))
    && (forall k :: 0 <= j <= k < |s| ==> IsSpace(s[k]))
  }

  /** A string with no white space at either end: what `strip` produces. */
  predicate Stripped(s: string) {
    s == [] || (!IsSpace(s[0]) && !IsSpace(s[|s| - 1]))
  }

  /** How many white-space characters `s` starts with. */
  function LeadingSpace(s: string): (n: nat)
    ensures n <= |s|
    ensures forall k :: 0 <= k < n ==> IsSpace(s[k])
    ensures n < |s| ==> !IsSpace(s[n])
  {
    if |s| > 0 && IsSpace(s[0]) then 1 + LeadingSpace(s[1..]) else 0
  }

  /** How many white-space characters `s` ends with. */
  function TrailingSpace(s: string): (n: nat)
    ensures n <= |s|
    ensures forall k :: |s| - n <= k < |s| ==> IsSpace(s[k])
    ensures n < |s| ==> !IsSpace(s[|s| - 1 - n])
  {
    if |s| > 0 && IsSpace(s[|s| - 1]) then 1 + TrailingSpace(s[..|s| - 1]) else 0
  }

  /** `s.strip()`: skip the leading white space, then cut the trailing
      white space off what is left. */
  function Strip(s: string): (r: string)
    ensures |r| <= |s| && Stripped(r)
  {
    var l := s[LeadingSpace(s)..];
    var r := l[..|l| - TrailingSpace(l)];
    assert r != [] ==> r[0] == l[0] && r[|r| - 1] == l[|l| - 1 - TrailingSpace(l)];
    r
  }

  /** `strip` removes white space at the two ends of `s` and nothing else:
      what it returns is a stretch of `s` with only white space around it. */
  lemma StripRemovesEdgeSpace(s: string)
    ensures exists i, j :: 0 <= i <= j <= |s| && Strip(s) == s[i..j] && SpaceOutside(s, i, j)
  {
    var i := LeadingSpace(s);
    var l := s[i..];
    var r := Strip(s);
    assert r == s[i..i + |r|];
    assert forall k :: i + |r| <= k < |s| ==> s[k] == l[k - i];
  }

  /** Conversely, whenever a stretch of `s` has only white space around it
      and none at its own ends, it is what `strip` returns. */
  lemma StripUnique(s: string, i: nat, j: nat)
    requires i <= j <= |s|
    requires SpaceOutside(s, i, j) && Stripped(s[i..j])
    ensures Strip(s) == s[i..j]
  {
    if i == j {
      var n := LeadingSpace(s);
      assert n == |s|;
    } else {
      assert s[i] == s[i..j][0] && s[j - 1] == s[i..j][j - i - 1];
      var n := LeadingSpace(s);
      assert n == i;
      var l := s[i..];
      var m := TrailingSpace(l);
      assert m == |l| - (j - i);
      assert l[..j - i] == s[i..j];
    }
  }

  /** Stripping an already stripped string changes nothing. */
  lemma StripIdempotent(s: string)
    ensures Strip(Strip(s)) == Strip(s)
  {
    var r := Strip(s);
    assert r[0..|r|] == r;
    StripUnique(r, 0, |r|);
  }

  /** Number of occurrences of `c` in `s`. */
  function Occurrences(s: string, c: char): (n: nat)
    ensures n <= |s|
  {
    if s == [] then 0 else (if s[0] == c then 1 else 0) + Occurrences(s[1..], c)
  }

  /** `s.split(sep)` for a one-character separator: the stretches between
      separators, empty ones included, so that `""` gives `[""]` and
      `"A;"` gives `["A", ""]`. */
  function Split(s: string, sep: char): (parts: seq<string>)
    ensures |parts| == Occurrences(s, sep) + 1
    ensures forall k :: 0 <= k < |parts| ==> sep !in parts[k]
  {
    if s == [] then [[]]
    else
      var rest := Split(s[1..], sep);
      if s[0] == sep then [[]] + rest
      else [[s[0]] + rest[0]] + rest[1..]
  }

  /** `sep.join(parts)`. */
  function Join(parts: seq<string>, sep: char): string {
    if |parts| == 0 then []
    else if |parts| == 1 then parts[0]
    else parts[0] + [sep] + Join(parts[1..], sep)
  }

  /** Joining the pieces of a split gives back the original string. */
  lemma {:induction false} JoinSplit(s: string, sep: char)
    ensures Join(Split(s, sep), sep) == s
  {
    if s != [] {
      var rest := Split(s[1..], sep);
      JoinSplit(s[1..], sep);
      if s[0] == sep {
        assert ([[]] + rest)[1..] == rest;
      } else if |rest| == 1 {
        assert Join(rest, sep) == rest[0];
      } else {
        var parts := [[s[0]] + rest[0]] + rest[1..];
        assert parts[1..] == rest[1..];
        assert Join(rest, sep) == rest[0] + [sep] + Join(rest[1..], sep);
      }
    }
  }

  lemma {:induction false} SplitWithoutSep(p: string, sep: char)
    requires sep !in p
    ensures Split(p, sep) == [p]
  {
    if p != [] {
      assert p[0] != sep && sep !in p[1..];
      SplitWithoutSep(p[1..], sep);
      assert [p[0]] + p[1..] == p;
    }
  }

  /** A separator-free prefix becomes the front of the first piece. */
  lemma {:induction false} SplitPrefix(p: string, t: string, sep: char)
    requires sep !in p
    ensures Split(p + t, sep) == [p + Split(t, sep)[0]] + Split(t, sep)[1..]
  {
    if p != [] {
      assert (p + t)[0] == p[0] != sep;
      assert (p + t)[1..] == p[1..] + t;
      assert sep !in p[1..];
      SplitPrefix(p[1..], t, sep);
      assert [p[0]] + (p[1..] + Split(t, sep)[0]) == p + Split(t, sep)[0];
    } else {
      var parts := Split(t, sep);
      assert p + t == t && p + parts[0] == parts[0];
      assert [parts[0]] + parts[1..] == parts;
    }
  }

  /** Splitting a join of separator-free pieces gives back the pieces. */
  lemma {:induction false} SplitJoin(parts: seq<string>, sep: char)
    requires |parts| >= 1
    requires forall k :: 0 <= k < |parts| ==> sep !in parts[k]
    ensures Split(Join(parts, sep), sep) == parts
  {
    if |parts| == 1 {
      SplitWithoutSep(parts[0], sep);
    } else {
      var tail := Join(parts[1..], sep);
      SplitJoin(parts[1..], sep);
      assert Join(parts, sep) == parts[0] + ([sep] + tail);
      SplitPrefix(parts[0], [sep] + tail, sep);
      assert ([sep] + tail)[1..] == tail;
      assert Split([sep] + tail, sep) == [[]] + parts[1..];
      assert parts[0] + [] == parts[0];
    }
  }

  /** Python's `<` on `str`: code point by code point, a proper prefix
      coming first. */
  predicate StrLess(a: string, b: string) {
    if a == [] then b != []
    else if b == [] then false
    else if a[0] != b[0] then a[0] < b[0]
    else StrLess(a[1..], b[1..])
  }

  lemma {:induction false} StrLessIrreflexive(a: string)
    ensures !StrLess(a, a)
  {
    if a != [] {
      StrLessIrreflexive(a[1..]);
    }
  }

  lemma {:induction false} StrLessTransitive(a: string, b: string, c: string)
    requires StrLess(a, b) && StrLess(b, c)
    ensures StrLess(a, c)
  {
    if a != [] && a[0] == b[0] && b[0] == c[0] {
      StrLessTransitive(a[1..], b[1..], c[1..]);
    }
  }

  lemma {:induction false} StrLessTotal(a: string, b: string)
    requires a != b
    ensures StrLess(a, b) || StrLess(b, a)
  {
    if a != [] && b != [] && a[0] == b[0] {
      assert a == [a[0]] + a[1..] && b == [b[0]] + b[1..];
      StrLessTotal(a[1..], b[1..]);
    }
  }

  function DigitChar(d: nat): (c: char)
    requires d < 10
    ensures '0' <= c <= '9' && c as int - '0' as int == d
  {
    ('0' as int + d) as char
  }

  /** Decimal digits of `n`, most significant first, with no leading zero. */
  function NatDigits(n: nat): (r: string)
    ensures |r| >= 1 && (r[0] == '0' ==> n == 0)
    ensures forall k :: 0 <= k < |r| ==> '0' <= r[k] <= '9'
  {
    if n < 10 then [DigitChar(n)] else NatDigits(n / 10) + [DigitChar(n % 10)]
  }

  /** `str(i)`, which an f-string uses for an `int`. */
  function IntToDecimal(i: int): (r: string)
    ensures DecimalText(r) && CanonicalDecimal(r)
    ensures |r| >= 1 && (r[0] == '-' <==> i < 0)
    ensures forall k :: (if r[0] == '-' then 1 else 0) <= k < |r| ==> '0' <= r[k] <= '9'
  {
    if i < 0 then "-" + NatDigits(-i) else NatDigits(i)
  }

  /** An optional minus sign followed by one or more decimal digits. */
  predicate DecimalText(s: string) {
    && |s| >= 1
    && (s[0] == '-' ==> |s| >= 2)
    && forall k :: (if s[0] == '-' then 1 else 0) <= k < |s| ==> '0' <= s[k] <= '9'
  }

  /** The form `str` gives an integer: no leading zero and no `-0`. */
  predicate CanonicalDecimal(s: string) {
    && DecimalText(s)
    && (s[0] == '0' ==> s == "0")
    && (s[0] == '-' ==> s[1] != '0')
  }

  /** The value of a string of decimal digits. */
  function DigitsValue(ds: string): nat
    requires forall k :: 0 <= k < |ds| ==> '0' <= ds[k] <= '9'
  {
    if ds == [] then 0
    else DigitsValue(ds[..|ds| - 1]) * 10 + (ds[|ds| - 1] as int - '0' as int)
  }

  /** Reading back the decimal text of an integer. */
  function DecimalValue(s: string): int
    requires DecimalText(s)
  {
    if s[0] == '-' then -(DigitsValue(s[1..]) as int) else DigitsValue(s)
  }

  lemma {:induction false} NatDigitsRoundTrip(n: nat)
    ensures DigitsValue(NatDigits(n)) == n
  {
    if n >= 10 {
      var ds := NatDigits(n);
      NatDigitsRoundTrip(n / 10);
      assert ds[..|ds| - 1] == NatDigits(n / 10);
    }
  }

  /** The decimal rendering of an integer is faithful: it reads back as
      the same integer. */
  lemma IntToDecimalRoundTrip(i: int)
    ensures DecimalValue(IntToDecimal(i)) == i
  {
    var r := IntToDecimal(i);
    if i < 0 {
      assert r[1..] == NatDigits(-i);
      NatDigitsRoundTrip(-i);
    } else {
      NatDigitsRoundTrip(i);
    }
  }

  /** Digits without a leading zero have a value of at least one. */
  lemma {:induction false} LeadingDigitPositive(ds: string)
    requires |ds| >= 1 && ds[0] != '0'
    requires forall k :: 0 <= k < |ds| ==> '0' <= ds[k] <= '9'
    ensures DigitsValue(ds) >= 1
  {
    if |ds| > 1 {
      LeadingDigitPositive(ds[..|ds| - 1]);
    }
  }

  /** Digits without a leading zero are the digits of their own value. */
  lemma {:induction false} NatDigitsUnique(ds: string)
    requires |ds| >= 1 && (ds[0] == '0' ==> |ds| == 1)
    requires forall k :: 0 <= k < |ds| ==> '0' <= ds[k] <= '9'
    ensures NatDigits(DigitsValue(ds)) == ds
  {
    var n := |ds|;
    var d := ds[n - 1] as int - '0' as int;
    if n == 1 {
      assert DigitsValue(ds) == d;
      assert DigitChar(d) == ds[0];
    } else {
      var p := ds[..n - 1];
      LeadingDigitPositive(p);
      NatDigitsUnique(p);
      var v := DigitsValue(ds);
      assert v == DigitsValue(p) * 10 + d && v >= 10;
      assert v / 10 == DigitsValue(p) && v % 10 == d;
      assert DigitChar(d) == ds[n - 1];
      assert ds == p + [ds[n - 1]];
    }
  }

  /** The canonical decimal text of an integer is unique: any canonical
      text that reads back as `i` is `str(i)`. */
  lemma DecimalUnique(s: string, i: int)
    requires CanonicalDecimal(s) && DecimalValue(s) == i
    ensures s == IntToDecimal(i)
  {
    if s[0] == '-' {
      var ds := s[1..];
      LeadingDigitPositive(ds);
      NatDigitsUnique(ds);
      assert s == "-" + ds;
    } else {
      NatDigitsUnique(s);
    }
  }
}
