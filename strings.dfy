/**
 * String primitives the front end relies on: JavaScript's default `Array.prototype.sort`
 * order on strings, `String.prototype.split` on one character, decimal number formatting and
 * parsing, `padStart(2, '0')` and the whitespace test behind `!s.trim()`.
 */
module Strings {
  import opened Common

  // ---------------------------------------------------------------------------------------
  // Ordering: the default sort compares strings code unit by code unit.
  // ---------------------------------------------------------------------------------------

  /** `a` sorts strictly before `b`: first differing character smaller, or `a` a proper prefix. */
  predicate Less(a: string, b: string) {
    if |b| == 0 then false
    else if |a| == 0 then true
    else if a[0] != b[0] then a[0] < b[0]
    else Less(a[1..], b[1..])
  }

  predicate LessEq(a: string, b: string) {
    a == b || Less(a, b)
  }

  lemma {:induction false} LessIrreflexive(a: string)
    ensures !Less(a, a)
  {
    if |a| > 0 {
      LessIrreflexive(a[1..]);
    }
  }

  lemma {:induction false} LessTransitive(a: string, b: string, c: string)
    requires Less(a, b) && Less(b, c)
    ensures Less(a, c)
  {
    if |a| > 0 && a[0] == b[0] && b[0] == c[0] {
      LessTransitive(a[1..], b[1..], c[1..]);
    }
  }

  lemma {:induction false} LessTotal(a: string, b: string)
    ensures a == b || Less(a, b) || Less(b, a)
  {
    if |a| > 0 && |b| > 0 && a[0] == b[0] {
      LessTotal(a[1..], b[1..]);
      if a[1..] == b[1..] {
        assert a == [a[0]] + a[1..] && b == [b[0]] + b[1..];
      }
    }
  }

  lemma {:induction false} LessAsymmetric(a: string, b: string)
    requires Less(a, b)
    ensures !Less(b, a)
  {
    if |a| > 0 && a[0] == b[0] {
      LessAsymmetric(a[1..], b[1..]);
    }
  }

  lemma LessEqAntisymmetric(a: string, b: string)
    requires LessEq(a, b) && LessEq(b, a)
    ensures a == b
  {
    if a != b {
      LessAsymmetric(a, b);
    }
  }

  lemma LessEqTransitive(a: string, b: string, c: string)
    requires LessEq(a, b) && LessEq(b, c)
    ensures LessEq(a, c)
  {
    if a != b && b != c {
      LessTransitive(a, b, c);
    }
  }

  /** Sorted in ascending order (duplicates allowed). */
  predicate Sorted(s: seq<string>) {
    forall i, j :: 0 <= i < j < |s| ==> LessEq(s[i], s[j])
  }

  /** Sorted in ascending order without duplicates. */
  predicate StrictlySorted(s: seq<string>) {
    forall i, j :: 0 <= i < j < |s| ==> Less(s[i], s[j])
  }

  lemma StrictlySortedIsSortedAndDistinct(s: seq<string>)
    ensures StrictlySorted(s) <==> Sorted(s) && Distinct(s)
  {
    if StrictlySorted(s) {
      forall i, j | 0 <= i < j < |s| ensures s[i] != s[j] {
        LessIrreflexive(s[i]);
      }
    }
  }

  // ---------------------------------------------------------------------------------------
  // Sorting: `xs.sort()` with no comparator. The result of such a sort is determined by the
  // ordering alone (SortedUnique), so insertion sort stands for the engine's algorithm.
  // ---------------------------------------------------------------------------------------

  function Insert(s: seq<string>, x: string): seq<string> {
    if s == [] then [x]
    else if LessEq(x, s[0]) then [x] + s
    else [s[0]] + Insert(s[1..], x)
  }

  function Sort(s: seq<string>): seq<string> {
    if s == [] then [] else Insert(Sort(Init(s)), Last(s))
  }

  lemma {:induction false} InsertKeepsSorted(s: seq<string>, x: string)
    requires Sorted(s)
    ensures Sorted(Insert(s, x))
    ensures multiset(Insert(s, x)) == multiset(s) + multiset{x}
  {
    if s == [] {
    } else if LessEq(x, s[0]) {
      var r := [x] + s;
      forall i, j | 0 <= i < j < |r| ensures LessEq(r[i], r[j]) {
        if i == 0 && j > 1 {
          LessEqTransitive(x, s[0], s[j - 1]);
        }
      }
    } else {
      var t := s[1..];
      assert s == [s[0]] + t;
      InsertKeepsSorted(t, x);
      var r := Insert(t, x);
      LessTotal(x, s[0]);
      forall k | 0 <= k < |r| ensures LessEq(s[0], r[k]) {
        assert r[k] in multiset(r);
        if r[k] != x {
          assert r[k] in multiset(t);
          var m :| 0 <= m < |t| && t[m] == r[k];
          assert s[m + 1] == r[k];
        }
      }
      var out := [s[0]] + r;
      forall i, j | 0 <= i < j < |out| ensures LessEq(out[i], out[j]) {
        if i > 0 {
          assert out[i] == r[i - 1] && out[j] == r[j - 1];
        }
      }
    }
  }

  /** Sorting yields an ascending permutation of its input. */
  lemma {:induction false} SortIsSortedPermutation(s: seq<string>)
    ensures Sorted(Sort(s))
    ensures multiset(Sort(s)) == multiset(s)
  {
    if s != [] {
      SortIsSortedPermutation(Init(s));
      InsertKeepsSorted(Sort(Init(s)), Last(s));
      assert s == Init(s) + [Last(s)];
    }
  }

  lemma SortedTail(s: seq<string>)
    requires Sorted(s) && s != []
    ensures Sorted(s[1..])
  {
    var t := s[1..];
    forall i, j | 0 <= i < j < |t| ensures LessEq(t[i], t[j]) {
      assert t[i] == s[i + 1] && t[j] == s[j + 1];
    }
  }

  lemma SortedHeadIsLeast(s: seq<string>, x: string)
    requires Sorted(s) && x in s
    ensures LessEq(s[0], x)
  {
    var k :| 0 <= k < |s| && s[k] == x;
    assert k == 0 || LessEq(s[0], s[k]);
  }

  lemma MultisetOfTail(s: seq<string>)
    requires s != []
    ensures multiset(s[1..]) == multiset(s) - multiset{s[0]}
  {
    assert s == [s[0]] + s[1..];
  }

  /** Two ascending sequences holding the same elements are equal. */
  lemma {:induction false} SortedUnique(a: seq<string>, b: seq<string>)
    requires Sorted(a) && Sorted(b) && multiset(a) == multiset(b)
    ensures a == b
  {
    if a == [] {
      assert |multiset(b)| == 0;
    } else {
      assert a[0] in multiset(a);
      assert b != [];
      assert b[0] in multiset(b);
      SortedHeadIsLeast(a, b[0]);
      SortedHeadIsLeast(b, a[0]);
      LessEqAntisymmetric(a[0], b[0]);
      var a', b' := a[1..], b[1..];
      MultisetOfTail(a);
      MultisetOfTail(b);
      SortedTail(a);
      SortedTail(b);
      SortedUnique(a', b');
    }
  }

  /** Sorting an already ascending sequence changes nothing. */
  lemma SortOfSorted(s: seq<string>)
    requires Sorted(s)
    ensures Sort(s) == s
  {
    SortIsSortedPermutation(s);
    SortedUnique(Sort(s), s);
  }

  lemma WithoutKeepsSorted(s: seq<string>, x: string)
    requires Sorted(s)
    ensures Sorted(Without(s, x))
  {
    if s != [] {
      WithoutKeepsSorted(s[1..], x);
      var r := Without(s[1..], x);
      assert forall k :: 0 <= k < |r| ==> r[k] in s[1..];
    }
  }

  lemma {:induction false} WithoutMultiset(s: seq<string>, x: string)
    ensures multiset(Without(s, x)) == multiset(s)[x := 0]
  {
    if s != [] {
      WithoutMultiset(s[1..], x);
      assert s == [s[0]] + s[1..];
    }
  }

  // ---------------------------------------------------------------------------------------
  // `s.split(sep)` for a one-character separator.
  // ---------------------------------------------------------------------------------------

  function Split(s: string, sep: char): (r: seq<string>)
    ensures |r| >= 1
  {
    if s == [] then [""]
    else if s[0] == sep then [""] + Split(s[1..], sep)
    else
      var rest := Split(s[1..], sep);
      [[s[0]] + rest[0]] + rest[1..]
  }

  lemma {:induction false} SplitWithoutSeparator(s: string, sep: char)
    requires sep !in s
    ensures Split(s, sep) == [s]
  {
    if s != [] {
      SplitWithoutSeparator(s[1..], sep);
      assert s == [s[0]] + s[1..];
    }
  }

  /** Splitting `a + sep + b`, where `a` holds no separator, gives `a` then the fields of `b`. */
  lemma {:induction false} SplitAfterField(a: string, sep: char, b: string)
    requires sep !in a
    ensures Split(a + [sep] + b, sep) == [a] + Split(b, sep)
  {
    if a == [] {
      assert a + [sep] + b == [sep] + b;
    } else {
      SplitAfterField(a[1..], sep, b);
      assert (a + [sep] + b)[1..] == a[1..] + [sep] + b;
      assert a == [a[0]] + a[1..];
    }
  }

  /** No field of a split holds the separator. */
  lemma {:induction false} SplitFieldsHaveNoSeparator(s: string, sep: char)
    ensures forall i :: 0 <= i < |Split(s, sep)| ==> sep !in Split(s, sep)[i]
  {
    if s != [] {
      SplitFieldsHaveNoSeparator(s[1..], sep);
    }
  }

  /**
   * Cutting `s` at its last `sep`: the text before it and the text after it. Without a `sep`
   * the first part is empty and the second is all of `s`.
   */
  function SplitAtLast(s: string, sep: char): (r: (string, string))
    ensures sep !in r.1
    ensures sep in s ==> s == r.0 + [sep] + r.1
    ensures sep !in s ==> r == ("", s)
  {
    if s == [] then ("", "")
    else if Last(s) == sep then (Init(s), "")
    else
      var p := SplitAtLast(Init(s), sep);
      assert s == Init(s) + [Last(s)];
      (p.0, p.1 + [Last(s)])
  }

  /** Joining two parts with `sep`, the second free of `sep`, and cutting at the last `sep` gives them back. */
  lemma {:induction false} SplitAtLastRoundTrip(a: string, sep: char, b: string)
    requires sep !in b
    ensures SplitAtLast(a + [sep] + b, sep) == (a, b)
    decreases |b|
  {
    var s := a + [sep] + b;
    if b == [] {
      assert Init(s) == a;
    } else {
      SplitAtLastRoundTrip(a, sep, Init(b));
      assert Init(s) == a + [sep] + Init(b);
      assert b == Init(b) + [Last(b)];
    }
  }

  // ---------------------------------------------------------------------------------------
  // Decimal numbers: `${n}` / `n.toString()`, `padStart(2, '0')`, and `Number(s)` on digits.
  // ---------------------------------------------------------------------------------------

  predicate IsDigit(c: char) {
    '0' <= c <= '9'
  }

  predicate AllDigits(s: string) {
    forall i :: 0 <= i < |s| ==> IsDigit(s[i])
  }

  function DigitChar(d: nat): (c: char)
    requires d < 10
    ensures IsDigit(c)
  {
    (48 + d) as char
  }

  /** Decimal representation of a natural number, without leading zeros. */
  function NatToString(n: nat): (s: string)
    ensures 1 <= |s| && AllDigits(s)
    decreases n
  {
    if n < 10 then [DigitChar(n)] else NatToString(n / 10) + [DigitChar(n % 10)]
  }

  function DigitsValue(s: string): nat
    requires AllDigits(s)
  {
    if s == [] then 0 else DigitsValue(Init(s)) * 10 + (Last(s) as int - 48)
  }

  /**
   * `Number(s)` restricted to plain digit strings: the value of the digits (the empty string
   * reads as 0, as in JavaScript), and None (JavaScript's NaN) for anything else.
   */
  function ParseNat(s: string): Option<nat> {
    if AllDigits(s) then Some(DigitsValue(s)) else None
  }

  /** Parsing a formatted number gives the number back. */
  lemma {:induction false} NatToStringRoundTrip(n: nat)
    ensures ParseNat(NatToString(n)) == Some(n)
    decreases n
  {
    var s := NatToString(n);
    if n < 10 {
      assert Init(s) == [];
    } else {
      NatToStringRoundTrip(n / 10);
      assert Init(s) == NatToString(n / 10);
    }
    assert Last(s) as int == 48 + n % 10;
    assert DigitsValue(s) == DigitsValue(Init(s)) * 10 + (Last(s) as int - 48);
    assert (n / 10) * 10 + n % 10 == n;
  }

  lemma NatToStringInjective(m: nat, n: nat)
    requires NatToString(m) == NatToString(n)
    ensures m == n
  {
    NatToStringRoundTrip(m);
    NatToStringRoundTrip(n);
  }

  /** `n.toString().padStart(2, '0')` for a number below 100: always its two decimal digits. */
  function Pad2(n: nat): (s: string)
    requires n < 100
    ensures s == [DigitChar(n / 10), DigitChar(n % 10)]
  {
    var digits := NatToString(n);
    assert n >= 10 ==> digits == NatToString(n / 10) + [DigitChar(n % 10)];
    assert DigitChar(0) == '0';
    if |digits| >= 2 then digits else Repeat('0', 2 - |digits|) + digits
  }

  // ---------------------------------------------------------------------------------------
  // `!s.trim()`: the string holds only JavaScript white space and line terminators.
  // ---------------------------------------------------------------------------------------

  predicate IsJsWhitespace(c: char) {
    || c == '\t' || c == '\n' || c == '\U{B}' || c == '\U{C}' || c == '\r' || c == ' '
    || c == '\U{A0}' || c == '\U{1680}' || ('\U{2000}' <= c <= '\U{200A}')
    || c == '\U{2028}' || c == '\U{2029}' || c == '\U{202F}' || c == '\U{205F}'
    || c == '\U{3000}' || c == '\U{FEFF}'
  }

  predicate IsBlank(s: string) {
    forall i :: 0 <= i < |s| ==> IsJsWhitespace(s[i])
  }
}
