/**
 * The handful of Python string operations the reader relies on: decimal digits and `int()`,
 * `str.split(sep)`, `str.split()` on whitespace and `str.strip()`.
 */
module Text {
  import opened Wrappers

  /** An ASCII decimal digit, as the `[0-9]` of the line regex. */
  predicate IsDigit(c: char) {
    '0' <= c <= '9'
  }

  predicate AllDigits(s: string) {
    forall i :: 0 <= i < |s| ==> IsDigit(s[i])
  }

  /** The characters Python's `str.isspace` accepts (those `split()` and `strip()` remove). */
  predicate IsSpace(c: char) {
    c == ' ' || c == '\t' || c == '\n' || c == '\r' || c == '\U{B}' || c == '\U{C}'
    || ('\U{1C}' <= c <= '\U{1F}') || c == '\U{85}' || c == '\U{A0}' || c == '\U{1680}'
    || ('\U{2000}' <= c <= '\U{200A}') || c == '\U{2028}' || c == '\U{2029}' || c == '\U{202F}'
    || c == '\U{205F}' || c == '\U{3000}'
  }

  /** Length of the longest run of characters satisfying `p` that starts at `from`. */
  function Span(s: string, from: nat, p: char -> bool): (n: nat)
    requires from <= |s|
    ensures from + n <= |s|
    ensures from + n == |s| || !p(s[from + n])
    decreases |s| - from
  {
    if from < |s| && p(s[from]) then 1 + Span(s, from + 1, p) else 0
  }

  /** Every character of the run `Span` measures satisfies `p`. */
  lemma {:induction false} SpanAll(s: string, from: nat, p: char -> bool)
    requires from <= |s|
    ensures forall i :: from <= i < from + Span(s, from, p) ==> p(s[i])
    decreases |s| - from
  {
    if from < |s| && p(s[from]) {
      SpanAll(s, from + 1, p);
    }
  }

  /** A run of `p`-characters that cannot be extended is the one `Span` finds. */
  lemma {:induction false} SpanIs(s: string, from: nat, n: nat, p: char -> bool)
    requires from + n <= |s|
    requires forall i :: from <= i < from + n ==> p(s[i])
    requires from + n == |s| || !p(s[from + n])
    ensures Span(s, from, p) == n
    decreases n
  {
    if n > 0 {
      SpanIs(s, from + 1, n - 1, p);
    }
  }

  function DigitValue(c: char): nat
    requires IsDigit(c)
  {
    (c as int) - ('0' as int)
  }

  function DigitChar(d: nat): (c: char)
    requires d < 10
    ensures IsDigit(c) && DigitValue(c) == d
  {
    (('0' as int) + d) as char
  }

  /** The number a string of decimal digits denotes (Python's `int()` on such a string). */
  function DigitsValue(s: string): nat
    requires AllDigits(s)
  {
    if s == [] then 0 else 10 * DigitsValue(s[..|s| - 1]) + DigitValue(s[|s| - 1])
  }

  /** Decimal text of a natural number, without leading zeros. */
  function NatToString(n: nat): (s: string)
    ensures |s| >= 1 && AllDigits(s)
    ensures s[0] == '0' ==> s == "0"
    ensures DigitsValue(s) == n
    decreases n
  {
    if n < 10 then [DigitChar(n)]
    else
      var prefix := NatToString(n / 10);
      var s := prefix + [DigitChar(n % 10)];
      assert s[..|s| - 1] == prefix;
      s
  }

  /** A digit string that does not start with `0` denotes a positive number. */
  lemma {:induction false} DigitsValuePositive(s: string)
    requires |s| >= 1 && AllDigits(s) && s[0] != '0'
    ensures DigitsValue(s) >= 1
    decreases |s|
  {
    if |s| > 1 {
      DigitsValuePositive(s[..|s| - 1]);
    }
  }

  /** Digit strings without leading zeros are exactly the texts `NatToString` produces. */
  lemma {:induction false} NatToStringOfDigits(s: string)
    requires |s| >= 1 && AllDigits(s) && (s[0] == '0' ==> s == "0")
    ensures NatToString(DigitsValue(s)) == s
    decreases |s|
  {
    if |s| > 1 {
      var prefix := s[..|s| - 1];
      var q, d := DigitsValue(prefix), DigitValue(s[|s| - 1]);
      DigitsValuePositive(prefix);
      NatToStringOfDigits(prefix);
      LastDigit(q, d);
      assert DigitChar(d) == s[|s| - 1];
      assert s == prefix + [s[|s| - 1]];
    }
  }

  /** The quotient and remainder by ten of a number written with one more digit. */
  lemma LastDigit(q: nat, d: nat)
    requires d < 10
    ensures (10 * q + d) / 10 == q && (10 * q + d) % 10 == d
  {
  }

  /**
   * Python's `int()` restricted to an optional sign followed by ASCII decimal digits; `None`
   * stands for the `ValueError` it raises otherwise.
   */
  function ParseInt(s: string): (r: Option<int>)
    ensures r.Some? <==> (|s| >= 1 && AllDigits(s))
                         || (|s| >= 2 && (s[0] == '+' || s[0] == '-') && AllDigits(s[1..]))
    ensures r.Some? && AllDigits(s) ==> r.value == DigitsValue(s)
    ensures r.Some? && s[0] == '-' ==> r.value == -(DigitsValue(s[1..]) as int)
    ensures r.Some? && s[0] == '+' ==> r.value == DigitsValue(s[1..])
  {
    if |s| >= 1 && AllDigits(s) then Some(DigitsValue(s))
    else if |s| >= 2 && s[0] == '-' && AllDigits(s[1..]) then Some(0 - DigitsValue(s[1..]) as int)
    else if |s| >= 2 && s[0] == '+' && AllDigits(s[1..]) then Some(DigitsValue(s[1..]))
    else None
  }

  function IntToString(n: int): string {
    if n < 0 then "-" + NatToString(-n) else NatToString(n)
  }

  lemma ParseIntToString(n: int)
    ensures ParseInt(IntToString(n)) == Some(n)
  {
    if n < 0 {
      var s := IntToString(n);
      assert s[1..] == NatToString(-n);
    }
  }

  /** Index of the first occurrence of `c` at or after `from`, or `|s|` when there is none. */
  function IndexOf(s: string, c: char, from: nat): (i: nat)
    requires from <= |s|
    ensures from <= i <= |s|
    ensures forall j :: from <= j < i ==> s[j] != c
    ensures i < |s| ==> s[i] == c
    decreases |s| - from
  {
    if from == |s| || s[from] == c then from else IndexOf(s, c, from + 1)
  }

  /** Python's `s.split(sep)` for a one-character separator. */
  function SplitOn(s: string, sep: char): (parts: seq<string>)
    ensures |parts| >= 1
    ensures forall k, j :: 0 <= k < |parts| && 0 <= j < |parts[k]| ==> parts[k][j] != sep
    decreases |s|
  {
    var i := IndexOf(s, sep, 0);
    if i == |s| then [s] else [s[..i]] + SplitOn(s[i + 1..], sep)
  }

  /** Python's `sep.join(parts)`. */
  function Join(parts: seq<string>, sep: char): string {
    if |parts| <= 1 then (if parts == [] then "" else parts[0])
    else parts[0] + [sep] + Join(parts[1..], sep)
  }

  /** Splitting and joining again gives back the original text. */
  lemma {:induction false} JoinSplitOn(s: string, sep: char)
    ensures Join(SplitOn(s, sep), sep) == s
    decreases |s|
  {
    var i := IndexOf(s, sep, 0);
    if i < |s| {
      JoinSplitOn(s[i + 1..], sep);
      assert s == s[..i] + [sep] + s[i + 1..];
    }
  }

  /** Joining one more part appends the separator and the part. */
  lemma {:induction false} JoinSnoc(parts: seq<string>, item: string, sep: char)
    requires |parts| >= 1
    ensures Join(parts + [item], sep) == Join(parts, sep) + [sep] + item
    decreases |parts|
  {
    if |parts| > 1 {
      assert (parts + [item])[1..] == parts[1..] + [item];
      JoinSnoc(parts[1..], item, sep);
    } else {
      assert parts + [item] == [parts[0], item];
      assert Join([item], sep) == item;
    }
  }

  /** Splitting after appending a separator and a separator-free part adds that part at the end. */
  lemma SplitOnSnoc(s: string, item: string, sep: char)
    requires forall j :: 0 <= j < |item| ==> item[j] != sep
    ensures SplitOn(s + [sep] + item, sep) == SplitOn(s, sep) + [item]
  {
    var parts := SplitOn(s, sep);
    JoinSplitOn(s, sep);
    JoinSnoc(parts, item, sep);
    var more := parts + [item];
    assert forall k, j :: 0 <= k < |more| && 0 <= j < |more[k]| ==> more[k][j] != sep by {
      forall k, j | 0 <= k < |more| && 0 <= j < |more[k]|
        ensures more[k][j] != sep
      {
        if k < |parts| {
          assert more[k] == parts[k];
        }
      }
    }
    SplitOnJoin(more, sep);
  }

  /** Splitting a join of separator-free parts gives back the parts. */
  lemma {:induction false} SplitOnJoin(parts: seq<string>, sep: char)
    requires |parts| >= 1
    requires forall k, j :: 0 <= k < |parts| && 0 <= j < |parts[k]| ==> parts[k][j] != sep
    ensures SplitOn(Join(parts, sep), sep) == parts
    decreases |parts|
  {
    var p := parts[0];
    if |parts| > 1 {
      var rest := parts[1..];
      assert forall k :: 0 <= k < |rest| ==> rest[k] == parts[k + 1];
      SplitOnJoin(rest, sep);
      SplitOnCons(p, Join(rest, sep), sep);
      assert parts == [p] + rest;
    }
  }

  /** A separator-free part followed by the separator splits off as the first part. */
  lemma SplitOnCons(p: string, rest: string, sep: char)
    requires forall j :: 0 <= j < |p| ==> p[j] != sep
    ensures SplitOn(p + [sep] + rest, sep) == [p] + SplitOn(rest, sep)
  {
    var s := p + [sep] + rest;
    assert forall j :: 0 <= j < |p| ==> s[j] == p[j];
    assert s[|p|] == sep;
    assert IndexOf(s, sep, 0) == |p|;
    assert s[..|p|] == p && s[|p| + 1..] == rest;
  }

  /** Length of the longest run of characters failing `p` that starts at `from`. */
  function SpanNot(s: string, from: nat, p: char -> bool): (n: nat)
    requires from <= |s|
    ensures from + n <= |s|
    ensures forall i :: from <= i < from + n ==> !p(s[i])
    ensures from + n == |s| || p(s[from + n])
    decreases |s| - from
  {
    if from < |s| && !p(s[from]) then 1 + SpanNot(s, from + 1, p) else 0
  }

  /** The maximal runs of characters that are not `blank` at or after `from`, in order. */
  function FieldsFrom(s: string, from: nat, blank: char -> bool): seq<string>
    requires from <= |s|
    decreases |s| - from
  {
    var i := from + Span(s, from, blank);
    if i == |s| then []
    else
      var n := SpanNot(s, i, blank);
      [s[i..i + n]] + FieldsFrom(s, i + n, blank)
  }

  /** Python's `s.split()`: the maximal runs of non-whitespace characters, in order. */
  function Words(s: string): seq<string> {
    FieldsFrom(s, 0, IsSpace)
  }

  /** Every field is non-empty and free of blanks; there is none exactly when all is blank. */
  lemma {:induction false} FieldsShape(s: string, from: nat, blank: char -> bool)
    requires from <= |s|
    ensures forall k :: 0 <= k < |FieldsFrom(s, from, blank)| ==> |FieldsFrom(s, from, blank)[k]| >= 1
    ensures forall k, j :: 0 <= k < |FieldsFrom(s, from, blank)| && 0 <= j < |FieldsFrom(s, from, blank)[k]|
                           ==> !blank(FieldsFrom(s, from, blank)[k][j])
    ensures FieldsFrom(s, from, blank) == [] <==> forall j :: from <= j < |s| ==> blank(s[j])
    decreases |s| - from
  {
    SpanAll(s, from, blank);
    var i := from + Span(s, from, blank);
    if i < |s| {
      var next := i + SpanNot(s, i, blank);
      FieldsFromStep(s, from, i, next, blank);
      FieldsShape(s, next, blank);
      assert !blank(s[i]);
      var w := s[i..next];
      assert forall j :: 0 <= j < |w| ==> w[j] == s[i + j];
      ConsShape(w, FieldsFrom(s, next, blank), blank);
    }
  }

  /** A non-empty blank-free word in front of blank-free words keeps every word so. */
  lemma ConsShape(w: string, rest: seq<string>, blank: char -> bool)
    requires |w| >= 1 && forall j :: 0 <= j < |w| ==> !blank(w[j])
    requires forall k :: 0 <= k < |rest| ==> |rest[k]| >= 1
    requires forall k, j :: 0 <= k < |rest| && 0 <= j < |rest[k]| ==> !blank(rest[k][j])
    ensures forall k :: 0 <= k < |[w] + rest| ==> |([w] + rest)[k]| >= 1
    ensures forall k, j :: 0 <= k < |[w] + rest| && 0 <= j < |([w] + rest)[k]| ==> !blank(([w] + rest)[k][j])
  {
    var ws := [w] + rest;
    forall k | 1 <= k < |ws|
      ensures ws[k] == rest[k - 1]
    {
    }
  }

  /** A run of non-`p` characters that cannot be extended is the one `SpanNot` finds. */
  lemma {:induction false} SpanNotIs(s: string, from: nat, n: nat, p: char -> bool)
    requires from + n <= |s|
    requires forall i :: from <= i < from + n ==> !p(s[i])
    requires from + n == |s| || p(s[from + n])
    ensures SpanNot(s, from, p) == n
    decreases n
  {
    if n > 0 {
      SpanNotIs(s, from + 1, n - 1, p);
    }
  }

  /** Blanks from `from` up to `m`, then non-blanks up to the end: those are the only field. */
  lemma FieldsOfLastField(s: string, from: nat, m: nat, blank: char -> bool)
    requires from <= m < |s|
    requires forall j :: from <= j < m ==> blank(s[j])
    requires forall j :: m <= j < |s| ==> !blank(s[j])
    ensures FieldsFrom(s, from, blank) == [s[m..]]
  {
    SpanIs(s, from, m - from, blank);
    SpanNotIs(s, m, |s| - m, blank);
    assert FieldsFrom(s, from, blank) == [s[m..m + (|s| - m)]] + FieldsFrom(s, |s|, blank);
    assert s[m..m + (|s| - m)] == s[m..];
  }

  /**
   * A text whose last blank is at `k`, with a field after it, has that field as its last
   * field, whatever comes before.
   */
  lemma {:induction false} FieldsEndWith(s: string, from: nat, k: nat, blank: char -> bool)
    requires from <= k && k + 1 < |s| && blank(s[k])
    requires forall j :: k < j < |s| ==> !blank(s[j])
    ensures var ws := FieldsFrom(s, from, blank); |ws| >= 1 && ws[|ws| - 1] == s[k + 1..]
    decreases |s| - from
  {
    var i := from + Span(s, from, blank);
    SpanAll(s, from, blank);
    if i > k {
      FieldsOfLastField(s, from, k + 1, blank);
    } else {
      var next := FieldsBeforeBlank(s, from, k, blank);
      FieldsEndWith(s, next, k, blank);
      LastOfCons(s[i..next], FieldsFrom(s, next, blank));
    }
  }

  /** The field that starts before the blank at `k` ends at or before it. */
  lemma FieldsBeforeBlank(s: string, from: nat, k: nat, blank: char -> bool) returns (next: nat)
    requires from <= k < |s| && blank(s[k])
    requires from + Span(s, from, blank) <= k
    ensures var i := from + Span(s, from, blank);
            i < next <= k && FieldsFrom(s, from, blank) == [s[i..next]] + FieldsFrom(s, next, blank)
  {
    var i := from + Span(s, from, blank);
    assert i != k;
    next := i + SpanNot(s, i, blank);
    assert next <= k by {
      SpanNotStops(s, i, k, blank);
    }
    FieldsFromStep(s, from, i, next, blank);
  }

  /** A run of non-blanks stops at the first blank. */
  lemma SpanNotStops(s: string, i: nat, k: nat, blank: char -> bool)
    requires i <= k < |s| && blank(s[k])
    ensures i + SpanNot(s, i, blank) <= k
  {
  }

  /** The first field after `from` runs from `i` to `next`, and the other fields follow it. */
  lemma FieldsFromStep(s: string, from: nat, i: nat, next: nat, blank: char -> bool)
    requires from <= i < |s| && i == from + Span(s, from, blank) && next == i + SpanNot(s, i, blank)
    ensures FieldsFrom(s, from, blank) == [s[i..next]] + FieldsFrom(s, next, blank)
  {
  }

  lemma LastOfCons(w: string, rest: seq<string>)
    requires |rest| >= 1
    ensures var ws := [w] + rest; |ws| >= 1 && ws[|ws| - 1] == rest[|rest| - 1]
  {
  }

  /** Number of whitespace characters `s` starts with. */
  function LeadingSpaces(s: string): nat
    ensures LeadingSpaces(s) <= |s|
  {
    Span(s, 0, IsSpace)
  }

  /** Python's `s.strip()`: `s` without its leading and trailing whitespace. */
  function Strip(s: string): (t: string)
    ensures LeadingSpaces(s) + |t| <= |s|
    ensures t == s[LeadingSpaces(s)..LeadingSpaces(s) + |t|]
    ensures t == [] || (!IsSpace(t[0]) && !IsSpace(t[|t| - 1]))
    ensures forall j :: 0 <= j < LeadingSpaces(s) ==> IsSpace(s[j])
    ensures forall j :: LeadingSpaces(s) + |t| <= j < |s| ==> IsSpace(s[j])
  {
    var i := LeadingSpaces(s);
    SpanAll(s, 0, IsSpace);
    var t := StripEnd(s[i..]);
    assert t == s[i..i + |t|];
    t
  }

  function StripEnd(s: string): (t: string)
    ensures |t| <= |s| && t == s[..|t|]
    ensures t == [] || !IsSpace(t[|t| - 1])
    ensures forall j :: |t| <= j < |s| ==> IsSpace(s[j])
  {
    if s != [] && IsSpace(s[|s| - 1]) then StripEnd(s[..|s| - 1]) else s
  }

  lemma StripIdempotent(s: string)
    ensures Strip(Strip(s)) == Strip(s)
  {
    var t := Strip(s);
    assert Span(t, 0, IsSpace) == 0;
    assert t[0..] == t;
  }
}
