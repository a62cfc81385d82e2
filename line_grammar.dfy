/**
 * Classification of one raw GEDCOM line, `level [pointer] tag [value] terminator`, the way the
 * reader's regular expression matches it from the start of the line: the level is a decimal
 * number without leading zeros, the pointer is flanked by `@`, the tag is a run of letters,
 * digits and `_`, the value runs to the end of the line and the terminator is one or two
 * CR/LF characters. Text after the terminator is ignored.
 */
module LineGrammar {
  import opened Wrappers
  import opened Text

  /** The five parts a matching line yields; `pointer` is `""` when the line has none. */
  datatype LineFields = LineFields(level: nat, pointer: string, tag: string, value: string, crlf: string)

  predicate IsTagChar(c: char) {
    'A' <= c <= 'Z' || 'a' <= c <= 'z' || '0' <= c <= '9' || c == '_'
  }

  predicate IsEol(c: char) {
    c == '\r' || c == '\n'
  }

  predicate NotEol(c: char) {
    !IsEol(c)
  }

  predicate NotAt(c: char) {
    c != '@'
  }

  predicate ValidPointer(p: string) {
    p == "" || (|p| >= 3 && p[0] == '@' && p[|p| - 1] == '@' && forall i :: 0 < i < |p| - 1 ==> p[i] != '@')
  }

  predicate ValidTag(t: string) {
    |t| >= 1 && forall i :: 0 <= i < |t| ==> IsTagChar(t[i])
  }

  predicate ValidValue(v: string) {
    forall i :: 0 <= i < |v| ==> !IsEol(v[i])
  }

  predicate ValidTerminator(c: string) {
    1 <= |c| <= 2 && forall i :: 0 <= i < |c| ==> IsEol(c[i])
  }

  /** Fields that some line yields: everything but the terminator. */
  predicate ValidHead(f: LineFields) {
    ValidPointer(f.pointer) && ValidTag(f.tag) && ValidValue(f.value)
  }

  predicate ValidFields(f: LineFields) {
    ValidHead(f) && ValidTerminator(f.crlf)
  }

  /**
   * The text of a line up to its terminator. `spaced` says whether the tag is followed by a
   * space (and the value); without it the value must be empty.
   */
  function RenderHead(f: LineFields, spaced: bool): string {
    RenderParts(NatToString(f.level), f.pointer, f.tag, f.value, spaced)
  }

  /** The same text with the level already written out as the digits `ds`. */
  function RenderParts(ds: string, pointer: string, tag: string, value: string, spaced: bool): string {
    ds + " " + (if pointer == "" then "" else pointer + " ") + tag + (if spaced then " " + value else "")
  }

  /** What the grammar without its terminator matched, and where that match ends. */
  datatype Head = Head(level: nat, pointer: string, tag: string, value: string, end: nat)

  /** Matches `level ' ' [pointer ' '] tag [' ' value]` at the start of the line. */
  function MatchHead(line: string): (r: Option<Head>)
    ensures r.Some? ==> r.value.end <= |line|
  {
    var d := Span(line, 0, IsDigit);
    if d == 0 || (line[0] == '0' && d > 1) || d == |line| || line[d] != ' ' then None
    else
      SpanAll(line, 0, IsDigit);
      MatchPointer(line, DigitsValue(line[..d]), d + 1)
  }

  /**
   * The optional `@...@ ` pointer at `p`: the pointer read (empty when there is none) and
   * where the tag starts; `None` when a `@` does not open a well-formed pointer.
   */
  function PointerAt(line: string, p: nat): (r: Option<(string, nat)>)
    requires p <= |line|
    ensures r.Some? ==> r.value.1 <= |line|
  {
    if p < |line| && line[p] == '@' then
      var q := p + 1 + Span(line, p + 1, NotAt);
      if q == p + 1 || q + 1 >= |line| || line[q + 1] != ' ' then None
      else Some((line[p..q + 1], q + 2))
    else Some(("", p))
  }

  /** The pointer at `p`, then the tag and value; a `@` that does not open a pointer fails. */
  function MatchPointer(line: string, level: nat, p: nat): (r: Option<Head>)
    requires p <= |line|
    ensures r.Some? ==> r.value.end <= |line|
  {
    match PointerAt(line, p)
    case None => None
    case Some((pointer, t)) => MatchTagValue(line, level, pointer, t)
  }

  function MatchTagValue(line: string, level: nat, pointer: string, t: nat): (r: Option<Head>)
    requires t <= |line|
    ensures r.Some? ==> r.value.end <= |line|
  {
    var e := t + Span(line, t, IsTagChar);
    if e == t then None
    else if e < |line| && line[e] == ' ' then
      var v := e + 1 + Span(line, e + 1, NotEol);
      Some(Head(level, pointer, line[t..e], line[e + 1..v], v))
    else Some(Head(level, pointer, line[t..e], "", e))
  }

  /** How many terminator characters the greedy `[\r\n]{1,2}` takes at `from` (0: no match). */
  function EolLength(line: string, from: nat): (n: nat)
    ensures n <= 2
    ensures n > 0 ==> from + n <= |line| && forall i :: from <= i < from + n ==> IsEol(line[i])
    ensures n == 0 <==> from >= |line| || !IsEol(line[from])
  {
    if from < |line| && IsEol(line[from]) then
      (if from + 1 < |line| && IsEol(line[from + 1]) then 2 else 1)
    else 0
  }

  /** The ways the reader can read a line. */
  datatype LineShape =
    | Terminated(fields: LineFields)      // the whole grammar matched
    | Unterminated(fields: LineFields)    // matched up to a missing terminator; crlf is "\n"
    | Text(value: string, crlf: string)   // bare text: the line minus its first character
    | Unreadable                          // neither: no terminator anywhere in the line

  /** `Python's s[1:]`. */
  function Drop1(s: string): string {
    if s == [] then [] else s[1..]
  }

  function ClassifyLine(line: string): LineShape {
    match MatchHead(line)
    case Some(h) =>
      var n := EolLength(line, h.end);
      if n > 0 then Terminated(LineFields(h.level, h.pointer, h.tag, h.value, line[h.end..h.end + n]))
      else Unterminated(LineFields(h.level, h.pointer, h.tag, h.value, "\n"))
    case None =>
      var k := Span(line, 0, NotEol);
      var n := EolLength(line, k);
      if n == 0 then Unreadable else Text(Drop1(line[..k]), line[k..k + n])
  }

  /** `s` occurs in `line` at position `k`. */
  predicate At(line: string, k: nat, s: string) {
    k + |s| <= |line| && forall i :: 0 <= i < |s| ==> line[k + i] == s[i]
  }

  /** A slice of the line occurs where it was taken. */
  lemma AtSlice(line: string, a: nat, b: nat)
    requires a <= b <= |line|
    ensures At(line, a, line[a..b])
  {
  }

  /** What occurs at `k` is the slice of that length there. */
  lemma AtIsSlice(line: string, k: nat, s: string)
    requires At(line, k, s)
    ensures line[k..k + |s|] == s
  {
  }

  /** A slice followed by the character `c` after it. */
  lemma AtSliceThen(line: string, a: nat, b: nat, c: char)
    requires a <= b < |line| && line[b] == c
    ensures At(line, a, line[a..b] + [c])
  {
    assert forall i :: 0 <= i < b - a ==> (line[a..b] + [c])[i] == line[a..b][i];
  }

  /** A tag at `t` that a non-tag character or the end of the line follows is read whole. */
  lemma TagAt(line: string, t: nat, tag: string)
    requires ValidTag(tag) && At(line, t, tag)
    requires t + |tag| == |line| || !IsTagChar(line[t + |tag|])
    ensures Span(line, t, IsTagChar) == |tag| && line[t..t + |tag|] == tag
  {
    forall i | t <= i < t + |tag|
      ensures IsTagChar(line[i])
    {
      assert line[t + (i - t)] == tag[i - t];
    }
    SpanIs(line, t, |tag|, IsTagChar);
    AtIsSlice(line, t, tag);
  }

  /** A value at `v` that a terminator or the end of the line follows is read whole. */
  lemma ValueAt(line: string, v: nat, value: string)
    requires ValidValue(value) && At(line, v, value)
    requires v + |value| == |line| || IsEol(line[v + |value|])
    ensures Span(line, v, NotEol) == |value| && line[v..v + |value|] == value
  {
    forall i | v <= i < v + |value|
      ensures NotEol(line[i])
    {
      assert line[v + (i - v)] == value[i - v];
    }
    SpanIs(line, v, |value|, NotEol);
    AtIsSlice(line, v, value);
  }

  /** Where a tag-and-value match starting at `t` finds its pieces, ending at `h`. */
  predicate TagValueLaid(line: string, t: nat, tag: string, value: string, spaced: bool, h: nat) {
    h == t + |tag| + (if spaced then 1 + |value| else 0) && h <= |line|
    && At(line, t, tag)
    && (spaced ==> t + |tag| < |line| && line[t + |tag|] == ' ' && At(line, t + |tag| + 1, value))
  }

  /** Reading back a tag, with a space and a value when `spaced`, that a terminator or nothing ends. */
  lemma MatchTagValueOf(line: string, level: nat, pointer: string, t: nat, tag: string, value: string, spaced: bool, h: nat)
    requires ValidTag(tag) && ValidValue(value) && (spaced || value == "")
    requires TagValueLaid(line, t, tag, value, spaced, h) && (h == |line| || IsEol(line[h]))
    ensures MatchTagValue(line, level, pointer, t) == Some(Head(level, pointer, tag, value, h))
  {
    TagAt(line, t, tag);
    if spaced {
      ValueAt(line, t + |tag| + 1, value);
    }
    MatchTagValueIs(line, level, pointer, t, tag, value, spaced, h);
  }

  /** The match once the lengths of the tag and the value runs are known. */
  lemma MatchTagValueIs(line: string, level: nat, pointer: string, t: nat, tag: string, value: string, spaced: bool, h: nat)
    requires 0 < |tag| && t + |tag| <= |line| && Span(line, t, IsTagChar) == |tag| && line[t..t + |tag|] == tag
    requires spaced ==> t + |tag| < |line| && line[t + |tag|] == ' ' && h == t + |tag| + 1 + |value|
                        && Span(line, t + |tag| + 1, NotEol) == |value| && h <= |line| && line[t + |tag| + 1..h] == value
    requires !spaced ==> value == "" && h == t + |tag| && (h == |line| || line[h] != ' ')
    ensures MatchTagValue(line, level, pointer, t) == Some(Head(level, pointer, tag, value, h))
  {
    if spaced {
      MatchSpacedIs(line, level, pointer, t, |tag|, |value|);
    } else {
      MatchBareIs(line, level, pointer, t, |tag|);
    }
  }

  /** The match when the tag is `n` characters long and a space and an `m`-character value follow. */
  lemma MatchSpacedIs(line: string, level: nat, pointer: string, t: nat, n: nat, m: nat)
    requires 0 < n && t + n < |line| && Span(line, t, IsTagChar) == n && line[t + n] == ' '
    requires Span(line, t + n + 1, NotEol) == m
    ensures MatchTagValue(line, level, pointer, t)
            == Some(Head(level, pointer, line[t..t + n], line[t + n + 1..t + n + 1 + m], t + n + 1 + m))
  {
  }

  /** The match when the tag is `n` characters long and no space follows it. */
  lemma MatchBareIs(line: string, level: nat, pointer: string, t: nat, n: nat)
    requires 0 < n && t + n <= |line| && Span(line, t, IsTagChar) == n
    requires t + n == |line| || line[t + n] != ' '
    ensures MatchTagValue(line, level, pointer, t) == Some(Head(level, pointer, line[t..t + n], "", t + n))
  {
  }

  /** The characters between a pointer's two `@` form the `[^@]+` run of the grammar. */
  lemma PointerSpan(line: string, p: nat, pointer: string)
    requires ValidPointer(pointer) && pointer != ""
    requires At(line, p, pointer)
    ensures Span(line, p + 1, NotAt) == |pointer| - 2
  {
    var n := |pointer|;
    forall i | p + 1 <= i < p + n - 1
      ensures NotAt(line[i])
    {
      assert line[p + (i - p)] == pointer[i - p];
    }
    assert line[p + (n - 1)] == pointer[n - 1];
    SpanIs(line, p + 1, n - 2, NotAt);
  }

  /** The digits of a level followed by a space are read as exactly those digits. */
  lemma LevelDigitsAt(line: string, ds: string)
    requires |ds| >= 1 && AllDigits(ds)
    requires At(line, 0, ds + " ")
    ensures |ds| < |line| && Span(line, 0, IsDigit) == |ds| && line[..|ds|] == ds
    ensures line[|ds|] == ' ' && line[0] == ds[0]
  {
    var d := |ds|;
    assert line[..d] == ds by {
      forall i | 0 <= i < d
        ensures line[..d][i] == ds[i]
      {
        assert line[0 + i] == (ds + " ")[i];
      }
    }
    forall i | 0 <= i < d
      ensures IsDigit(line[i])
    {
      assert line[..d][i] == ds[i];
    }
    assert line[0 + d] == (ds + " ")[d];
    SpanIs(line, 0, d, IsDigit);
    assert line[..d][0] == ds[0];
  }

  /** Reading back the level: what remains is the pointer match after it. */
  lemma MatchHeadLevel(line: string, ds: string, r: Option<Head>)
    requires |ds| >= 1 && AllDigits(ds) && (ds[0] == '0' ==> ds == "0")
    requires At(line, 0, ds + " ")
    requires MatchPointer(line, DigitsValue(ds), |ds| + 1) == r
    ensures MatchHead(line) == r
  {
    LevelDigitsAt(line, ds);
  }

  /** Reading back the pointer, or its absence before a tag character. */
  lemma PointerAtOf(line: string, p: nat, pointer: string)
    requires ValidPointer(pointer) && p < |line|
    requires pointer != "" ==> At(line, p, pointer + " ") && p + |pointer| + 1 < |line|
    requires pointer == "" ==> IsTagChar(line[p])
    ensures PointerAt(line, p) == Some((pointer, p + (if pointer == "" then 0 else |pointer| + 1)))
  {
    if pointer != "" {
      var n := |pointer|;
      assert At(line, p, pointer) by {
        forall i | 0 <= i < n
          ensures line[p + i] == pointer[i]
        {
          assert line[p + i] == (pointer + " ")[i];
        }
      }
      PointerSpan(line, p, pointer);
      assert line[p + 0] == pointer[0];
      assert line[p + n] == (pointer + " ")[n];
      assert line[p..p + n] == pointer;
    }
  }

  /** Reading back the pointer: what remains is the tag and value match after it. */
  lemma MatchPointerOf(line: string, level: nat, p: nat, pointer: string, t: nat, r: Option<Head>)
    requires ValidPointer(pointer)
    requires p < |line| && t == p + (if pointer == "" then 0 else |pointer| + 1)
    requires pointer != "" ==> At(line, p, pointer + " ") && t < |line|
    requires pointer == "" ==> IsTagChar(line[p])
    requires MatchTagValue(line, level, pointer, t) == r
    ensures MatchPointer(line, level, p) == r
  {
    PointerAtOf(line, p, pointer);
  }

  /**
   * Where the parts of a head sit in `line`: the level digits `ds` and a space, the optional
   * pointer and a space, the tag and, when `spaced`, a space and the value, ending at `h`.
   */
  predicate Layout(line: string, ds: string, pointer: string, tag: string, value: string, spaced: bool, h: nat) {
    TagStart(ds, pointer) < |line|
    && At(line, 0, ds + " ")
    && (pointer != "" ==> At(line, |ds| + 1, pointer + " "))
    && TagValueLaid(line, TagStart(ds, pointer), tag, value, spaced, h)
  }

  /** Where the tag starts: after the level, its space, and the pointer with its space. */
  function TagStart(ds: string, pointer: string): nat {
    |ds| + 1 + (if pointer == "" then 0 else |pointer| + 1)
  }

  /** Where the parts of a rendered head sit in the line. */
  lemma RenderLayout(ds: string, pointer: string, tag: string, value: string, spaced: bool, tail: string)
    requires |tag| >= 1
    ensures var line := RenderParts(ds, pointer, tag, value, spaced) + tail;
            var h := |RenderParts(ds, pointer, tag, value, spaced)|;
            Layout(line, ds, pointer, tag, value, spaced, h) && At(line, h, tail)
  {
    var b := if pointer == "" then "" else pointer + " ";
    var dv := if spaced then " " + value else "";
    var line := RenderParts(ds, pointer, tag, value, spaced) + tail;
    assert line == (ds + " ") + b + tag + dv + tail;
  }

  /** Reading back a rendered head: the match ends exactly where the head ends. */
  lemma MatchHeadOfRender(f: LineFields, spaced: bool, tail: string)
    requires ValidHead(f) && (spaced || f.value == "")
    requires tail == [] || IsEol(tail[0])
    ensures MatchHead(RenderHead(f, spaced) + tail)
            == Some(Head(f.level, f.pointer, f.tag, f.value, |RenderHead(f, spaced)|))
  {
    var line := RenderHead(f, spaced) + tail;
    var h := |RenderHead(f, spaced)|;
    RenderLayout(NatToString(f.level), f.pointer, f.tag, f.value, spaced, tail);
    assert h == |line| || IsEol(line[h]) by {
      if h < |line| {
        assert line[h + 0] == tail[0];
      }
    }
    MatchHeadAt(line, NatToString(f.level), f.pointer, f.tag, f.value, spaced, h);
  }

  /** Reading back a head whose parts sit at known positions of `line`. */
  lemma MatchHeadAt(line: string, ds: string, pointer: string, tag: string, value: string, spaced: bool, h: nat)
    requires ValidPointer(pointer) && ValidTag(tag) && ValidValue(value) && (spaced || value == "")
    requires |ds| >= 1 && AllDigits(ds) && (ds[0] == '0' ==> ds == "0")
    requires Layout(line, ds, pointer, tag, value, spaced, h) && (h == |line| || IsEol(line[h]))
    ensures MatchHead(line) == Some(Head(DigitsValue(ds), pointer, tag, value, h))
  {
    var t := TagStart(ds, pointer);
    var level := DigitsValue(ds);
    var r := Some(Head(level, pointer, tag, value, h));
    var p := |ds| + 1;
    MatchTagValueOf(line, level, pointer, t, tag, value, spaced, h);
    if pointer == "" {
      assert line[t + 0] == tag[0];
    }
    MatchPointerOf(line, level, p, pointer, t, r);
    MatchHeadLevel(line, ds, r);
  }

  /**
   * A head that matches, followed by a whole terminator and then text that does not extend
   * the terminator, reads as a terminated line.
   */
  lemma ClassifyMatched(hs: string, crlf: string, rest: string, h: Head)
    requires ValidTerminator(crlf) && h.end == |hs|
    requires MatchHead(hs + (crlf + rest)) == Some(h)
    requires rest == [] || !IsEol(rest[0]) || |crlf| == 2
    ensures ClassifyLine(hs + crlf + rest) == Terminated(LineFields(h.level, h.pointer, h.tag, h.value, crlf))
  {
    var line := hs + crlf + rest;
    assert line == hs + (crlf + rest);
    assert line[h.end] == crlf[0];
    if |crlf| == 2 {
      assert line[h.end + 1] == crlf[1];
    } else if rest != [] {
      assert line[h.end + 1] == rest[0];
    }
    assert line[h.end..h.end + |crlf|] == crlf;
  }

  /** A well-formed line reads back as its own fields; text after the terminator is ignored. */
  lemma ClassifyRender(f: LineFields, spaced: bool, rest: string)
    requires ValidFields(f) && (spaced || f.value == "")
    requires rest == [] || !IsEol(rest[0]) || |f.crlf| == 2
    ensures ClassifyLine(RenderHead(f, spaced) + f.crlf + rest) == Terminated(f)
  {
    var hs := RenderHead(f, spaced);
    assert IsEol(f.crlf[0]);
    MatchHeadOfRender(f, spaced, f.crlf + rest);
    ClassifyMatched(hs, f.crlf, rest, Head(f.level, f.pointer, f.tag, f.value, |hs|));
  }

  /** A well-formed head with nothing after it is read as if it ended with `\n`. */
  lemma ClassifyRenderUnterminated(f: LineFields, spaced: bool)
    requires ValidHead(f) && (spaced || f.value == "")
    ensures ClassifyLine(RenderHead(f, spaced)) == Unterminated(f.(crlf := "\n"))
  {
    MatchHeadOfRender(f, spaced, "");
    assert RenderHead(f, spaced) + "" == RenderHead(f, spaced);
  }

  /** Two pieces that sit next to each other form their concatenation. */
  lemma AtConcat(line: string, k: nat, a: string, b: string)
    requires At(line, k, a) && At(line, k + |a|, b)
    ensures At(line, k, a + b)
  {
    forall i | 0 <= i < |a + b|
      ensures line[k + i] == (a + b)[i]
    {
      if i >= |a| {
        assert line[k + |a| + (i - |a|)] == b[i - |a|];
      }
    }
  }

  /** The text a tag-and-value match covers from `t`: the tag and, after a space, the value. */
  predicate TagValueAt(line: string, t: nat, h: Head) {
    ValidTag(h.tag) && ValidValue(h.value) && t <= h.end
    && ((At(line, t, h.tag + " " + h.value) && h.end == t + |h.tag| + 1 + |h.value|)
        || (h.value == "" && At(line, t, h.tag) && h.end == t + |h.tag|))
  }

  /** The tag a successful match reads is well formed. */
  lemma MatchTagValid(line: string, level: nat, pointer: string, t: nat, h: Head)
    requires t <= |line| && MatchTagValue(line, level, pointer, t) == Some(h)
    ensures ValidTag(h.tag)
  {
    RunAt(line, t, IsTagChar);
  }

  /** The value a successful match reads holds no terminator. */
  lemma MatchValueValid(line: string, level: nat, pointer: string, t: nat, h: Head)
    requires t <= |line| && MatchTagValue(line, level, pointer, t) == Some(h)
    ensures ValidValue(h.value)
  {
    var e := t + Span(line, t, IsTagChar);
    if e < |line| && line[e] == ' ' {
      RunAt(line, e + 1, NotEol);
    }
  }

  /** The tag, and the space and value when there is one, sit where the match read them. */
  lemma MatchTagValuePlaced(line: string, level: nat, pointer: string, t: nat, h: Head)
    requires t <= |line| && MatchTagValue(line, level, pointer, t) == Some(h)
    ensures (At(line, t, h.tag + " " + h.value) && h.end == t + |h.tag| + 1 + |h.value|)
            || (h.value == "" && At(line, t, h.tag) && h.end == t + |h.tag|)
  {
    var e := t + Span(line, t, IsTagChar);
    AtSlice(line, t, e);
    if e < |line| && line[e] == ' ' {
      var v := e + 1 + Span(line, e + 1, NotEol);
      AtSlice(line, e + 1, v);
      assert At(line, e, " ");
      AtConcat(line, t, h.tag, " ");
      AtConcat(line, t, h.tag + " ", h.value);
    }
  }

  lemma MatchTagValueSound(line: string, level: nat, pointer: string, t: nat, h: Head)
    requires t <= |line| && MatchTagValue(line, level, pointer, t) == Some(h)
    ensures h.level == level && h.pointer == pointer && TagValueAt(line, t, h)
  {
    MatchTagValid(line, level, pointer, t, h);
    MatchValueValid(line, level, pointer, t, h);
    MatchTagValuePlaced(line, level, pointer, t, h);
  }

  /** The run a `Span` covers occurs where it starts, and every character of it qualifies. */
  lemma RunAt(line: string, from: nat, p: char -> bool)
    requires from <= |line|
    ensures var run := line[from..from + Span(line, from, p)];
            At(line, from, run) && forall i :: 0 <= i < |run| ==> p(run[i])
  {
    var n := Span(line, from, p);
    SpanAll(line, from, p);
    AtSlice(line, from, from + n);
    var run := line[from..from + n];
    forall i | 0 <= i < n
      ensures p(run[i])
    {
      assert run[i] == line[from + i];
    }
  }

  /** A pointer read at `p` is well formed and sits there, followed by a space. */
  lemma PointerAtSound(line: string, p: nat, pointer: string, t: nat)
    requires p <= |line| && PointerAt(line, p) == Some((pointer, t))
    ensures ValidPointer(pointer) && t <= |line|
    ensures pointer == "" ==> t == p
    ensures pointer != "" ==> t == p + |pointer| + 1 && At(line, p, pointer + " ")
  {
    if p < |line| && line[p] == '@' {
      var q := p + 1 + Span(line, p + 1, NotAt);
      assert q != p + 1 && q + 1 < |line| && line[q + 1] == ' ';
      assert pointer == line[p..q + 1];
      SpanAll(line, p + 1, NotAt);
      assert pointer[0] == '@' && pointer[|pointer| - 1] == line[q] == '@';
      forall i | 0 < i < |pointer| - 1
        ensures pointer[i] != '@'
      {
        assert pointer[i] == line[p + i];
      }
      AtSliceThen(line, p, q + 1, ' ');
    }
  }

  /** The text a match covers from `p`: the optional pointer and its space, then tag and value. */
  predicate PointerTagValueAt(line: string, p: nat, h: Head) {
    ValidPointer(h.pointer)
    && if h.pointer == "" then TagValueAt(line, p, h)
       else At(line, p, h.pointer + " ") && TagValueAt(line, p + |h.pointer| + 1, h)
  }

  /** What a successful match from `p` read is what the text holds there. */
  lemma MatchPointerSound(line: string, level: nat, p: nat, h: Head)
    requires p <= |line| && MatchPointer(line, level, p) == Some(h)
    ensures h.level == level && PointerTagValueAt(line, p, h)
  {
    var (pointer, t) := PointerAt(line, p).value;
    PointerAtSound(line, p, pointer, t);
    MatchTagValueSound(line, level, pointer, t, h);
  }

  /** A successful match starts with the canonical text of its level and a space. */
  lemma MatchLevelSound(line: string, h: Head)
    requires MatchHead(line) == Some(h)
    ensures var d := |NatToString(h.level)|;
            d < |line| && At(line, 0, NatToString(h.level) + " ") && MatchPointer(line, h.level, d + 1) == Some(h)
  {
    var d := Span(line, 0, IsDigit);
    var ds := line[..d];
    SpanAll(line, 0, IsDigit);
    NatToStringOfDigits(ds);
    AtSliceThen(line, 0, d, ' ');
    assert line[0..d] == ds;
    assert MatchPointer(line, DigitsValue(ds), d + 1) == Some(h);
    MatchPointerLevel(line, DigitsValue(ds), d + 1, h);
  }

  /** A match records the level it was given. */
  lemma MatchPointerLevel(line: string, level: nat, p: nat, h: Head)
    requires p <= |line| && MatchPointer(line, level, p) == Some(h)
    ensures h.level == level
  {
  }

  /** The level with its space, then the optional pointer with its space, start the line. */
  lemma PrefixAt(line: string, ds: string, pointer: string)
    requires At(line, 0, ds + " ") && (pointer != "" ==> At(line, |ds| + 1, pointer + " "))
    ensures At(line, 0, ds + " " + (if pointer == "" then "" else pointer + " "))
  {
    if pointer != "" {
      AtConcat(line, 0, ds + " ", pointer + " ");
    } else {
      assert ds + " " + "" == ds + " ";
    }
  }

  /** Pieces read one after another make up the rendered head. */
  lemma HeadAt(line: string, ds: string, h: Head)
    requires At(line, 0, ds + " ") && PointerTagValueAt(line, |ds| + 1, h)
    ensures (At(line, 0, RenderParts(ds, h.pointer, h.tag, h.value, true))
             && h.end == |RenderParts(ds, h.pointer, h.tag, h.value, true)|)
            || (h.value == "" && At(line, 0, RenderParts(ds, h.pointer, h.tag, h.value, false))
                && h.end == |RenderParts(ds, h.pointer, h.tag, h.value, false)|)
  {
    var pre := ds + " " + (if h.pointer == "" then "" else h.pointer + " ");
    PrefixAt(line, ds, h.pointer);
    var t := |pre|;
    assert TagValueAt(line, t, h);
    if At(line, t, h.tag + " " + h.value) && h.end == t + |h.tag| + 1 + |h.value| {
      AtConcat(line, 0, pre, h.tag + " " + h.value);
      assert pre + (h.tag + " " + h.value) == RenderParts(ds, h.pointer, h.tag, h.value, true);
    } else {
      AtConcat(line, 0, pre, h.tag);
      assert pre + h.tag == RenderParts(ds, h.pointer, h.tag, h.value, false);
    }
  }

  /** The rendered head sits at the start of `line` when its level, pointer, tag and value do. */
  lemma HeadRendered(line: string, h: Head)
    requires At(line, 0, NatToString(h.level) + " ")
    requires PointerTagValueAt(line, |NatToString(h.level)| + 1, h)
    ensures var f := LineFields(h.level, h.pointer, h.tag, h.value, "");
            ValidHead(f)
            && ((At(line, 0, RenderHead(f, true)) && h.end == |RenderHead(f, true)|)
                || (h.value == "" && At(line, 0, RenderHead(f, false)) && h.end == |RenderHead(f, false)|))
  {
    HeadAt(line, NatToString(h.level), h);
  }

  /** Everything `MatchHead` reads is a well-formed head that the line starts with. */
  lemma MatchHeadSound(line: string, h: Head)
    requires MatchHead(line) == Some(h)
    ensures var f := LineFields(h.level, h.pointer, h.tag, h.value, "");
            ValidHead(f) && h.end <= |line|
            && ((At(line, 0, RenderHead(f, true)) && h.end == |RenderHead(f, true)|)
                || (h.value == "" && At(line, 0, RenderHead(f, false)) && h.end == |RenderHead(f, false)|))
  {
    MatchHeadParts(line, h);
    HeadRendered(line, h);
  }

  /** A successful match: the level's digits and a space, then the pointer, tag and value. */
  lemma MatchHeadParts(line: string, h: Head)
    requires MatchHead(line) == Some(h)
    ensures At(line, 0, NatToString(h.level) + " ") && PointerTagValueAt(line, |NatToString(h.level)| + 1, h)
  {
    MatchLevelSound(line, h);
    MatchPointerSound(line, h.level, |NatToString(h.level)| + 1, h);
  }

  /** A rendered head at the start of `line`, then a terminator, form the rendered line. */
  lemma TerminatedRendered(line: string, h: Head, crlf: string)
    requires var g := LineFields(h.level, h.pointer, h.tag, h.value, "");
             (At(line, 0, RenderHead(g, true)) && h.end == |RenderHead(g, true)|)
             || (h.value == "" && At(line, 0, RenderHead(g, false)) && h.end == |RenderHead(g, false)|)
    requires At(line, h.end, crlf)
    ensures var f := LineFields(h.level, h.pointer, h.tag, h.value, crlf);
            At(line, 0, RenderHead(f, true) + crlf) || (f.value == "" && At(line, 0, RenderHead(f, false) + crlf))
  {
    var g := LineFields(h.level, h.pointer, h.tag, h.value, "");
    var f := g.(crlf := crlf);
    assert RenderHead(f, true) == RenderHead(g, true) && RenderHead(f, false) == RenderHead(g, false);
    if At(line, 0, RenderHead(g, true)) && h.end == |RenderHead(g, true)| {
      AtConcat(line, 0, RenderHead(g, true), crlf);
    } else {
      AtConcat(line, 0, RenderHead(g, false), crlf);
    }
  }

  /** A head followed by a terminator: the line starts with the rendering of both. */
  lemma TerminatedSound(line: string)
    requires MatchHead(line).Some? && EolLength(line, MatchHead(line).value.end) > 0
    ensures var f := ClassifyLine(line).fields;
            ClassifyLine(line).Terminated? && ValidFields(f)
            && (At(line, 0, RenderHead(f, true) + f.crlf)
                || (f.value == "" && At(line, 0, RenderHead(f, false) + f.crlf)))
  {
    var h := MatchHead(line).value;
    var n := EolLength(line, h.end);
    var crlf := line[h.end..h.end + n];
    assert ClassifyLine(line) == Terminated(LineFields(h.level, h.pointer, h.tag, h.value, crlf));
    MatchHeadSound(line, h);
    AtSlice(line, h.end, h.end + n);
    TerminatedRendered(line, h, crlf);
  }

  /** A head without a terminator: the line starts with the rendering of the head. */
  lemma UnterminatedSound(line: string)
    requires MatchHead(line).Some? && EolLength(line, MatchHead(line).value.end) == 0
    ensures var f := ClassifyLine(line).fields;
            ClassifyLine(line).Unterminated? && ValidHead(f) && f.crlf == "\n"
            && (At(line, 0, RenderHead(f, true)) || (f.value == "" && At(line, 0, RenderHead(f, false))))
  {
    var h := MatchHead(line).value;
    MatchHeadSound(line, h);
    var g := LineFields(h.level, h.pointer, h.tag, h.value, "");
    var f := g.(crlf := "\n");
    assert ClassifyLine(line) == Unterminated(f);
    assert RenderHead(f, true) == RenderHead(g, true) && RenderHead(f, false) == RenderHead(g, false);
  }

  /** A bare text line: its first character, then the value, then the terminator. */
  lemma TextSound(line: string)
    requires MatchHead(line).None?
    ensures ClassifyLine(line).Text? ==>
              var c := ClassifyLine(line);
              ValidValue(c.value) && ValidTerminator(c.crlf)
              && (if IsEol(line[0]) then c.value == "" && At(line, 0, c.crlf)
                  else At(line, 0, [line[0]] + c.value + c.crlf))
    ensures ClassifyLine(line).Unreadable? ==> forall i :: 0 <= i < |line| ==> !IsEol(line[i])
  {
    var k := Span(line, 0, NotEol);
    var n := EolLength(line, k);
    SpanAll(line, 0, NotEol);
    if n > 0 {
      var crlf := line[k..k + n];
      assert ClassifyLine(line) == Text(Drop1(line[..k]), crlf);
      AtSlice(line, k, k + n);
      if k > 0 {
        var v := line[1..k];
        assert At(line, 0, [line[0]] + v) by {
          forall i | 0 <= i < k
            ensures line[0 + i] == ([line[0]] + v)[i]
          {
          }
        }
        AtConcat(line, 0, [line[0]] + v, crlf);
      } else {
        assert line[..k] == [];
      }
    }
  }

  /**
   * What the reader takes from a line is justified by the line: a terminated line starts with
   * the rendering of its fields, an unterminated one with the rendering of its head, and a
   * bare text line is its first character, its value and its terminator.
   */
  lemma ClassifySound(line: string)
    ensures ClassifyLine(line).Terminated? ==>
              var f := ClassifyLine(line).fields;
              ValidFields(f)
              && (At(line, 0, RenderHead(f, true) + f.crlf)
                  || (f.value == "" && At(line, 0, RenderHead(f, false) + f.crlf)))
    ensures ClassifyLine(line).Unterminated? ==>
              var f := ClassifyLine(line).fields;
              ValidHead(f) && f.crlf == "\n"
              && (At(line, 0, RenderHead(f, true)) || (f.value == "" && At(line, 0, RenderHead(f, false))))
    ensures ClassifyLine(line).Text? ==>
              var c := ClassifyLine(line);
              MatchHead(line).None? && ValidValue(c.value) && ValidTerminator(c.crlf)
              && (if IsEol(line[0]) then c.value == "" && At(line, 0, c.crlf)
                  else At(line, 0, [line[0]] + c.value + c.crlf))
    ensures ClassifyLine(line).Unreadable? ==>
              MatchHead(line).None? && forall i :: 0 <= i < |line| ==> !IsEol(line[i])
  {
    if MatchHead(line).Some? {
      if EolLength(line, MatchHead(line).value.end) > 0 {
        TerminatedSound(line);
      } else {
        UnterminatedSound(line);
      }
    } else {
      TextSound(line);
    }
  }
}
