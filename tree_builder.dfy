/**
 * Building the record tree from the lines of a file. Each line is read into a record (strictly,
 * or with the two lenient repairs), attached under the nearest ancestor of the previously read
 * record whose level is one less, and becomes the new cursor. The cursor is the path of child
 * indices from the virtual root to the last record read.
 */
module TreeBuilder {
  import opened Wrappers
  import opened Records
  import opened LineGrammar

  /** The tag of the virtual root; any tag other than CONT and CONC behaves the same. */
  const RootTag := "ROOT"

  /** The virtual root of a fresh parse: level -1 and no children. */
  function EmptyRoot(): (r: Record)
    ensures r.kind == Root && r.level == -1 && r.children == []
  {
    Record(Root, -1, "", RootTag, "", "\n", [])
  }

  /** What the reader raises. */
  datatype ParseError =
    | FormatViolation(lineNumber: nat, line: string)  // strict mode: the line does not match
    | LevelJump(lineNumber: nat)                      // the level is more than one deeper
    | NoTerminator(lineNumber: nat)                   // lenient mode: the bare-text match fails

  /** The record a matched line creates: the class follows the tag, there are no children yet. */
  function RecordOf(f: LineFields): (e: Record)
    ensures e.level == f.level && e.pointer == f.pointer && e.tag == f.tag && e.value == f.value
    ensures e.crlf == f.crlf && e.kind == KindOf(f.tag) && e.children == []
  {
    Record(KindOf(f.tag), f.level, f.pointer, f.tag, f.value, f.crlf, [])
  }

  /**
   * Reads one line given the record read before it (`last`). Strict mode accepts only a fully
   * matching line. Lenient mode also accepts a line that lacks only its terminator, and turns
   * any other line with a terminator into a CONC record one level below `last`, or into a
   * sibling of `last` when `last` is itself a CONT or CONC record.
   */
  function ReadLine(line: string, lineNumber: nat, last: Record, strict: bool): Result<Record, ParseError> {
    match ClassifyLine(line)
    case Terminated(f) => Ok(RecordOf(f))
    case Unterminated(f) => if strict then Err(FormatViolation(lineNumber, line)) else Ok(RecordOf(f))
    case Text(value, crlf) =>
      if strict then Err(FormatViolation(lineNumber, line))
      else
        var tag := GetTag(last);
        if tag == CONT || tag == CONC then Ok(Record(Generic, last.level, "", tag, value, crlf, []))
        else Ok(Record(Generic, last.level + 1, "", CONC, value, crlf, []))
    case Unreadable => if strict then Err(FormatViolation(lineNumber, line)) else Err(NoTerminator(lineNumber))
  }

  /** `path` leads from `r` through existing children. */
  predicate ValidPath(r: Record, path: seq<nat>)
    decreases |path|
  {
    path == [] || (path[0] < |r.children| && ValidPath(r.children[path[0]], path[1..]))
  }

  function NodeAt(r: Record, path: seq<nat>): Record
    requires ValidPath(r, path)
    decreases |path|
  {
    if path == [] then r else NodeAt(r.children[path[0]], path[1..])
  }

  /** `r` with `e` appended as the last child of the record at `path`. */
  function AppendAt(r: Record, path: seq<nat>, e: Record): (r': Record)
    requires ValidPath(r, path)
    ensures Header(r') == Header(r)
    decreases |path|
  {
    if path == [] then r.(children := r.children + [e])
    else r.(children := r.children[path[0] := AppendAt(r.children[path[0]], path[1..], e)])
  }

  /** Every record below `r` is one level deeper than its parent and has the class of its tag. */
  predicate WellFormed(r: Record)
    decreases r
  {
    forall i :: 0 <= i < |r.children| ==>
      r.children[i].level == r.level + 1 && r.children[i].kind == KindOf(r.children[i].tag)
      && WellFormed(r.children[i])
  }

  /** `path` follows last children only: it lies on the rightmost spine of the tree. */
  predicate OnLastSpine(r: Record, path: seq<nat>)
    decreases |path|
  {
    path == [] || (path[0] == |r.children| - 1 && OnLastSpine(r.children[path[0]], path[1..]))
  }

  /** The state carried from line to line: the tree and the path to the last record read. */
  datatype Builder = Builder(root: Record, cursor: seq<nat>)

  function Initial(): Builder {
    Builder(EmptyRoot(), [])
  }

  /**
   * The invariant of the fold: the root is the virtual root, the tree is well formed and the
   * cursor is the rightmost record of the tree, a record without children yet.
   */
  predicate Valid(b: Builder) {
    Header(b.root) == Header(EmptyRoot()) && WellFormed(b.root) && OnLastSpine(b.root, b.cursor)
    && ValidPath(b.root, b.cursor) && NodeAt(b.root, b.cursor).children == []
  }

  lemma {:induction false} PrefixValid(r: Record, path: seq<nat>, k: nat)
    requires ValidPath(r, path) && k <= |path|
    ensures ValidPath(r, path[..k])
    decreases |path|
  {
    if k > 0 {
      PrefixValid(r.children[path[0]], path[1..], k - 1);
      assert path[..k][1..] == path[1..][..k - 1];
    }
  }

  /**
   * The parent walk: starting at the cursor, step to the parent while the record's level is
   * greater than `level - 1`. The walk stops at the root at the latest.
   */
  function ParentPath(r: Record, path: seq<nat>, level: int): (q: seq<nat>)
    requires ValidPath(r, path)
    ensures ValidPath(r, q) && |q| <= |path| && q == path[..|q|]
    decreases |path|
  {
    if path != [] && NodeAt(r, path).level > level - 1 then
      PrefixValid(r, path, |path| - 1);
      var q := ParentPath(r, path[..|path| - 1], level);
      assert path[..|path| - 1][..|q|] == path[..|q|];
      q
    else path
  }

  /**
   * One line: read it, reject a level more than one deeper than the cursor's, attach the new
   * record as the last child of the record the parent walk finds and move the cursor to it.
   */
  function Step(b: Builder, line: string, lineNumber: nat, strict: bool): Result<Builder, ParseError>
    requires ValidPath(b.root, b.cursor)
  {
    var last := NodeAt(b.root, b.cursor);
    match ReadLine(line, lineNumber, last, strict)
    case Err(err) => Err(err)
    case Ok(e) =>
      if e.level > last.level + 1 then Err(LevelJump(lineNumber))
      else
        var p := ParentPath(b.root, b.cursor, e.level);
        Ok(Builder(AppendAt(b.root, p, e), p + [|NodeAt(b.root, p).children|]))
  }

  /** The outcome of reading some lines: the tree built so far and the error that stopped it. */
  datatype Outcome = Outcome(builder: Builder, error: Option<ParseError>)

  /**
   * Reading `lines` from a fresh root, numbering them from 1; the first error stops the
   * reading and leaves the records attached so far in place.
   */
  function ParseLines(lines: seq<string>, strict: bool): (o: Outcome)
    ensures Valid(o.builder)
    decreases |lines|
  {
    if lines == [] then
      assert OnLastSpine(EmptyRoot(), []);
      Outcome(Initial(), None)
    else
      var o := ParseLines(lines[..|lines| - 1], strict);
      if o.error.Some? then o
      else
        match Step(o.builder, lines[|lines| - 1], |lines|, strict)
        case Ok(b) =>
          StepValid(o.builder, lines[|lines| - 1], |lines|, strict);
          Outcome(b, None)
        case Err(err) => Outcome(o.builder, Some(err))
  }

  // ---------------------------------------------------------------------------------------
  // Paths and levels

  lemma {:induction false} SpineValid(r: Record, path: seq<nat>)
    requires OnLastSpine(r, path)
    ensures ValidPath(r, path)
    decreases |path|
  {
    if path != [] {
      SpineValid(r.children[path[0]], path[1..]);
    }
  }

  lemma {:induction false} SpinePrefix(r: Record, path: seq<nat>, k: nat)
    requires OnLastSpine(r, path) && k <= |path|
    ensures OnLastSpine(r, path[..k])
    decreases |path|
  {
    if k > 0 {
      SpinePrefix(r.children[path[0]], path[1..], k - 1);
      assert path[..k][1..] == path[1..][..k - 1];
    }
  }

  /** In a well-formed tree, the record at depth `d` has level `r.level + d`. */
  lemma {:induction false} NodeLevel(r: Record, path: seq<nat>)
    requires WellFormed(r) && ValidPath(r, path)
    ensures NodeAt(r, path).level == r.level + |path|
    ensures path != [] ==> NodeAt(r, path).kind == KindOf(NodeAt(r, path).tag)
    decreases |path|
  {
    if path != [] {
      NodeLevel(r.children[path[0]], path[1..]);
    }
  }

  /**
   * The parent walk from the cursor stops at the cursor's ancestor at depth `level`, which is
   * the first one whose level is `level - 1`.
   */
  lemma {:induction false} ParentPathIsPrefix(r: Record, path: seq<nat>, level: int)
    requires WellFormed(r) && r.level == -1 && ValidPath(r, path)
    requires 0 <= level <= |path|
    ensures ParentPath(r, path, level) == path[..level]
    ensures NodeAt(r, path[..level]).level == level - 1
    decreases |path|
  {
    PrefixValid(r, path, level);
    NodeLevel(r, path[..level]);
    if |path| > level {
      NodeLevel(r, path);
      PrefixValid(r, path, |path| - 1);
      ParentPathIsPrefix(r, path[..|path| - 1], level);
      assert path[..|path| - 1][..level] == path[..level];
      assert ParentPath(r, path, level) == ParentPath(r, path[..|path| - 1], level);
    } else {
      NodeLevel(r, path);
      assert path[..level] == path;
    }
  }

  /** Appending below `path` grows that record's children by `e` and keeps the path valid. */
  lemma {:induction false} AppendAtNode(r: Record, path: seq<nat>, e: Record)
    requires ValidPath(r, path)
    ensures ValidPath(AppendAt(r, path, e), path)
    ensures NodeAt(AppendAt(r, path, e), path) == NodeAt(r, path).(children := NodeAt(r, path).children + [e])
    decreases |path|
  {
    if path != [] {
      AppendAtNode(r.children[path[0]], path[1..], e);
    }
  }

  /** Appending a record one level deeper than its new parent keeps the tree well formed. */
  lemma {:induction false} AppendAtWellFormed(r: Record, path: seq<nat>, e: Record)
    requires WellFormed(r) && ValidPath(r, path)
    requires e.level == NodeAt(r, path).level + 1 && e.kind == KindOf(e.tag) && e.children == []
    ensures WellFormed(AppendAt(r, path, e))
    decreases |path|
  {
    var r' := AppendAt(r, path, e);
    if path == [] {
      assert WellFormed(e);
      forall i | 0 <= i < |r'.children|
        ensures r'.children[i].level == r'.level + 1 && r'.children[i].kind == KindOf(r'.children[i].tag)
                && WellFormed(r'.children[i])
      {
        if i < |r.children| {
          assert r'.children[i] == r.children[i];
        }
      }
    } else {
      var i0 := path[0];
      AppendAtWellFormed(r.children[i0], path[1..], e);
      var c' := AppendAt(r.children[i0], path[1..], e);
      assert Header(c') == Header(r.children[i0]);
      assert c'.level == r.children[i0].level && c'.kind == r.children[i0].kind && c'.tag == r.children[i0].tag;
      forall i | 0 <= i < |r'.children|
        ensures r'.children[i].level == r'.level + 1 && r'.children[i].kind == KindOf(r'.children[i].tag)
                && WellFormed(r'.children[i])
      {
        if i != i0 {
          assert r'.children[i] == r.children[i];
        }
      }
    }
  }

  /** The record appended below a spine record becomes the new end of the spine. */
  lemma {:induction false} AppendAtSpine(r: Record, path: seq<nat>, e: Record)
    requires OnLastSpine(r, path) && ValidPath(r, path)
    ensures OnLastSpine(AppendAt(r, path, e), path + [|NodeAt(r, path).children|])
    ensures ValidPath(AppendAt(r, path, e), path + [|NodeAt(r, path).children|])
    ensures NodeAt(AppendAt(r, path, e), path + [|NodeAt(r, path).children|]) == e
    decreases |path|
  {
    var r' := AppendAt(r, path, e);
    var k := |NodeAt(r, path).children|;
    if path == [] {
      assert r'.children[k] == e;
      assert (path + [k])[1..] == [];
    } else {
      AppendAtSpine(r.children[path[0]], path[1..], e);
      assert (path + [k])[1..] == path[1..] + [k];
    }
  }

  /** Each step keeps the invariant of the fold. */
  lemma StepValid(b: Builder, line: string, lineNumber: nat, strict: bool)
    requires Valid(b)
    ensures Step(b, line, lineNumber, strict).Ok? ==> Valid(Step(b, line, lineNumber, strict).value)
  {
    SpineValid(b.root, b.cursor);
    var last := NodeAt(b.root, b.cursor);
    NodeLevel(b.root, b.cursor);
    var rl := ReadLine(line, lineNumber, last, strict);
    if rl.Ok? && rl.value.level <= last.level + 1 {
      var e := rl.value;
      StepLevelNonNegative(b, line, lineNumber, strict);
      ParentPathIsPrefix(b.root, b.cursor, e.level);
      var p := b.cursor[..e.level];
      PrefixValid(b.root, b.cursor, e.level);
      SpinePrefix(b.root, b.cursor, e.level);
      AppendAtWellFormed(b.root, p, e);
      AppendAtSpine(b.root, p, e);
      var b' := Step(b, line, lineNumber, strict).value;
      assert b' == Builder(AppendAt(b.root, p, e), p + [|NodeAt(b.root, p).children|]);
    }
  }

  /** The record a line creates under a valid cursor never has a negative level. */
  lemma StepLevelNonNegative(b: Builder, line: string, lineNumber: nat, strict: bool)
    requires Valid(b)
    requires ValidPath(b.root, b.cursor)
    requires ReadLine(line, lineNumber, NodeAt(b.root, b.cursor), strict).Ok?
    ensures ReadLine(line, lineNumber, NodeAt(b.root, b.cursor), strict).value.level >= 0
    ensures ReadLine(line, lineNumber, NodeAt(b.root, b.cursor), strict).value.children == []
    ensures var e := ReadLine(line, lineNumber, NodeAt(b.root, b.cursor), strict).value;
            e.kind == KindOf(e.tag)
  {
    NodeLevel(b.root, b.cursor);
    ReadLineRecord(line, lineNumber, NodeAt(b.root, b.cursor), strict);
    if b.cursor == [] {
      assert NodeAt(b.root, b.cursor) == b.root;
      assert b.root.tag == Header(b.root).tag == RootTag;
    }
  }

  /**
   * A record read from a line has no children and the class of its tag; its level is the
   * line's own, or that of `last` (continuing a CONT or CONC record), or one below `last`.
   */
  lemma ReadLineRecord(line: string, lineNumber: nat, last: Record, strict: bool)
    requires ReadLine(line, lineNumber, last, strict).Ok?
    ensures var e := ReadLine(line, lineNumber, last, strict).value;
            e.children == [] && e.kind == KindOf(e.tag)
            && (e.level >= 0 || (e.level == last.level && (GetTag(last) == CONT || GetTag(last) == CONC))
                || e.level == last.level + 1)
  {
  }

  lemma HeadersAppend(a: seq<Record>, b: seq<Record>)
    ensures Headers(a + b) == Headers(a) + Headers(b)
  {
  }

  /** The headers of the pre-order of `xs + [c]`: those of `xs`, then `c`, then `c`'s subtree. */
  lemma FlattenHeadersLast(xs: seq<Record>, c: Record)
    ensures Headers(Flatten(xs + [c])) == Headers(Flatten(xs)) + [Header(c)] + Headers(Flatten(c.children))
  {
    var a := Flatten(xs);
    var b := Flatten(c.children);
    FlattenAppend(xs, [c]);
    assert Flatten([c]) == [c] + b by {
      assert [c][1..] == [];
    }
    HeadersAppend(a, [c] + b);
    HeadersAppend([c], b);
    assert Headers([c]) == [Header(c)];
    assert Headers(a) + ([Header(c)] + Headers(b)) == Headers(a) + [Header(c)] + Headers(b);
  }

  /**
   * Appending below a record of the rightmost spine adds the new record at the end of the
   * pre-order of the tree, the order of the lines in the file.
   */
  lemma {:induction false} AppendAtOrder(r: Record, path: seq<nat>, e: Record)
    requires OnLastSpine(r, path) && ValidPath(r, path) && e.children == []
    ensures Headers(Flatten(AppendAt(r, path, e).children)) == Headers(Flatten(r.children)) + [e]
    decreases |path|
  {
    var cs := r.children;
    var cs' := AppendAt(r, path, e).children;
    if path == [] {
      FlattenHeadersLast(cs, e);
      assert Flatten(e.children) == [];
    } else {
      var i := path[0];
      var c := cs[i];
      var c' := AppendAt(c, path[1..], e);
      AppendAtOrder(c, path[1..], e);
      assert cs == cs[..i] + [c];
      assert cs' == cs[..i] + [c'];
      FlattenHeadersLast(cs[..i], c);
      FlattenHeadersLast(cs[..i], c');
    }
  }

  // ---------------------------------------------------------------------------------------
  // What one step does

  /**
   * A successful step attaches the record read from the line as the last child of the
   * cursor's ancestor at depth `level` (the first one whose level is `level - 1`), moves the
   * cursor to it and so appends it to the pre-order of the tree.
   */
  lemma StepAttaches(b: Builder, line: string, lineNumber: nat, strict: bool)
    requires Valid(b) && Step(b, line, lineNumber, strict).Ok?
    ensures ReadLine(line, lineNumber, NodeAt(b.root, b.cursor), strict).Ok?
    ensures var e := ReadLine(line, lineNumber, NodeAt(b.root, b.cursor), strict).value;
            0 <= e.level <= |b.cursor| && e.children == []
    ensures var e := ReadLine(line, lineNumber, NodeAt(b.root, b.cursor), strict).value;
            var b' := Step(b, line, lineNumber, strict).value;
            var p := b.cursor[..e.level];
            ValidPath(b.root, p) && ValidPath(b'.root, p) && ValidPath(b'.root, b'.cursor)
            && NodeAt(b.root, p).level == e.level - 1
            && NodeAt(b'.root, p).children == NodeAt(b.root, p).children + [e]
            && b'.cursor == p + [|NodeAt(b.root, p).children|]
            && NodeAt(b'.root, b'.cursor) == e
            && Headers(Flatten(b'.root.children)) == Headers(Flatten(b.root.children)) + [e]
  {
    var last := NodeAt(b.root, b.cursor);
    NodeLevel(b.root, b.cursor);
    var e := ReadLine(line, lineNumber, last, strict).value;
    StepLevelNonNegative(b, line, lineNumber, strict);
    ParentPathIsPrefix(b.root, b.cursor, e.level);
    var p := b.cursor[..e.level];
    PrefixValid(b.root, b.cursor, e.level);
    SpinePrefix(b.root, b.cursor, e.level);
    AppendAtNode(b.root, p, e);
    AppendAtSpine(b.root, p, e);
    AppendAtOrder(b.root, p, e);
  }

  /**
   * A line whose level is more than one deeper than the cursor is refused: a terminated line
   * in both modes, a line without terminator in lenient mode (strict mode refuses it anyway).
   */
  lemma LevelJumpRejected(b: Builder, line: string, lineNumber: nat, strict: bool)
    requires Valid(b)
    requires ClassifyLine(line).Terminated? || (ClassifyLine(line).Unterminated? && !strict)
    requires ClassifyLine(line).fields.level > |b.cursor|
    ensures Step(b, line, lineNumber, strict) == Err(LevelJump(lineNumber))
  {
    NodeLevel(b.root, b.cursor);
  }

  /**
   * Since the cursor starts at the root, the first line must be at level 0: a successful first
   * line is the root's only child, at level 0, and a deeper one is refused.
   */
  lemma FirstLineLevelZero(line: string, strict: bool)
    ensures var o := ParseLines([line], strict);
            o.error.None? ==> |o.builder.root.children| == 1 && o.builder.root.children[0].level == 0
    ensures ClassifyLine(line).Terminated? && ClassifyLine(line).fields.level > 0
            ==> ParseLines([line], strict).error == Some(LevelJump(1))
  {
    assert [line][..0] == [];
    assert ParseLines([line][..0], strict) == Outcome(Initial(), None);
    var o := ParseLines([line], strict);
    if Step(Initial(), line, 1, strict).Ok? {
      StepAttaches(Initial(), line, 1, strict);
      assert Flatten(o.builder.root.children) == Flatten(EmptyRoot().children) + [o.builder.root.children[0]];
    }
    if ClassifyLine(line).Terminated? && ClassifyLine(line).fields.level > 0 {
      LevelJumpRejected(Initial(), line, 1, strict);
    }
  }

  /** Each line read without error becomes exactly one record of the tree. */
  lemma {:induction false} ParseLinesCount(lines: seq<string>, strict: bool)
    ensures ParseLines(lines, strict).error.None? ==> |Flatten(ParseLines(lines, strict).builder.root.children)| == |lines|
    decreases |lines|
  {
    if lines != [] {
      var init := lines[..|lines| - 1];
      var o := ParseLines(init, strict);
      ParseLinesCount(init, strict);
      if o.error.None? && Step(o.builder, lines[|lines| - 1], |lines|, strict).Ok? {
        StepAttaches(o.builder, lines[|lines| - 1], |lines|, strict);
        var b' := Step(o.builder, lines[|lines| - 1], |lines|, strict).value;
        assert |Headers(Flatten(b'.root.children))| == |Headers(Flatten(o.builder.root.children))| + 1;
      }
    }
  }

  /** Reading one more line after an error-free prefix takes one `Step`. */
  lemma ParseLinesNext(lines: seq<string>, i: nat, strict: bool)
    requires i < |lines| && ParseLines(lines[..i], strict).error.None?
    ensures var o := ParseLines(lines[..i], strict);
            ParseLines(lines[..i + 1], strict)
            == match Step(o.builder, lines[i], i + 1, strict)
               case Ok(b) => Outcome(b, None)
               case Err(e) => Outcome(o.builder, Some(e))
  {
    assert lines[..i + 1][..i] == lines[..i];
    assert lines[..i + 1][i] == lines[i];
  }

  /** After the first error, further lines change nothing. */
  lemma {:induction false} ParseLinesStops(lines: seq<string>, i: nat, strict: bool)
    requires i <= |lines| && ParseLines(lines[..i], strict).error.Some?
    ensures ParseLines(lines, strict) == ParseLines(lines[..i], strict)
    decreases |lines| - i
  {
    if i < |lines| {
      assert lines[..i + 1][..i] == lines[..i];
      ParseLinesStops(lines, i + 1, strict);
    } else {
      assert lines[..i] == lines;
    }
  }

  // ---------------------------------------------------------------------------------------
  // Reading one line

  /** A well-formed line reads back as the record of its fields, in either mode. */
  lemma ReadLineRoundTrip(f: LineFields, spaced: bool, rest: string, lineNumber: nat, last: Record, strict: bool)
    requires ValidFields(f) && (spaced || f.value == "")
    requires rest == [] || !IsEol(rest[0]) || |f.crlf| == 2
    ensures ReadLine(RenderHead(f, spaced) + f.crlf + rest, lineNumber, last, strict) == Ok(RecordOf(f))
  {
    ClassifyRender(f, spaced, rest);
  }

  /**
   * In strict mode a line is either refused as a format violation or starts with the
   * rendering of the fields of the record it creates.
   */
  lemma ReadLineStrict(line: string, lineNumber: nat, last: Record)
    ensures ReadLine(line, lineNumber, last, true).Err? ==>
              ReadLine(line, lineNumber, last, true) == Err(FormatViolation(lineNumber, line))
    ensures ReadLine(line, lineNumber, last, true).Ok? ==>
              var e := ReadLine(line, lineNumber, last, true).value;
              var f := LineFields(e.level, e.pointer, e.tag, e.value, e.crlf);
              e.level >= 0 && ValidFields(f) && e == RecordOf(f)
              && (RenderHead(f, true) + f.crlf <= line || (f.value == "" && RenderHead(f, false) + f.crlf <= line))
  {
    ClassifySound(line);
  }

  /**
   * In lenient mode a line that does not start like a record but has a terminator becomes a
   * pointerless CONC record one level below the previous record, or a record with the same
   * tag and level when the previous one is a CONT or CONC. Its value is the line without its
   * first character, up to the terminator.
   */
  lemma ReadLineLenientText(line: string, lineNumber: nat, last: Record)
    requires MatchHead(line).None? && exists i :: 0 <= i < |line| && IsEol(line[i])
    ensures ReadLine(line, lineNumber, last, false).Ok?
    ensures var e := ReadLine(line, lineNumber, last, false).value;
            e.pointer == "" && e.kind == Generic && e.children == []
            && ValidValue(e.value) && ValidTerminator(e.crlf)
            && (if IsEol(line[0]) then e.value == "" && e.crlf <= line else [line[0]] + e.value + e.crlf <= line)
    ensures var e := ReadLine(line, lineNumber, last, false).value;
            if GetTag(last) == CONT || GetTag(last) == CONC then e.level == last.level && e.tag == GetTag(last)
            else e.level == last.level + 1 && e.tag == CONC
  {
    ClassifySound(line);
  }

  /** In lenient mode a record line without a terminator is read as if it ended with `\n`. */
  lemma ReadLineLenientUnterminated(f: LineFields, spaced: bool, lineNumber: nat, last: Record)
    requires ValidHead(f) && (spaced || f.value == "")
    ensures ReadLine(RenderHead(f, spaced), lineNumber, last, false) == Ok(RecordOf(f.(crlf := "\n")))
    ensures ReadLine(RenderHead(f, spaced), lineNumber, last, true) == Err(FormatViolation(lineNumber, RenderHead(f, spaced)))
  {
    ClassifyRenderUnterminated(f, spaced);
  }

  /** In lenient mode only a line without any terminator is refused, and not as a format violation. */
  lemma ReadLineLenientErrors(line: string, lineNumber: nat, last: Record)
    ensures ReadLine(line, lineNumber, last, false).Err? <==>
              MatchHead(line).None? && forall i :: 0 <= i < |line| ==> !IsEol(line[i])
    ensures ReadLine(line, lineNumber, last, false).Err? ==>
              ReadLine(line, lineNumber, last, false) == Err(NoTerminator(lineNumber))
  {
    ClassifySound(line);
    if MatchHead(line).None? && !ClassifyLine(line).Unreadable? {
      assert ClassifyLine(line).Text?;
    }
  }
}
