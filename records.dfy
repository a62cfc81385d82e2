/**
 * GEDCOM records as values: a level, an optional pointer (`""` when absent), a tag, a value,
 * the line terminator and the ordered children, plus the element class the parser chose for
 * the record's tag. Also the generic child scans every element class builds on.
 */
module Records {

  /** The element class instantiated for a record (`Element` and its subclasses). */
  datatype Kind = Root | Individual | Family | File | Note | Object | Source | Repository | Generic

  datatype Record = Record(
    kind: Kind,
    level: int,
    pointer: string,
    tag: string,
    value: string,
    crlf: string,
    children: seq<Record>)

  const CHIL := "CHIL"
  const CONC := "CONC"
  const CONT := "CONT"
  const DATE := "DATE"
  const DEAT := "DEAT"
  const FAM := "FAM"
  const FAMC := "FAMC"
  const FAMS := "FAMS"
  const HUSB := "HUSB"
  const INDI := "INDI"
  const MARR := "MARR"
  const NAME := "NAME"
  const OBJE := "OBJE"
  const PLAC := "PLAC"
  const REPO := "REPO"
  const SOUR := "SOUR"
  const WIFE := "WIFE"

  /** The class the parser instantiates for a tag: a fixed table with a generic fallback. */
  function KindOf(tag: string): Kind {
    if tag == INDI then Individual
    else if tag == FAM then Family
    else if tag == "FILE" then File
    else if tag == "NOTE" then Note
    else if tag == OBJE then Object
    else if tag == SOUR then Source
    else if tag == REPO then Repository
    else Generic
  }

  /**
   * `get_tag()`: the individual, family, source and repository classes answer their own tag
   * whatever tag they were constructed with; every other class answers the stored tag.
   */
  function GetTag(r: Record): string {
    match r.kind
    case Individual => INDI
    case Family => FAM
    case Source => SOUR
    case Repository => REPO
    case _ => r.tag
  }

  /** For a record whose class was chosen from its own tag, `get_tag()` is that tag. */
  lemma GetTagOfSpecialized(r: Record)
    requires r.kind == KindOf(r.tag)
    ensures GetTag(r) == r.tag
  {
  }

  /** The children whose `get_tag()` is one of `tags`, in child order. */
  function ChildrenWithTagIn(rs: seq<Record>, tags: set<string>): (r: seq<Record>)
    ensures |r| <= |rs|
    ensures forall x :: x in r <==> x in rs && GetTag(x) in tags
  {
    if rs == [] then []
    else (if GetTag(rs[0]) in tags then [rs[0]] else []) + ChildrenWithTagIn(rs[1..], tags)
  }

  /** The children whose `get_tag()` equals `tag`, in child order. */
  function ChildrenByTag(rs: seq<Record>, tag: string): seq<Record> {
    ChildrenWithTagIn(rs, {tag})
  }

  /** Filtering distributes over concatenation, so it keeps the relative order of the children. */
  lemma {:induction false} ChildrenWithTagInAppend(a: seq<Record>, b: seq<Record>, tags: set<string>)
    ensures ChildrenWithTagIn(a + b, tags) == ChildrenWithTagIn(a, tags) + ChildrenWithTagIn(b, tags)
  {
    if a == [] {
      assert a + b == b;
    } else {
      var h := if GetTag(a[0]) in tags then [a[0]] else [];
      calc {
        ChildrenWithTagIn(a + b, tags);
        { assert (a + b)[0] == a[0]; assert (a + b)[1..] == a[1..] + b; }
        h + ChildrenWithTagIn(a[1..] + b, tags);
        { ChildrenWithTagInAppend(a[1..], b, tags); }
        h + (ChildrenWithTagIn(a[1..], tags) + ChildrenWithTagIn(b, tags));
        (h + ChildrenWithTagIn(a[1..], tags)) + ChildrenWithTagIn(b, tags);
      }
    }
  }

  /** Filtering by two disjoint tag sets splits the filter by their union, counting duplicates. */
  lemma {:induction false} ChildrenWithTagInUnion(rs: seq<Record>, s: set<string>, t: set<string>)
    requires s !! t
    ensures multiset(ChildrenWithTagIn(rs, s + t))
            == multiset(ChildrenWithTagIn(rs, s)) + multiset(ChildrenWithTagIn(rs, t))
  {
    if rs != [] {
      ChildrenWithTagInUnion(rs[1..], s, t);
    }
  }

  /** Index of the first child whose `get_tag()` is `tag`, or `|rs|` when there is none. */
  function FirstIndexOfTag(rs: seq<Record>, tag: string): (i: nat)
    ensures i <= |rs|
    ensures forall j :: 0 <= j < i ==> GetTag(rs[j]) != tag
    ensures i < |rs| ==> GetTag(rs[i]) == tag
  {
    if rs == [] then 0
    else if GetTag(rs[0]) == tag then 0
    else 1 + FirstIndexOfTag(rs[1..], tag)
  }

  /** Index of the last child whose `get_tag()` is `tag`, or -1 when there is none. */
  function LastIndexOfTag(rs: seq<Record>, tag: string): (i: int)
    ensures -1 <= i < |rs|
    ensures forall j :: i < j < |rs| ==> GetTag(rs[j]) != tag
    ensures 0 <= i ==> GetTag(rs[i]) == tag
  {
    if rs == [] then -1
    else if GetTag(rs[|rs| - 1]) == tag then |rs| - 1
    else LastIndexOfTag(rs[..|rs| - 1], tag)
  }

  /** A child with the tag and none before it is the first one. */
  lemma FirstIndexOfTagIs(rs: seq<Record>, tag: string)
    ensures forall i :: 0 <= i < |rs| && GetTag(rs[i]) == tag && (forall j :: 0 <= j < i ==> GetTag(rs[j]) != tag)
                        ==> i == FirstIndexOfTag(rs, tag)
  {
  }

  /** Children added after a child with the tag do not move the first one. */
  lemma {:induction false} FirstIndexOfTagAppend(a: seq<Record>, b: seq<Record>, tag: string)
    requires FirstIndexOfTag(a, tag) < |a|
    ensures FirstIndexOfTag(a + b, tag) == FirstIndexOfTag(a, tag)
  {
    assert (a + b)[0] == a[0];
    if GetTag(a[0]) != tag {
      assert (a + b)[1..] == a[1..] + b;
      FirstIndexOfTagAppend(a[1..], b, tag);
    }
  }

  /** Whether some child's `get_tag()` is `tag`. */
  predicate HasChildTag(rs: seq<Record>, tag: string) {
    FirstIndexOfTag(rs, tag) < |rs|
  }

  lemma HasChildTagIff(rs: seq<Record>, tag: string)
    ensures HasChildTag(rs, tag) <==> exists j :: 0 <= j < |rs| && GetTag(rs[j]) == tag
  {
  }

  /**
   * The value a "last one wins" scan leaves behind: the value of the last child with the tag,
   * `""` when there is none.
   */
  function LastValueByTag(rs: seq<Record>, tag: string): string {
    var i := LastIndexOfTag(rs, tag);
    if i < 0 then "" else rs[i].value
  }

  /** `get_child_value_by_tag(tag)`: the value of the first child with the tag, `""` when there is none. */
  function ChildValueByTag(rs: seq<Record>, tag: string): string {
    var i := FirstIndexOfTag(rs, tag);
    if i < |rs| then rs[i].value else ""
  }

  /**
   * Scanning one more child: a child with the tag replaces the value found so far, any other
   * child leaves it.
   */
  lemma LastValueByTagSnoc(rs: seq<Record>, x: Record, tag: string)
    ensures LastValueByTag(rs + [x], tag) == if GetTag(x) == tag then x.value else LastValueByTag(rs, tag)
  {
    assert (rs + [x])[..|rs|] == rs;
  }

  /** A child in front of the first child with the tag does not change the value found. */
  lemma ChildValueByTagCons(x: Record, rs: seq<Record>, tag: string)
    ensures ChildValueByTag([x] + rs, tag) == if GetTag(x) == tag then x.value else ChildValueByTag(rs, tag)
  {
    assert ([x] + rs)[1..] == rs;
  }

  /** The values of the given records, in order. */
  function ValuesOf(rs: seq<Record>): (vs: seq<string>)
    ensures |vs| == |rs|
    ensures forall i :: 0 <= i < |rs| ==> vs[i] == rs[i].value
  {
    if rs == [] then [] else [rs[0].value] + ValuesOf(rs[1..])
  }

  /** A record's own fields, without its children. */
  function Header(r: Record): Record {
    r.(children := [])
  }

  /** The headers of the given records, in order. */
  function Headers(rs: seq<Record>): (hs: seq<Record>)
    ensures |hs| == |rs|
    ensures forall i :: 0 <= i < |rs| ==> hs[i] == Header(rs[i])
  {
    seq(|rs|, i requires 0 <= i < |rs| => Header(rs[i]))
  }

  /** The records and all their descendants in pre-order: each record before its children. */
  function Flatten(rs: seq<Record>): seq<Record>
    decreases rs
  {
    if rs == [] then [] else [rs[0]] + Flatten(rs[0].children) + Flatten(rs[1..])
  }

  lemma {:induction false} FlattenAppend(a: seq<Record>, b: seq<Record>)
    ensures Flatten(a + b) == Flatten(a) + Flatten(b)
    decreases a
  {
    if a == [] {
      assert a + b == b;
    } else {
      assert (a + b)[0] == a[0];
      assert (a + b)[1..] == a[1..] + b;
      FlattenAppend(a[1..], b);
    }
  }
}
