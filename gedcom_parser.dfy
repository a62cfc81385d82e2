/**
 * The reader object: the virtual root of the last file read and the two caches derived from
 * it, the pre-order list of every record and the dictionary of top-level records by pointer.
 * Both caches are filled on first use and emptied by `InvalidateCache` and by `Parse`.
 */
module GedcomParser {
  import opened Wrappers
  import opened Records
  import opened TreeBuilder

  /**
   * The pointer dictionary of a list of top-level records: every record with a non-empty
   * pointer, keyed by that pointer; when two records share a pointer the later one wins.
   */
  function Dictionary(rs: seq<Record>): (d: map<string, Record>)
    ensures forall k :: k in d ==> d[k].pointer == k
    decreases |rs|
  {
    if rs == [] then map[]
    else
      var d := Dictionary(rs[..|rs| - 1]);
      var r := rs[|rs| - 1];
      if r.pointer != "" then d[r.pointer := r] else d
  }

  /** The keys are exactly the non-empty pointers of the records. */
  lemma {:induction false} DictionaryKeys(rs: seq<Record>, k: string)
    ensures k in Dictionary(rs) <==> k != "" && exists i :: 0 <= i < |rs| && rs[i].pointer == k
    decreases |rs|
  {
    if rs != [] {
      var init := rs[..|rs| - 1];
      DictionaryKeys(init, k);
      if exists i :: 0 <= i < |rs| && rs[i].pointer == k {
        var i :| 0 <= i < |rs| && rs[i].pointer == k;
        if i < |rs| - 1 {
          assert init[i] == rs[i];
        }
      }
    }
  }

  /** The entry for a key is the last record carrying that pointer. */
  lemma {:induction false} DictionaryLastWins(rs: seq<Record>, i: nat)
    requires i < |rs| && rs[i].pointer != ""
    requires forall j :: i < j < |rs| ==> rs[j].pointer != rs[i].pointer
    ensures rs[i].pointer in Dictionary(rs) && Dictionary(rs)[rs[i].pointer] == rs[i]
    decreases |rs|
  {
    if i < |rs| - 1 {
      var init := rs[..|rs| - 1];
      assert init[i] == rs[i];
      DictionaryLastWins(init, i);
    }
  }

  /** Every record of the list occurs in its pre-order, which is at least as long. */
  lemma {:induction false} FlattenContains(rs: seq<Record>)
    ensures |Flatten(rs)| >= |rs|
    ensures forall i :: 0 <= i < |rs| ==> rs[i] in Flatten(rs)
    decreases rs
  {
    if rs != [] {
      FlattenContains(rs[1..]);
      forall i | 0 < i < |rs|
        ensures rs[i] in Flatten(rs)
      {
        assert rs[i] == rs[1..][i - 1];
      }
    }
  }

  class Parser {
    var root: Record
    var elementList: seq<Record>
    var elementDictionary: map<string, Record>

    /** An empty cache is rebuilt on next use; a filled one agrees with the tree. */
    predicate CacheCoherent()
      reads this
    {
      (elementList == [] || elementList == Flatten(root.children))
      && (elementDictionary == map[] || elementDictionary == Dictionary(root.children))
    }

    constructor()
      ensures root == EmptyRoot() && elementList == [] && elementDictionary == map[]
      ensures CacheCoherent()
    {
      root := EmptyRoot();
      elementList := [];
      elementDictionary := map[];
    }

    method InvalidateCache()
      modifies this
      ensures root == old(root) && elementList == [] && elementDictionary == map[]
      ensures CacheCoherent()
    {
      elementList := [];
      elementDictionary := map[];
    }

    /** Appends `e` and its descendants, in pre-order, to `acc`. */
    static method BuildList(e: Record, acc: seq<Record>) returns (list: seq<Record>)
      ensures list == acc + Flatten([e])
      decreases e
    {
      list := acc + [e];
      var i := 0;
      while i < |e.children|
        invariant 0 <= i <= |e.children|
        invariant list == acc + [e] + Flatten(e.children[..i])
      {
        var c := e.children[i];
        list := BuildList(c, list);
        FlattenAppend(e.children[..i], [c]);
        assert e.children[..i + 1] == e.children[..i] + [c];
        i := i + 1;
      }
      assert e.children[..i] == e.children;
      assert [e][1..] == [];
    }

    /**
     * The pre-order list of all records below the root, built when the cache is empty and
     * returned as cached otherwise.
     */
    method GetElementList() returns (list: seq<Record>)
      modifies this
      ensures root == old(root) && elementDictionary == old(elementDictionary)
      ensures list == elementList
      ensures old(elementList) != [] ==> list == old(elementList)
      ensures old(elementList) == [] ==> list == Flatten(root.children)
      ensures old(CacheCoherent()) ==> list == Flatten(root.children) && CacheCoherent()
    {
      if elementList == [] {
        var rs := root.children;
        var i := 0;
        while i < |rs|
          invariant 0 <= i <= |rs|
          invariant root == old(root) && root.children == rs && elementDictionary == old(elementDictionary)
          invariant elementList == Flatten(rs[..i])
        {
          elementList := BuildList(rs[i], elementList);
          FlattenAppend(rs[..i], [rs[i]]);
          assert rs[..i + 1] == rs[..i] + [rs[i]];
          i := i + 1;
        }
        assert rs[..i] == rs;
      }
      list := elementList;
    }

    /**
     * The dictionary of top-level records by pointer, built when the cache is empty and
     * returned as cached otherwise.
     */
    method GetElementDictionary() returns (d: map<string, Record>)
      modifies this
      ensures root == old(root) && elementList == old(elementList)
      ensures d == elementDictionary
      ensures old(elementDictionary) != map[] ==> d == old(elementDictionary)
      ensures old(elementDictionary) == map[] ==> d == Dictionary(root.children)
      ensures old(CacheCoherent()) ==> d == Dictionary(root.children) && CacheCoherent()
    {
      if elementDictionary == map[] {
        elementDictionary := Dictionary(root.children);
      }
      d := elementDictionary;
    }

    /**
     * Reads the lines of a file into a fresh tree, numbering them from 1. The first error
     * stops the reading and is returned; the records read before it stay in the tree.
     */
    method Parse(lines: seq<string>, strict: bool) returns (error: Option<ParseError>)
      modifies this
      ensures root == ParseLines(lines, strict).builder.root
      ensures error == ParseLines(lines, strict).error
      ensures elementList == [] && elementDictionary == map[] && CacheCoherent()
    {
      InvalidateCache();
      var b := Initial();
      root := b.root;
      error := None;
      var i := 0;
      assert lines[..0] == [];
      while i < |lines| && error.None?
        invariant 0 <= i <= |lines|
        invariant ParseLines(lines[..i], strict) == Outcome(b, error)
        invariant root == b.root && elementList == [] && elementDictionary == map[]
      {
        ParseLinesNext(lines, i, strict);
        var next := Step(b, lines[i], i + 1, strict);
        match next {
          case Ok(b') =>
            b := b';
          case Err(e) =>
            error := Some(e);
        }
        root := b.root;
        i := i + 1;
      }
      if error.Some? {
        ParseLinesStops(lines, i, strict);
      } else {
        assert lines[..i] == lines;
      }
    }
  }

  /**
   * Emptying the caches and asking again gives the same contents as before, both computed
   * from the tree.
   */
  method RebuildCaches(p: Parser) returns (list: seq<Record>, d: map<string, Record>)
    requires p.CacheCoherent()
    modifies p
    ensures p.root == old(p.root)
    ensures list == Flatten(p.root.children) && d == Dictionary(p.root.children)
    ensures p.elementList == list && p.elementDictionary == d && p.CacheCoherent()
  {
    var before := p.GetElementList();
    var dBefore := p.GetElementDictionary();
    p.InvalidateCache();
    list := p.GetElementList();
    d := p.GetElementDictionary();
    assert list == before && d == dBefore;
  }
}
