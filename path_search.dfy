/**
 * Searching the parent links from a descendant up to an ancestor: the depth-first search
 * that returns the first line found, and the round-by-round search that returns every line.
 * Both compare records by pointer and follow `GetParents` of the requested type, so they
 * terminate on the same acyclic dictionaries as `GetAncestors`.
 */
module PathSearch {
  import opened Wrappers
  import opened Records
  import opened Relationships

  function Last(path: seq<Record>): Record
    requires path != []
  {
    path[|path| - 1]
  }

  /** `b` is among the parents of `a` of the given type. */
  predicate ParentOf(d: map<string, Record>, t: string, a: Record, b: Record) {
    GetParents(d, a, t).Ok? && b in GetParents(d, a, t).value
  }

  /**
   * `p` continues the partial line `path` up to the ancestor: it starts with `path`, ends with
   * a record carrying the ancestor's pointer, and each record after `path`'s last is a parent
   * of the one before it.
   */
  predicate Extends(d: map<string, Record>, t: string, path: seq<Record>, p: seq<Record>, anc: Record) {
    1 <= |path| <= |p| && p[..|path|] == path && p[|p| - 1].pointer == anc.pointer
    && forall i :: |path| - 1 <= i < |p| - 1 ==> ParentOf(d, t, p[i], p[i + 1])
  }

  /** A line found from `path + [q]` also continues `path` when `q` is a parent of its end. */
  lemma ExtendsStep(d: map<string, Record>, t: string, path: seq<Record>, q: Record, p: seq<Record>, anc: Record)
    requires path != [] && ParentOf(d, t, Last(path), q)
    requires Extends(d, t, path + [q], p, anc)
    ensures Extends(d, t, path, p, anc)
  {
    assert p[..|path|] == (path + [q])[..|path|] == path;
    assert p[|path|] == (path + [q])[|path|] == q;
  }

  /** There is a line of parent links from `x` up to a record with the ancestor's pointer. */
  predicate Reaches(d: map<string, Record>, rank: map<Record, nat>, t: string, x: Record, anc: Record)
    requires Acyclic(d, rank) && x in rank
    decreases rank[x]
  {
    x.pointer == anc.pointer
    || (GetParents(d, x, t).Ok?
        && exists p :: p in GetParents(d, x, t).value && p in rank && rank[p] < rank[x] && Reaches(d, rank, t, p, anc))
  }

  // ---------------------------------------------------------------------------------------
  // find_path_to_ancestor
  // ---------------------------------------------------------------------------------------

  /**
   * The depth-first search from the end of `path`: a non-individual end with an individual
   * ancestor is refused; an end carrying the ancestor's pointer completes the line; otherwise
   * each parent is tried in order and the first line found is returned.
   */
  function FindPath(d: map<string, Record>, rank: map<Record, nat>, anc: Record, path: seq<Record>, t: string): (r: Result<Option<seq<Record>>, QueryError>)
    requires Acyclic(d, rank) && path != [] && Last(path) in rank
    ensures r.Ok? && r.value.Some? ==> Extends(d, t, path, r.value.value, anc)
    decreases rank[Last(path)], 2
  {
    var x := Last(path);
    if x.kind != Individual && anc.kind == Individual then Err(NotAnActualIndividual)
    else if x.pointer == anc.pointer then Ok(Some(path))
    else FindPathThroughParents(d, rank, anc, path, t)
  }

  /** The search continued through the parents of the end of `path`. */
  function FindPathThroughParents(d: map<string, Record>, rank: map<Record, nat>, anc: Record, path: seq<Record>, t: string): (r: Result<Option<seq<Record>>, QueryError>)
    requires Acyclic(d, rank) && path != [] && Last(path) in rank
    ensures r.Ok? && r.value.Some? ==> Extends(d, t, path, r.value.value, anc)
    decreases rank[Last(path)], 1
  {
    match GetParents(d, Last(path), t)
    case Err(e) => Err(e)
    case Ok(parents) =>
      ParentsRanked(d, rank, Last(path), t);
      SearchParents(d, rank, anc, path, t, parents)
  }

  /** Tries the parents `ps` of the end of `path` in turn. */
  function SearchParents(d: map<string, Record>, rank: map<Record, nat>, anc: Record, path: seq<Record>, t: string, ps: seq<Record>): (r: Result<Option<seq<Record>>, QueryError>)
    requires Acyclic(d, rank) && path != [] && Last(path) in rank
    requires forall p :: p in ps ==> p in rank && rank[p] < rank[Last(path)] && ParentOf(d, t, Last(path), p)
    ensures r.Ok? && r.value.Some? ==> Extends(d, t, path, r.value.value, anc)
    decreases rank[Last(path)], 0, |ps|
  {
    if ps == [] then Ok(None)
    else
      var q := ps[0];
      assert Last(path + [q]) == q;
      match FindPath(d, rank, anc, path + [q], t)
      case Err(e) => Err(e)
      case Ok(Some(found)) =>
        ExtendsStep(d, t, path, q, found, anc);
        Ok(Some(found))
      case Ok(None) => SearchParents(d, rank, anc, path, t, ps[1..])
  }

  /** `find_path_to_ancestor`, started from the one-record line `[descendant]`. */
  function FindPathToAncestor(d: map<string, Record>, rank: map<Record, nat>, descendant: Record, anc: Record, t: string): Result<Option<seq<Record>>, QueryError>
    requires Acyclic(d, rank) && descendant in rank
  {
    FindPath(d, rank, anc, [descendant], t)
  }

  /**
   * A line returned starts at the descendant, ends at the ancestor's pointer and climbs one
   * parent link at a time.
   */
  lemma FindPathToAncestorSound(d: map<string, Record>, rank: map<Record, nat>, descendant: Record, anc: Record, t: string)
    requires Acyclic(d, rank) && descendant in rank
    requires FindPathToAncestor(d, rank, descendant, anc, t).Ok?
    requires FindPathToAncestor(d, rank, descendant, anc, t).value.Some?
    ensures var p := FindPathToAncestor(d, rank, descendant, anc, t).value.value;
      p[0] == descendant && p[|p| - 1].pointer == anc.pointer
      && forall i :: 0 <= i < |p| - 1 ==> ParentOf(d, t, p[i], p[i + 1])
  {
    var p := FindPathToAncestor(d, rank, descendant, anc, t).value.value;
    assert Extends(d, t, [descendant], p, anc);
    assert p[..1][0] == p[0];
  }

  /** When the search ends without an error, it finds a line exactly when one exists. */
  lemma {:induction false} FindPathComplete(d: map<string, Record>, rank: map<Record, nat>, anc: Record, path: seq<Record>, t: string)
    requires Acyclic(d, rank) && path != [] && Last(path) in rank
    requires FindPath(d, rank, anc, path, t).Ok?
    ensures FindPath(d, rank, anc, path, t).value.Some? <==> Reaches(d, rank, t, Last(path), anc)
    decreases rank[Last(path)], 1
  {
    var x := Last(path);
    if x.pointer != anc.pointer {
      var parents := GetParents(d, x, t).value;
      ParentsRanked(d, rank, x, t);
      SearchParentsComplete(d, rank, anc, path, t, parents);
    }
  }

  lemma {:induction false} SearchParentsComplete(d: map<string, Record>, rank: map<Record, nat>, anc: Record, path: seq<Record>, t: string, ps: seq<Record>)
    requires Acyclic(d, rank) && path != [] && Last(path) in rank
    requires forall p :: p in ps ==> p in rank && rank[p] < rank[Last(path)] && ParentOf(d, t, Last(path), p)
    requires SearchParents(d, rank, anc, path, t, ps).Ok?
    ensures SearchParents(d, rank, anc, path, t, ps).value.Some? <==> exists p :: p in ps && Reaches(d, rank, t, p, anc)
    decreases rank[Last(path)], 0, |ps|
  {
    if ps != [] {
      var q := ps[0];
      assert Last(path + [q]) == q;
      FindPathComplete(d, rank, anc, path + [q], t);
      if FindPath(d, rank, anc, path + [q], t).value.None? {
        SearchParentsComplete(d, rank, anc, path, t, ps[1..]);
        ReachesCons(d, rank, t, anc, ps);
      }
    }
  }

  /** Some record of `ps` reaches the ancestor exactly when its first does or one of the others. */
  lemma ReachesCons(d: map<string, Record>, rank: map<Record, nat>, t: string, anc: Record, ps: seq<Record>)
    requires Acyclic(d, rank) && ps != [] && forall p :: p in ps ==> p in rank
    ensures (exists p :: p in ps && Reaches(d, rank, t, p, anc))
            <==> Reaches(d, rank, t, ps[0], anc) || exists p :: p in ps[1..] && Reaches(d, rank, t, p, anc)
  {
    assert ps == [ps[0]] + ps[1..];
  }

  // ---------------------------------------------------------------------------------------
  // find_all_paths_to_ancestor
  // ---------------------------------------------------------------------------------------

  /** The lines `path + [q]` for each `q` of `ps`, in order. */
  function Extensions(path: seq<Record>, ps: seq<Record>): (r: seq<seq<Record>>)
    ensures |r| == |ps| && forall k :: 0 <= k < |r| ==> r[k] == path + [ps[k]]
  {
    if ps == [] then [] else [path + [ps[0]]] + Extensions(path, ps[1..])
  }

  /** Concatenation of two partial results; the first error wins. */
  function Join(a: Result<seq<seq<Record>>, QueryError>, b: Result<seq<seq<Record>>, QueryError>): Result<seq<seq<Record>>, QueryError> {
    if a.Err? then a else if b.Err? then b else Ok(a.value + b.value)
  }

  /** Every line of `paths` is non-empty and its end is ranked. */
  predicate Ranked(rank: map<Record, nat>, paths: seq<seq<Record>>) {
    forall k :: 0 <= k < |paths| ==> paths[k] != [] && Last(paths[k]) in rank
  }

  /** The first `n` of ranked lines are ranked, and so are the others. */
  lemma RankedSplit(rank: map<Record, nat>, paths: seq<seq<Record>>, n: nat)
    requires Ranked(rank, paths) && n <= |paths|
    ensures Ranked(rank, paths[..n]) && Ranked(rank, paths[n..])
  {
    assert forall k :: 0 <= k < n ==> paths[..n][k] == paths[k];
    assert forall k :: 0 <= k < |paths| - n ==> paths[n..][k] == paths[n + k];
  }

  /** One more than the largest rank of an end of `paths`; 0 when there is none. */
  function Height(rank: map<Record, nat>, paths: seq<seq<Record>>): (h: nat)
    requires Ranked(rank, paths)
    ensures forall k :: 0 <= k < |paths| ==> rank[Last(paths[k])] < h
  {
    if paths == [] then 0
    else
      var h := Height(rank, paths[1..]);
      assert forall k :: 1 <= k < |paths| ==> paths[k] == paths[1..][k - 1];
      var top := rank[Last(paths[0])] + 1;
      if top < h then h else top
  }

  /** A bound below every rank of `paths`' ends bounds the height. */
  lemma {:induction false} HeightAtMost(rank: map<Record, nat>, paths: seq<seq<Record>>, b: nat)
    requires Ranked(rank, paths)
    requires forall k :: 0 <= k < |paths| ==> rank[Last(paths[k])] < b
    ensures Height(rank, paths) <= b
  {
    if paths != [] {
      assert forall k :: 0 <= k < |paths[1..]| ==> paths[1..][k] == paths[k + 1];
      HeightAtMost(rank, paths[1..], b);
    }
  }

  /** The lines of `Extensions(path, ps)` end at the parents, all ranked below `path`'s end. */
  lemma ExtensionsRanked(d: map<string, Record>, rank: map<Record, nat>, path: seq<Record>, t: string, ps: seq<Record>)
    requires Acyclic(d, rank) && path != [] && Last(path) in rank
    requires forall p :: p in ps ==> p in rank && rank[p] < rank[Last(path)]
    ensures Ranked(rank, Extensions(path, ps))
    ensures Height(rank, Extensions(path, ps)) <= rank[Last(path)]
  {
    var ext := Extensions(path, ps);
    forall k | 0 <= k < |ext|
      ensures ext[k] != [] && Last(ext[k]) in rank && rank[Last(ext[k])] < rank[Last(path)]
    {
      assert Last(ext[k]) == ps[k];
    }
    HeightAtMost(rank, ext, rank[Last(path)]);
  }

  /**
   * Every line from the end of `path` up to the ancestor, in depth-first order: a line that
   * has arrived is kept as it is, otherwise it is continued through each parent in turn; a
   * line whose end has no parents is dropped. Errors of `GetParents` are passed on.
   */
  function AllPathsFrom(d: map<string, Record>, rank: map<Record, nat>, anc: Record, t: string, path: seq<Record>): Result<seq<seq<Record>>, QueryError>
    requires Acyclic(d, rank) && path != [] && Last(path) in rank
    decreases rank[Last(path)] + 1, 1, 0
  {
    if Last(path).pointer == anc.pointer then Ok([path]) else AllPathsThroughParents(d, rank, anc, t, path)
  }

  /** The expansion continued through the parents of the end of `path`. */
  function AllPathsThroughParents(d: map<string, Record>, rank: map<Record, nat>, anc: Record, t: string, path: seq<Record>): Result<seq<seq<Record>>, QueryError>
    requires Acyclic(d, rank) && path != [] && Last(path) in rank
    decreases rank[Last(path)] + 1, 0, 0
  {
    match GetParents(d, Last(path), t)
    case Err(e) => Err(e)
    case Ok(parents) =>
      ParentsRanked(d, rank, Last(path), t);
      ExtensionsRanked(d, rank, path, t, parents);
      AllPathsOf(d, rank, anc, t, Extensions(path, parents))
  }

  /** `AllPathsFrom` of each line of `paths`, joined in order. */
  function AllPathsOf(d: map<string, Record>, rank: map<Record, nat>, anc: Record, t: string, paths: seq<seq<Record>>): Result<seq<seq<Record>>, QueryError>
    requires Acyclic(d, rank) && Ranked(rank, paths)
    decreases Height(rank, paths), 2, |paths|
  {
    if paths == [] then Ok([])
    else
      assert forall k :: 0 <= k < |paths[1..]| ==> paths[1..][k] == paths[k + 1];
      HeightAtMost(rank, paths[1..], Height(rank, paths));
      Join(AllPathsFrom(d, rank, anc, t, paths[0]), AllPathsOf(d, rank, anc, t, paths[1..]))
  }

  /** What `find_all_paths_to_ancestor` computes, stated as a depth-first expansion. */
  function AllPaths(d: map<string, Record>, rank: map<Record, nat>, descendant: Record, anc: Record, t: string): Result<seq<seq<Record>>, QueryError>
    requires Acyclic(d, rank) && descendant in rank
  {
    if descendant.kind != Individual && anc.kind == Individual then Err(NotAnActualIndividual)
    else AllPathsFrom(d, rank, anc, t, [descendant])
  }

  /** Joining is associative, errors included. */
  lemma JoinAssoc(a: Result<seq<seq<Record>>, QueryError>, b: Result<seq<seq<Record>>, QueryError>, c: Result<seq<seq<Record>>, QueryError>)
    ensures Join(Join(a, b), c) == Join(a, Join(b, c))
  {
    if a.Ok? && b.Ok? && c.Ok? {
      assert (a.value + b.value) + c.value == a.value + (b.value + c.value);
    }
  }

  /** The expansion of two lists of lines one after the other joins their expansions. */
  lemma {:induction false} AllPathsOfAppend(d: map<string, Record>, rank: map<Record, nat>, anc: Record, t: string, a: seq<seq<Record>>, b: seq<seq<Record>>)
    requires Acyclic(d, rank) && Ranked(rank, a) && Ranked(rank, b)
    ensures Ranked(rank, a + b)
    ensures AllPathsOf(d, rank, anc, t, a + b) == Join(AllPathsOf(d, rank, anc, t, a), AllPathsOf(d, rank, anc, t, b))
    decreases |a|
  {
    if a == [] {
      assert a + b == b;
      var r := AllPathsOf(d, rank, anc, t, b);
      if r.Ok? {
        assert [] + r.value == r.value;
      }
    } else {
      assert (a + b)[1..] == a[1..] + b;
      RankedSplit(rank, a, 1);
      AllPathsOfAppend(d, rank, anc, t, a[1..], b);
      assert (a + b)[0] == a[0];
      JoinAssoc(AllPathsFrom(d, rank, anc, t, a[0]), AllPathsOf(d, rank, anc, t, a[1..]), AllPathsOf(d, rank, anc, t, b));
    }
  }

  /** The expansion of the continuations through `ps`: that through its first, then the rest. */
  lemma ExtensionsCons(d: map<string, Record>, rank: map<Record, nat>, anc: Record, t: string, path: seq<Record>, ps: seq<Record>)
    requires Acyclic(d, rank) && path != [] && ps != [] && Ranked(rank, Extensions(path, ps))
    ensures Last(path + [ps[0]]) == ps[0] && ps[0] in rank && Ranked(rank, Extensions(path, ps[1..]))
    ensures AllPathsOf(d, rank, anc, t, Extensions(path, ps))
            == Join(AllPathsFrom(d, rank, anc, t, path + [ps[0]]), AllPathsOf(d, rank, anc, t, Extensions(path, ps[1..])))
  {
    var ext := Extensions(path, ps);
    assert ext[0] == path + [ps[0]];
    assert ext[1..] == Extensions(path, ps[1..]);
    RankedSplit(rank, ext, 1);
  }

  /** Every line of the result continues `path` up to the ancestor. */
  lemma {:induction false} AllPathsFromSound(d: map<string, Record>, rank: map<Record, nat>, anc: Record, t: string, path: seq<Record>)
    requires Acyclic(d, rank) && path != [] && Last(path) in rank
    requires AllPathsFrom(d, rank, anc, t, path).Ok?
    ensures forall p :: p in AllPathsFrom(d, rank, anc, t, path).value ==> Extends(d, t, path, p, anc)
    decreases rank[Last(path)] + 1, 1, 0
  {
    var x := Last(path);
    if x.pointer == anc.pointer {
      assert path[..|path|] == path;
    } else {
      var parents := GetParents(d, x, t).value;
      ParentsRanked(d, rank, x, t);
      ExtensionsRanked(d, rank, path, t, parents);
      ExtensionsSound(d, rank, anc, t, path, parents);
    }
  }

  lemma {:induction false} ExtensionsSound(d: map<string, Record>, rank: map<Record, nat>, anc: Record, t: string, path: seq<Record>, ps: seq<Record>)
    requires Acyclic(d, rank) && path != [] && Last(path) in rank
    requires forall p :: p in ps ==> p in rank && rank[p] < rank[Last(path)] && ParentOf(d, t, Last(path), p)
    requires Ranked(rank, Extensions(path, ps))
    requires AllPathsOf(d, rank, anc, t, Extensions(path, ps)).Ok?
    ensures forall p :: p in AllPathsOf(d, rank, anc, t, Extensions(path, ps)).value ==> Extends(d, t, path, p, anc)
    decreases rank[Last(path)], 3, |ps|
  {
    if ps != [] {
      var q := ps[0];
      ExtensionsCons(d, rank, anc, t, path, ps);
      AllPathsFromSound(d, rank, anc, t, path + [q]);
      ExtensionsSound(d, rank, anc, t, path, ps[1..]);
      forall p | p in AllPathsFrom(d, rank, anc, t, path + [q]).value
        ensures Extends(d, t, path, p, anc)
      {
        ExtendsStep(d, t, path, q, p, anc);
      }
    }
  }

  /** An error-free expansion is empty exactly when no line reaches the ancestor. */
  lemma {:induction false} AllPathsFromComplete(d: map<string, Record>, rank: map<Record, nat>, anc: Record, t: string, path: seq<Record>)
    requires Acyclic(d, rank) && path != [] && Last(path) in rank
    requires AllPathsFrom(d, rank, anc, t, path).Ok?
    ensures AllPathsFrom(d, rank, anc, t, path).value != [] <==> Reaches(d, rank, t, Last(path), anc)
    decreases rank[Last(path)] + 1, 1, 0
  {
    var x := Last(path);
    if x.pointer != anc.pointer {
      var parents := GetParents(d, x, t).value;
      ParentsRanked(d, rank, x, t);
      ExtensionsRanked(d, rank, path, t, parents);
      ExtensionsComplete(d, rank, anc, t, path, parents);
    }
  }

  lemma {:induction false} ExtensionsComplete(d: map<string, Record>, rank: map<Record, nat>, anc: Record, t: string, path: seq<Record>, ps: seq<Record>)
    requires Acyclic(d, rank) && path != [] && Last(path) in rank
    requires forall p :: p in ps ==> p in rank && rank[p] < rank[Last(path)]
    requires Ranked(rank, Extensions(path, ps))
    requires AllPathsOf(d, rank, anc, t, Extensions(path, ps)).Ok?
    ensures AllPathsOf(d, rank, anc, t, Extensions(path, ps)).value != [] <==> exists p :: p in ps && Reaches(d, rank, t, p, anc)
    decreases rank[Last(path)], 3, |ps|
  {
    if ps != [] {
      var q := ps[0];
      ExtensionsCons(d, rank, anc, t, path, ps);
      AllPathsFromComplete(d, rank, anc, t, path + [q]);
      ExtensionsComplete(d, rank, anc, t, path, ps[1..]);
      ReachesCons(d, rank, t, anc, ps);
    }
  }

  /** The records in the dictionary's ranking are all individuals. */
  predicate AllIndividuals(rank: map<Record, nat>) {
    forall y :: y in rank ==> y.kind == Individual
  }

  /**
   * Among individuals, `find_path_to_ancestor` returns the first of the lines that
   * `find_all_paths_to_ancestor` returns, and nothing when that list is empty.
   */
  lemma {:induction false} FindPathIsFirstOfAll(d: map<string, Record>, rank: map<Record, nat>, anc: Record, t: string, path: seq<Record>)
    requires Acyclic(d, rank) && AllIndividuals(rank) && path != [] && Last(path) in rank
    requires AllPathsFrom(d, rank, anc, t, path).Ok?
    ensures var all := AllPathsFrom(d, rank, anc, t, path).value;
      FindPath(d, rank, anc, path, t) == Ok(if all == [] then None else Some(all[0]))
    decreases rank[Last(path)] + 1, 1, 0
  {
    var x := Last(path);
    if x.pointer != anc.pointer {
      var parents := GetParents(d, x, t).value;
      ParentsRanked(d, rank, x, t);
      ExtensionsRanked(d, rank, path, t, parents);
      SearchIsFirstOfExtensions(d, rank, anc, t, path, parents);
    }
  }

  lemma {:induction false} SearchIsFirstOfExtensions(d: map<string, Record>, rank: map<Record, nat>, anc: Record, t: string, path: seq<Record>, ps: seq<Record>)
    requires Acyclic(d, rank) && AllIndividuals(rank) && path != [] && Last(path) in rank
    requires forall p :: p in ps ==> p in rank && rank[p] < rank[Last(path)] && ParentOf(d, t, Last(path), p)
    requires Ranked(rank, Extensions(path, ps))
    requires AllPathsOf(d, rank, anc, t, Extensions(path, ps)).Ok?
    ensures var all := AllPathsOf(d, rank, anc, t, Extensions(path, ps)).value;
      SearchParents(d, rank, anc, path, t, ps) == Ok(if all == [] then None else Some(all[0]))
    decreases rank[Last(path)], 3, |ps|
  {
    if ps != [] {
      var q := ps[0];
      ExtensionsCons(d, rank, anc, t, path, ps);
      FindPathIsFirstOfAll(d, rank, anc, t, path + [q]);
      SearchIsFirstOfExtensions(d, rank, anc, t, path, ps[1..]);
    }
  }

  lemma AllPathsOfSingle(d: map<string, Record>, rank: map<Record, nat>, anc: Record, t: string, path: seq<Record>)
    requires Acyclic(d, rank) && path != [] && Last(path) in rank
    ensures Ranked(rank, [path])
    ensures AllPathsOf(d, rank, anc, t, [path]) == AllPathsFrom(d, rank, anc, t, path)
  {
    assert [path][1..] == [];
    var r := AllPathsFrom(d, rank, anc, t, path);
    if r.Ok? {
      assert r.value + [] == r.value;
    }
  }

  /** Every line of `paths` has arrived at the ancestor. */
  predicate AllArrived(anc: Record, paths: seq<seq<Record>>) {
    forall k :: 0 <= k < |paths| ==> paths[k] != [] && Last(paths[k]).pointer == anc.pointer
  }

  /** Lines that have all arrived are the whole result. */
  lemma {:induction false} AllPathsOfArrived(d: map<string, Record>, rank: map<Record, nat>, anc: Record, t: string, paths: seq<seq<Record>>)
    requires Acyclic(d, rank) && Ranked(rank, paths) && AllArrived(anc, paths)
    ensures AllPathsOf(d, rank, anc, t, paths) == Ok(paths)
    decreases |paths|
  {
    if paths != [] {
      RankedSplit(rank, paths, 1);
      ArrivedTail(anc, paths);
      AllPathsOfArrived(d, rank, anc, t, paths[1..]);
      assert paths == [paths[0]] + paths[1..];
    }
  }

  lemma ArrivedTail(anc: Record, paths: seq<seq<Record>>)
    requires AllArrived(anc, paths) && paths != []
    ensures AllArrived(anc, paths[1..]) && Last(paths[0]).pointer == anc.pointer
  {
    assert forall k :: 0 <= k < |paths[1..]| ==> paths[1..][k] == paths[k + 1];
  }

  /** One more than the largest rank of an end of a line of `paths` that has not yet arrived. */
  function OpenHeight(rank: map<Record, nat>, anc: Record, paths: seq<seq<Record>>): nat
    requires Ranked(rank, paths)
  {
    if paths == [] then 0
    else
      assert forall k :: 0 <= k < |paths[1..]| ==> paths[1..][k] == paths[k + 1];
      var h := OpenHeight(rank, anc, paths[1..]);
      var top := if Last(paths[0]).pointer != anc.pointer then rank[Last(paths[0])] + 1 else 0;
      if top < h then h else top
  }

  /** Every end of a line of `paths` that has not arrived has a rank below `b`. */
  predicate OpenBelow(rank: map<Record, nat>, anc: Record, paths: seq<seq<Record>>, b: int)
    requires Ranked(rank, paths)
  {
    forall k :: 0 <= k < |paths| && Last(paths[k]).pointer != anc.pointer ==> rank[Last(paths[k])] < b
  }

  lemma {:induction false} OpenHeightAtMost(rank: map<Record, nat>, anc: Record, paths: seq<seq<Record>>, b: nat)
    requires Ranked(rank, paths) && OpenBelow(rank, anc, paths, b)
    ensures OpenHeight(rank, anc, paths) <= b
    decreases |paths|
  {
    if paths != [] {
      assert forall j :: 0 <= j < |paths[1..]| ==> paths[1..][j] == paths[j + 1];
      OpenHeightAtMost(rank, anc, paths[1..], b);
    }
  }

  /** Keeping a line that has arrived keeps the bound on the open ends and the arrival of all. */
  lemma KeepArrived(rank: map<Record, nat>, anc: Record, updated: seq<seq<Record>>, path: seq<Record>, b: int)
    requires Ranked(rank, updated) && OpenBelow(rank, anc, updated, b)
    requires path != [] && Last(path) in rank && Last(path).pointer == anc.pointer
    ensures Ranked(rank, updated + [path]) && OpenBelow(rank, anc, updated + [path], b)
    ensures AllArrived(anc, updated) ==> AllArrived(anc, updated + [path])
  {
    assert forall k :: 0 <= k < |updated| ==> (updated + [path])[k] == updated[k];
    assert (updated + [path])[|updated|] == path;
  }

  /** Adding the continuations of a line through parents ranked below `b` keeps the bound. */
  lemma KeepExtensions(rank: map<Record, nat>, anc: Record, updated: seq<seq<Record>>, path: seq<Record>, ps: seq<Record>, b: int)
    requires Ranked(rank, updated) && OpenBelow(rank, anc, updated, b)
    requires forall p :: p in ps ==> p in rank && rank[p] < b
    ensures Ranked(rank, updated + Extensions(path, ps)) && OpenBelow(rank, anc, updated + Extensions(path, ps), b)
    ensures ps == [] ==> updated + Extensions(path, ps) == updated
  {
    var ext := Extensions(path, ps);
    var u := updated + ext;
    forall k | 0 <= k < |u|
      ensures u[k] != [] && Last(u[k]) in rank
      ensures Last(u[k]).pointer != anc.pointer ==> rank[Last(u[k])] < b
    {
      if k < |updated| {
        assert u[k] == updated[k];
      } else {
        assert u[k] == ext[k - |updated|] == path + [ps[k - |updated|]];
        assert Last(u[k]) == ps[k - |updated|];
      }
    }
    if ps == [] {
      assert ext == [];
    }
  }

  /** Appends the continuation `path + [q]` of `path` through each parent `q` of `ps`, in order. */
  method AppendExtensions(updated: seq<seq<Record>>, path: seq<Record>, ps: seq<Record>) returns (r: seq<seq<Record>>)
    ensures r == updated + Extensions(path, ps)
  {
    r := updated;
    var j := 0;
    while j < |ps|
      invariant 0 <= j <= |ps|
      invariant r == updated + Extensions(path, ps[..j])
    {
      var newPath := path + [ps[j]];
      assert Extensions(path, ps[..j + 1]) == Extensions(path, ps[..j]) + [newPath];
      r := r + [newPath];
      j := j + 1;
    }
    assert ps[..j] == ps;
  }

  /** Joining with the empty result, on either side, changes nothing. */
  lemma JoinEmpty(a: Result<seq<seq<Record>>, QueryError>)
    ensures Join(Ok([]), a) == a && Join(a, Ok([])) == a
  {
    if a.Ok? {
      assert [] + a.value == a.value == a.value + [];
    }
  }

  /**
   * Taking the first of the lines still to expand: the rest stay ranked, the expansion
   * splits into that of the first and that of the rest, and neither the rest nor an open
   * first line reaches above the open height.
   */
  lemma RestStep(d: map<string, Record>, rank: map<Record, nat>, anc: Record, t: string, rest: seq<seq<Record>>)
    requires Acyclic(d, rank) && Ranked(rank, rest) && rest != []
    ensures rest[0] != [] && Last(rest[0]) in rank && Ranked(rank, rest[1..])
    ensures AllPathsOf(d, rank, anc, t, rest)
            == Join(AllPathsFrom(d, rank, anc, t, rest[0]), AllPathsOf(d, rank, anc, t, rest[1..]))
    ensures OpenHeight(rank, anc, rest[1..]) <= OpenHeight(rank, anc, rest)
    ensures Last(rest[0]).pointer != anc.pointer ==> rank[Last(rest[0])] < OpenHeight(rank, anc, rest)
  {
    RankedSplit(rank, rest, 1);
  }

  /**
   * One round of `find_all_paths_to_ancestor`: a line that has arrived is kept, every other
   * one is replaced by its continuations through each of its parents, and `more` says whether
   * some line was continued. The expansion of the new lines is that of the old ones, and a
   * round that continues a line lowers the rank of the open ends.
   */
  method ExpandRound(d: map<string, Record>, rank: map<Record, nat>, anc: Record, t: string, paths: seq<seq<Record>>)
    returns (r: Result<(seq<seq<Record>>, bool), QueryError>)
    requires Acyclic(d, rank) && Ranked(rank, paths)
    ensures r.Err? ==> AllPathsOf(d, rank, anc, t, paths).Err?
    ensures r.Ok? ==>
              var (updated, more) := r.value;
              Ranked(rank, updated)
              && AllPathsOf(d, rank, anc, t, updated) == AllPathsOf(d, rank, anc, t, paths)
              && (more ==> OpenHeight(rank, anc, updated) < OpenHeight(rank, anc, paths))
              && (!more ==> AllArrived(anc, updated))
  {
    ghost var h: int := OpenHeight(rank, anc, paths);
    var updated: seq<seq<Record>> := [];
    var more := false;
    var rest := paths;
    JoinEmpty(AllPathsOf(d, rank, anc, t, paths));
    while rest != []
      invariant Ranked(rank, updated) && Ranked(rank, rest)
      invariant Join(AllPathsOf(d, rank, anc, t, updated), AllPathsOf(d, rank, anc, t, rest)) == AllPathsOf(d, rank, anc, t, paths)
      invariant OpenHeight(rank, anc, rest) <= h
      invariant OpenBelow(rank, anc, updated, h - 1)
      invariant more ==> h >= 1
      invariant !more ==> AllArrived(anc, updated)
      decreases |rest|
    {
      var path := rest[0];
      RestStep(d, rank, anc, t, rest);
      var step := ExpandPath(d, rank, anc, t, updated, path, h - 1);
      if step.Err? {
        return Err(step.error);
      }
      JoinAssoc(AllPathsOf(d, rank, anc, t, updated), AllPathsFrom(d, rank, anc, t, path), AllPathsOf(d, rank, anc, t, rest[1..]));
      updated := step.value.0;
      more := more || step.value.1;
      rest := rest[1..];
    }
    JoinEmpty(AllPathsOf(d, rank, anc, t, updated));
    if more {
      OpenHeightAtMost(rank, anc, updated, h - 1);
    }
    return Ok((updated, more));
  }

  /**
   * The step of a round for one line: kept when it has arrived, otherwise replaced by its
   * continuations through each of its parents; `more` says whether some line was added that way.
   */
  method ExpandPath(d: map<string, Record>, rank: map<Record, nat>, anc: Record, t: string, updated: seq<seq<Record>>, path: seq<Record>, ghost b: int)
    returns (r: Result<(seq<seq<Record>>, bool), QueryError>)
    requires Acyclic(d, rank) && Ranked(rank, updated) && OpenBelow(rank, anc, updated, b)
    requires path != [] && Last(path) in rank
    requires Last(path).pointer != anc.pointer ==> rank[Last(path)] <= b
    ensures r.Err? ==> AllPathsFrom(d, rank, anc, t, path).Err?
    ensures r.Ok? ==>
              var (next, more) := r.value;
              Ranked(rank, next) && OpenBelow(rank, anc, next, b)
              && AllPathsOf(d, rank, anc, t, next)
                 == Join(AllPathsOf(d, rank, anc, t, updated), AllPathsFrom(d, rank, anc, t, path))
              && (more ==> Last(path).pointer != anc.pointer)
              && (!more ==> (AllArrived(anc, updated) ==> AllArrived(anc, next)))
  {
    AllPathsOfSingle(d, rank, anc, t, path);
    if Last(path).pointer == anc.pointer {
      AllPathsOfAppend(d, rank, anc, t, updated, [path]);
      KeepArrived(rank, anc, updated, path, b);
      return Ok((updated + [path], false));
    }
    var parents := GetParents(d, Last(path), t);
    if parents.Err? {
      return Err(parents.error);
    }
    var ps := parents.value;
    ParentsRanked(d, rank, Last(path), t);
    ExtensionsRanked(d, rank, path, t, ps);
    AllPathsOfAppend(d, rank, anc, t, updated, Extensions(path, ps));
    KeepExtensions(rank, anc, updated, path, ps, b);
    var next := AppendExtensions(updated, path, ps);
    return Ok((next, ps != []));
  }

  /**
   * `find_all_paths_to_ancestor`: rounds over the current lines until a round continues
   * nothing. The result is the depth-first expansion `AllPaths`; both fail together, possibly
   * on different errors since the rounds visit records in another order.
   */
  method FindAllPathsToAncestor(d: map<string, Record>, rank: map<Record, nat>, descendant: Record, anc: Record, t: string)
    returns (r: Result<seq<seq<Record>>, QueryError>)
    requires Acyclic(d, rank) && descendant in rank
    ensures r.Err? <==> AllPaths(d, rank, descendant, anc, t).Err?
    ensures r.Ok? ==> r == AllPaths(d, rank, descendant, anc, t)
  {
    if descendant.kind != Individual && anc.kind == Individual {
      return Err(NotAnActualIndividual);
    }
    var updated: seq<seq<Record>> := [[descendant]];
    var unresolved := true;
    AllPathsOfSingle(d, rank, anc, t, [descendant]);
    while unresolved
      invariant Ranked(rank, updated)
      invariant AllPathsOf(d, rank, anc, t, updated) == AllPaths(d, rank, descendant, anc, t)
      invariant !unresolved ==> AllArrived(anc, updated)
      decreases if unresolved then OpenHeight(rank, anc, updated) + 1 else 0
    {
      var round := ExpandRound(d, rank, anc, t, updated);
      if round.Err? {
        return Err(round.error);
      }
      updated, unresolved := round.value.0, round.value.1;
    }
    AllPathsOfArrived(d, rank, anc, t, updated);
    r := Ok(updated);
  }
}
