/**
 * The pruning tool: `split_gedcom` keeps the ancestor's descendants, their spouses and the
 * families linking them (and, on request, the spouses' parents), then the sources, the
 * repositories and the media those records still cite, and removes every other root record
 * of those five kinds in place.
 */
module Splitter {
  import opened Wrappers
  import opened Records
  import opened Relationships
  import opened PathSearch
  import opened Sources
  import opened GedcomParser
  import opened Text

  /** The parent type the tool asks the path search for; anything but `NAT` means all parents. */
  const ALL_PARENTS := "All"

  /** The lists of record pointers the first two phases fill: `individual_ids`, `family_ids` and `spouses`. */
  datatype Marks = Marks(individuals: seq<string>, families: seq<string>, spouses: seq<string>)

  /** Every one of the records is ranked. */
  predicate InRank(rank: map<Record, nat>, cs: seq<Record>) {
    forall e :: e in cs ==> e in rank
  }

  // ---------------------------------------------------------------------------------------
  // Phase 1: descendants, their FAMS families and their spouses
  // ---------------------------------------------------------------------------------------

  /** The pointers of the members other than `self`, in order. */
  function CoParents(ms: seq<Record>, self: string): seq<string> {
    if ms == [] then []
    else (if ms[0].pointer != self then [ms[0].pointer] else []) + CoParents(ms[1..], self)
  }

  /** A pointer is listed exactly when some member other than `self` carries it. */
  lemma {:induction false} CoParentsSpec(ms: seq<Record>, self: string, p: string)
    ensures p in CoParents(ms, self) <==> p != self && exists s :: s in ms && s.pointer == p
  {
    if ms != [] {
      CoParentsSpec(ms[1..], self, p);
      assert ms == [ms[0]] + ms[1..];
    }
  }

  /**
   * The marks for the FAMS families `fs` of the descendant `self`, in order: each family's
   * pointer, then the pointers of its husbands and wives other than `self`. A record that is
   * not a family raises.
   */
  function FamilyMarks(d: map<string, Record>, self: string, fs: seq<Record>, m: Marks): Result<Marks, QueryError> {
    if fs == [] then Ok(m)
    else match GetFamilyMembers(d, fs[0], PARENTS)
      case Err(e) => Err(e)
      case Ok(ms) =>
        FamilyMarks(d, self, fs[1..], m.(families := m.families + [fs[0].pointer], spouses := m.spouses + CoParents(ms, self)))
  }

  /** A root record counts as a descendant when it is an individual with a line up to the ancestor. */
  predicate Descends(d: map<string, Record>, rank: map<Record, nat>, anc: Record, e: Record)
    requires Acyclic(d, rank) && e in rank
  {
    e.kind == Individual && FindPathToAncestor(d, rank, e, anc, ALL_PARENTS).Ok?
    && FindPathToAncestor(d, rank, e, anc, ALL_PARENTS).value.Some?
  }

  /** What one root record adds in the first phase. */
  function DescendantStep(d: map<string, Record>, rank: map<Record, nat>, anc: Record, e: Record, m: Marks): Result<Marks, QueryError>
    requires Acyclic(d, rank) && e in rank
  {
    if e.kind != Individual then Ok(m)
    else match FindPathToAncestor(d, rank, e, anc, ALL_PARENTS)
      case Err(err) => Err(err)
      case Ok(None) => Ok(m)
      case Ok(Some(_)) => FamilyMarks(d, e.pointer, FamiliesOf(d, e, FAMS), m.(individuals := m.individuals + [e.pointer]))
  }

  /** The first phase over the root records `cs`, in order; the first error stops it. */
  function Descendants(d: map<string, Record>, rank: map<Record, nat>, anc: Record, cs: seq<Record>, m: Marks): Result<Marks, QueryError>
    requires Acyclic(d, rank) && InRank(rank, cs)
  {
    if cs == [] then Ok(m)
    else match DescendantStep(d, rank, anc, cs[0], m)
      case Err(err) => Err(err)
      case Ok(m') => Descendants(d, rank, anc, cs[1..], m')
  }

  /** A family's husbands' and wives' pointers other than `self` are marked as spouses. */
  predicate SpouseVia(d: map<string, Record>, self: string, f: Record, p: string) {
    p != self && exists s :: s in Members(d, f, PARENTS) && s.pointer == p
  }

  /**
   * The families raise exactly when one of them is not a family; otherwise they add their own
   * pointers to the families and their other husbands' and wives' pointers to the spouses.
   */
  lemma {:induction false} FamilyMarksSpec(d: map<string, Record>, self: string, fs: seq<Record>, m: Marks, p: string)
    ensures FamilyMarks(d, self, fs, m).Err? <==> exists f :: f in fs && f.kind != Family
    ensures FamilyMarks(d, self, fs, m).Ok? ==>
              var r := FamilyMarks(d, self, fs, m).value;
              r.individuals == m.individuals
              && (p in r.families <==> p in m.families || exists f :: f in fs && f.pointer == p)
              && (p in r.spouses <==> p in m.spouses || exists f :: f in fs && SpouseVia(d, self, f, p))
  {
    if fs != [] {
      var f := fs[0];
      assert fs == [f] + fs[1..];
      if f.kind == Family {
        var ms := Members(d, f, PARENTS);
        assert GetFamilyMembers(d, f, PARENTS) == Ok(ms);
        var m' := m.(families := m.families + [f.pointer], spouses := m.spouses + CoParents(ms, self));
        assert FamilyMarks(d, self, fs, m) == FamilyMarks(d, self, fs[1..], m');
        CoParentsSpec(ms, self, p);
        assert p in m'.spouses <==> p in m.spouses || SpouseVia(d, self, f, p);
        assert p in m'.families <==> p in m.families || f.pointer == p;
        FamilyMarksSpec(d, self, fs[1..], m', p);
      } else {
        assert f in fs;
      }
    }
  }

  /** The first phase raises on an individual whose search raises or whose FAMS link names a non-family. */
  predicate DescendantRaises(d: map<string, Record>, rank: map<Record, nat>, anc: Record, e: Record)
    requires Acyclic(d, rank) && e in rank
  {
    e.kind == Individual
    && (FindPathToAncestor(d, rank, e, anc, ALL_PARENTS).Err?
        || (Descends(d, rank, anc, e) && exists f :: f in FamiliesOf(d, e, FAMS) && f.kind != Family))
  }

  lemma DescendantStepSpec(d: map<string, Record>, rank: map<Record, nat>, anc: Record, e: Record, m: Marks, p: string)
    requires Acyclic(d, rank) && e in rank
    ensures DescendantStep(d, rank, anc, e, m).Err? <==> DescendantRaises(d, rank, anc, e)
    ensures DescendantStep(d, rank, anc, e, m).Ok? ==>
              var r := DescendantStep(d, rank, anc, e, m).value;
              (p in r.individuals <==> p in m.individuals || (Descends(d, rank, anc, e) && e.pointer == p))
              && (p in r.families <==> p in m.families
                                       || (Descends(d, rank, anc, e) && exists f :: f in FamiliesOf(d, e, FAMS) && f.pointer == p))
              && (p in r.spouses <==> p in m.spouses
                                      || (Descends(d, rank, anc, e) && exists f :: f in FamiliesOf(d, e, FAMS) && SpouseVia(d, e.pointer, f, p)))
  {
    if Descends(d, rank, anc, e) {
      FamilyMarksSpec(d, e.pointer, FamiliesOf(d, e, FAMS), m.(individuals := m.individuals + [e.pointer]), p);
    }
  }

  /**
   * The first phase raises exactly when some root individual makes it raise. Otherwise it marks
   * the pointer of every root individual with a line up to the ancestor, the pointers of their
   * FAMS families, and the pointers of those families' husbands and wives other than the
   * descendant itself.
   */
  lemma {:induction false} DescendantsSpec(d: map<string, Record>, rank: map<Record, nat>, anc: Record, cs: seq<Record>, m: Marks, p: string)
    requires Acyclic(d, rank) && InRank(rank, cs)
    ensures Descendants(d, rank, anc, cs, m).Err? <==> exists e :: e in cs && DescendantRaises(d, rank, anc, e)
    ensures Descendants(d, rank, anc, cs, m).Ok? ==>
              var r := Descendants(d, rank, anc, cs, m).value;
              (p in r.individuals <==> p in m.individuals || exists e :: e in cs && Descends(d, rank, anc, e) && e.pointer == p)
              && (p in r.families <==> p in m.families
                                       || exists e, f :: e in cs && Descends(d, rank, anc, e) && f in FamiliesOf(d, e, FAMS) && f.pointer == p)
              && (p in r.spouses <==> p in m.spouses
                                      || exists e, f :: e in cs && Descends(d, rank, anc, e) && f in FamiliesOf(d, e, FAMS) && SpouseVia(d, e.pointer, f, p))
  {
    if cs != [] {
      var e := cs[0];
      assert cs == [e] + cs[1..];
      DescendantStepSpec(d, rank, anc, e, m, p);
      if DescendantStep(d, rank, anc, e, m).Ok? {
        DescendantsSpec(d, rank, anc, cs[1..], DescendantStep(d, rank, anc, e, m).value, p);
      }
    }
  }

  /** Appends the pointers of the members other than `self`, skipping `self` itself. */
  method AppendCoParents(spouses: seq<string>, ms: seq<Record>, self: string) returns (r: seq<string>)
    ensures r == spouses + CoParents(ms, self)
  {
    r := spouses;
    var j := 0;
    while j < |ms|
      invariant 0 <= j <= |ms|
      invariant r + CoParents(ms[j..], self) == spouses + CoParents(ms, self)
    {
      assert ms[j..] == [ms[j]] + ms[j + 1..];
      if ms[j].pointer != self {
        r := r + [ms[j].pointer];
      }
      j := j + 1;
    }
  }

  /** The marks from the `j`-th family on: that family's, then those of the families after it. */
  lemma FamilyMarksAt(d: map<string, Record>, self: string, fs: seq<Record>, j: nat, acc: Marks)
    requires j < |fs|
    ensures var members := GetFamilyMembers(d, fs[j], PARENTS);
            FamilyMarks(d, self, fs[j..], acc)
            == if members.Err? then Err(members.error)
               else FamilyMarks(d, self, fs[j + 1..],
                                acc.(families := acc.families + [fs[j].pointer],
                                     spouses := acc.spouses + CoParents(members.value, self)))
  {
    assert fs[j..][0] == fs[j] && fs[j..][1..] == fs[j + 1..];
  }

  /** The loop over the FAMS families of a descendant. */
  method MarkFamilies(d: map<string, Record>, self: string, fs: seq<Record>, m: Marks) returns (r: Result<Marks, QueryError>)
    ensures r == FamilyMarks(d, self, fs, m)
  {
    var acc := m;
    var j := 0;
    while j < |fs|
      invariant 0 <= j <= |fs|
      invariant FamilyMarks(d, self, fs[j..], acc) == FamilyMarks(d, self, fs, m)
    {
      var members := GetFamilyMembers(d, fs[j], PARENTS);
      FamilyMarksAt(d, self, fs, j, acc);
      if members.Err? {
        return Err(members.error);
      }
      var spouses := AppendCoParents(acc.spouses, members.value, self);
      acc := acc.(families := acc.families + [fs[j].pointer], spouses := spouses);
      j := j + 1;
    }
    return Ok(acc);
  }

  /** The first loop of `split_gedcom`: every root individual with a line up to the ancestor. */
  method MarkDescendants(d: map<string, Record>, rank: map<Record, nat>, anc: Record, cs: seq<Record>)
    returns (r: Result<Marks, QueryError>)
    requires Acyclic(d, rank) && InRank(rank, cs)
    ensures r == Descendants(d, rank, anc, cs, Marks([], [], []))
  {
    var m := Marks([], [], []);
    var i := 0;
    while i < |cs|
      invariant 0 <= i <= |cs|
      invariant InRank(rank, cs[i..])
      invariant Descendants(d, rank, anc, cs[i..], m) == Descendants(d, rank, anc, cs, Marks([], [], []))
    {
      var element := cs[i];
      assert cs[i..][0] == element && cs[i..][1..] == cs[i + 1..];
      if element.kind == Individual {
        var found := FindPathToAncestor(d, rank, element, anc, ALL_PARENTS);
        if found.Err? {
          return Err(found.error);
        }
        if found.value.Some? {
          var marked := MarkFamilies(d, element.pointer, FamiliesOf(d, element, FAMS),
                                     m.(individuals := m.individuals + [element.pointer]));
          if marked.Err? {
            return marked;
          }
          m := marked.value;
        }
      }
      i := i + 1;
    }
    return Ok(m);
  }

  // ---------------------------------------------------------------------------------------
  // Phase 2: spouses, their FAMC families and, with in-laws, their parents
  // ---------------------------------------------------------------------------------------

  /** Appends `p` unless it is already listed. */
  function AddNew(ids: seq<string>, p: string): (r: seq<string>)
    ensures forall q :: q in r <==> q in ids || q == p
  {
    if p in ids then ids else ids + [p]
  }

  /** Appends, in order, the pointers of the records that are not listed yet. */
  function AddNewPointers(ids: seq<string>, rs: seq<Record>): seq<string>
    decreases |rs|
  {
    if rs == [] then ids else AddNewPointers(AddNew(ids, rs[0].pointer), rs[1..])
  }

  lemma {:induction false} AddNewPointersSpec(ids: seq<string>, rs: seq<Record>, p: string)
    ensures p in AddNewPointers(ids, rs) <==> p in ids || exists r :: r in rs && r.pointer == p
    decreases |rs|
  {
    if rs != [] {
      AddNewPointersSpec(AddNew(ids, rs[0].pointer), rs[1..], p);
      assert rs == [rs[0]] + rs[1..];
    }
  }

  /**
   * The FAMC families `fs` of a spouse `e`, in order: each family's pointer, and with in-laws
   * the pointers of `e`'s parents not listed yet, asked for again at every family.
   */
  function SpouseFamilies(d: map<string, Record>, inlaws: bool, e: Record, fs: seq<Record>, m: Marks): Result<Marks, QueryError> {
    if fs == [] then Ok(m)
    else
      var m' := m.(families := m.families + [fs[0].pointer]);
      if !inlaws then SpouseFamilies(d, inlaws, e, fs[1..], m')
      else match GetParents(d, e, ALL)
        case Err(err) => Err(err)
        case Ok(ps) => SpouseFamilies(d, inlaws, e, fs[1..], m'.(individuals := AddNewPointers(m'.individuals, ps)))
  }

  /** A root record the first phase marked as a spouse. */
  predicate MarkedSpouse(m: Marks, e: Record) {
    e.kind == Individual && e.pointer in m.spouses
  }

  /** What one root record adds in the second phase. */
  function SpouseStep(d: map<string, Record>, inlaws: bool, e: Record, m: Marks): Result<Marks, QueryError> {
    if !MarkedSpouse(m, e) then Ok(m)
    else SpouseFamilies(d, inlaws, e, FamiliesOf(d, e, FAMC), m.(individuals := AddNew(m.individuals, e.pointer)))
  }

  /** The second phase over the root records `cs`, in order; the first error stops it. */
  function SpousesPhase(d: map<string, Record>, inlaws: bool, cs: seq<Record>, m: Marks): Result<Marks, QueryError> {
    if cs == [] then Ok(m)
    else match SpouseStep(d, inlaws, cs[0], m)
      case Err(err) => Err(err)
      case Ok(m') => SpousesPhase(d, inlaws, cs[1..], m')
  }

  /** A parent of the spouse `e`: a husband or wife of one of `e`'s FAMC families. */
  predicate InLaw(d: map<string, Record>, e: Record, p: string) {
    exists q :: q in ParentCandidates(d, e) && q.pointer == p
  }

  lemma {:induction false} SpouseFamiliesSpec(d: map<string, Record>, inlaws: bool, e: Record, fs: seq<Record>, m: Marks, p: string)
    requires e.kind == Individual
    ensures SpouseFamilies(d, inlaws, e, fs, m).Err? <==> inlaws && fs != [] && GetParents(d, e, ALL).Err?
    ensures SpouseFamilies(d, inlaws, e, fs, m).Ok? ==>
              var r := SpouseFamilies(d, inlaws, e, fs, m).value;
              r.spouses == m.spouses
              && (p in r.families <==> p in m.families || exists f :: f in fs && f.pointer == p)
              && (p in r.individuals <==> p in m.individuals || (inlaws && fs != [] && InLaw(d, e, p)))
  {
    if fs != [] {
      assert fs == [fs[0]] + fs[1..];
      var m' := m.(families := m.families + [fs[0].pointer]);
      if !inlaws {
        SpouseFamiliesSpec(d, inlaws, e, fs[1..], m', p);
      } else if GetParents(d, e, ALL).Ok? {
        var ps := GetParents(d, e, ALL).value;
        GetParentsAll(d, e, ALL);
        AddNewPointersSpec(m'.individuals, ps, p);
        SpouseFamiliesSpec(d, inlaws, e, fs[1..], m'.(individuals := AddNewPointers(m'.individuals, ps)), p);
      }
    }
  }

  /** The parents of a spouse are the husbands and wives of its FAMC families, so it has none without one. */
  lemma InLawNeedsFamily(d: map<string, Record>, e: Record, p: string)
    requires FamiliesOf(d, e, FAMC) == []
    ensures !InLaw(d, e, p)
  {
  }

  /** A spouse raises, with in-laws, exactly when it has FAMC links and one of them names a non-family. */
  predicate SpouseRaises(d: map<string, Record>, inlaws: bool, m: Marks, e: Record) {
    inlaws && MarkedSpouse(m, e) && FamiliesOf(d, e, FAMC) != [] && !AllFamilies(FamiliesOf(d, e, FAMC))
  }

  lemma SpouseStepSpec(d: map<string, Record>, inlaws: bool, e: Record, m: Marks, p: string)
    ensures SpouseStep(d, inlaws, e, m).Err? <==> SpouseRaises(d, inlaws, m, e)
    ensures SpouseStep(d, inlaws, e, m).Ok? ==>
              var r := SpouseStep(d, inlaws, e, m).value;
              r.spouses == m.spouses
              && (p in r.families <==> p in m.families
                                       || (MarkedSpouse(m, e) && exists f :: f in FamiliesOf(d, e, FAMC) && f.pointer == p))
              && (p in r.individuals <==> p in m.individuals
                                          || (MarkedSpouse(m, e) && (p == e.pointer || (inlaws && InLaw(d, e, p)))))
  {
    if MarkedSpouse(m, e) {
      GetParentsAll(d, e, ALL);
      SpouseFamiliesSpec(d, inlaws, e, FamiliesOf(d, e, FAMC), m.(individuals := AddNew(m.individuals, e.pointer)), p);
      if FamiliesOf(d, e, FAMC) == [] {
        InLawNeedsFamily(d, e, p);
      }
    }
  }

  /**
   * The second phase raises exactly when, with in-laws, a marked spouse has a FAMC link naming
   * a non-family. Otherwise it adds the pointer of every root individual marked as a spouse and
   * of that spouse's FAMC families, and with in-laws the pointers of the spouse's parents; the
   * FAMC families are added even without in-laws.
   */
  lemma {:induction false} SpousesSpec(d: map<string, Record>, inlaws: bool, cs: seq<Record>, m: Marks, p: string)
    ensures SpousesPhase(d, inlaws, cs, m).Err? <==> exists e :: e in cs && SpouseRaises(d, inlaws, m, e)
    ensures SpousesPhase(d, inlaws, cs, m).Ok? ==>
              var r := SpousesPhase(d, inlaws, cs, m).value;
              r.spouses == m.spouses
              && (p in r.families <==> p in m.families
                                       || exists e, f :: e in cs && MarkedSpouse(m, e) && f in FamiliesOf(d, e, FAMC) && f.pointer == p)
              && (p in r.individuals <==> p in m.individuals
                                          || exists e :: e in cs && MarkedSpouse(m, e) && (p == e.pointer || (inlaws && InLaw(d, e, p))))
  {
    if cs != [] {
      var e := cs[0];
      assert cs == [e] + cs[1..];
      SpouseStepSpec(d, inlaws, e, m, p);
      if SpouseStep(d, inlaws, e, m).Ok? {
        var m' := SpouseStep(d, inlaws, e, m).value;
        SpousesSpec(d, inlaws, cs[1..], m', p);
        assert forall x :: MarkedSpouse(m', x) <==> MarkedSpouse(m, x);
        assert forall x :: SpouseRaises(d, inlaws, m', x) <==> SpouseRaises(d, inlaws, m, x);
      }
    }
  }

  /** Appends the pointers of the records that are not listed yet, in order. */
  method AppendNewPointers(ids: seq<string>, rs: seq<Record>) returns (r: seq<string>)
    ensures r == AddNewPointers(ids, rs)
  {
    r := ids;
    var j := 0;
    while j < |rs|
      invariant 0 <= j <= |rs|
      invariant AddNewPointers(r, rs[j..]) == AddNewPointers(ids, rs)
    {
      assert rs[j..][0] == rs[j] && rs[j..][1..] == rs[j + 1..];
      if rs[j].pointer !in r {
        r := r + [rs[j].pointer];
      }
      j := j + 1;
    }
  }

  /** The loop over the FAMC families of a spouse. */
  method MarkSpouseFamilies(d: map<string, Record>, inlaws: bool, e: Record, fs: seq<Record>, m: Marks)
    returns (r: Result<Marks, QueryError>)
    ensures r == SpouseFamilies(d, inlaws, e, fs, m)
  {
    var acc := m;
    var j := 0;
    while j < |fs|
      invariant 0 <= j <= |fs|
      invariant SpouseFamilies(d, inlaws, e, fs[j..], acc) == SpouseFamilies(d, inlaws, e, fs, m)
    {
      assert fs[j..][0] == fs[j] && fs[j..][1..] == fs[j + 1..];
      acc := acc.(families := acc.families + [fs[j].pointer]);
      if inlaws {
        var parents := GetParents(d, e, ALL);
        if parents.Err? {
          return Err(parents.error);
        }
        var individuals := AppendNewPointers(acc.individuals, parents.value);
        acc := acc.(individuals := individuals);
      }
      j := j + 1;
    }
    return Ok(acc);
  }

  /** The second loop of `split_gedcom`: every root individual marked as a spouse. */
  method MarkSpouses(d: map<string, Record>, inlaws: bool, cs: seq<Record>, m: Marks) returns (r: Result<Marks, QueryError>)
    ensures r == SpousesPhase(d, inlaws, cs, m)
  {
    var acc := m;
    var i := 0;
    while i < |cs|
      invariant 0 <= i <= |cs|
      invariant SpousesPhase(d, inlaws, cs[i..], acc) == SpousesPhase(d, inlaws, cs, m)
    {
      var element := cs[i];
      assert cs[i..][0] == element && cs[i..][1..] == cs[i + 1..];
      if element.kind == Individual && element.pointer in acc.spouses {
        var individuals := acc.individuals;
        if element.pointer !in individuals {
          individuals := individuals + [element.pointer];
        }
        var marked := MarkSpouseFamilies(d, inlaws, element, FamiliesOf(d, element, FAMC), acc.(individuals := individuals));
        if marked.Err? {
          return marked;
        }
        acc := marked.value;
      }
      i := i + 1;
    }
    return Ok(acc);
  }

  // ---------------------------------------------------------------------------------------
  // Sweeps: removing root records of the swept kinds in place
  // ---------------------------------------------------------------------------------------

  /** The five kinds of root record the tool removes. */
  predicate Swept(k: Kind) {
    k == Individual || k == Family || k == Source || k == Repository || k == Object
  }

  /** A sweep removes a root record whose kind it sweeps and whose pointer it did not collect. */
  predicate Doomed(r: Record, keep: map<Kind, seq<string>>) {
    r.kind in keep && r.pointer !in keep[r.kind]
  }

  /**
   * `remove_child_element(pointer)` on the root: the first root record carrying the pointer
   * is dropped, the others keep their order.
   */
  function RemoveFirst(cs: seq<Record>, pointer: string): (r: seq<Record>)
    ensures |r| <= |cs|
    ensures (exists i :: 0 <= i < |cs| && cs[i].pointer == pointer) ==> |r| == |cs| - 1
  {
    if cs == [] then []
    else if cs[0].pointer == pointer then cs[1..]
    else [cs[0]] + RemoveFirst(cs[1..], pointer)
  }

  /**
   * The sweep loop from index `x`: a doomed record at `x` is removed by pointer and `x` stays,
   * any other record advances `x`.
   */
  function SweepFrom(cs: seq<Record>, x: nat, keep: map<Kind, seq<string>>): seq<Record>
    decreases |cs|, |cs| - x
  {
    if x >= |cs| then cs
    else if Doomed(cs[x], keep) then SweepFrom(RemoveFirst(cs, cs[x].pointer), x, keep)
    else SweepFrom(cs, x + 1, keep)
  }

  /** The records a sweep should leave: every record it does not doom, in order. */
  function Kept(cs: seq<Record>, keep: map<Kind, seq<string>>): (r: seq<Record>)
    ensures |r| <= |cs|
    ensures forall x :: x in r <==> x in cs && !Doomed(x, keep)
  {
    if cs == [] then []
    else (if Doomed(cs[0], keep) then [] else [cs[0]]) + Kept(cs[1..], keep)
  }

  /** No record of a swept kind shares its pointer with an earlier root record. */
  predicate Twinless(cs: seq<Record>) {
    cs == [] || (Twinless(cs[1..]) && forall x :: x in cs[1..] && Swept(x.kind) ==> x.pointer != cs[0].pointer)
  }

  lemma {:induction false} TwinlessSplit(a: seq<Record>, b: seq<Record>)
    requires Twinless(a + b)
    ensures Twinless(b)
    ensures forall x, y :: x in a && y in b && Swept(y.kind) ==> y.pointer != x.pointer
  {
    if a == [] {
      assert a + b == b;
    } else {
      assert (a + b)[1..] == a[1..] + b;
      TwinlessSplit(a[1..], b);
    }
  }

  lemma {:induction false} TwinlessDrop(a: seq<Record>, y: Record, b: seq<Record>)
    requires Twinless(a + [y] + b)
    ensures Twinless(a + b)
  {
    if a == [] {
      assert a + [y] + b == [y] + b && (a + b) == b;
    } else {
      assert (a + [y] + b)[1..] == a[1..] + [y] + b;
      assert (a + b)[1..] == a[1..] + b;
      TwinlessDrop(a[1..], y, b);
    }
  }

  /** The records a filter keeps are twinless when the original ones were. */
  lemma {:induction false} KeptTwinless(cs: seq<Record>, keep: map<Kind, seq<string>>)
    requires Twinless(cs)
    ensures Twinless(Kept(cs, keep))
  {
    if cs != [] {
      KeptTwinless(cs[1..], keep);
      var k := Kept(cs, keep);
      if Doomed(cs[0], keep) {
        assert k == [] + Kept(cs[1..], keep) == Kept(cs[1..], keep);
      } else {
        assert k == [cs[0]] + Kept(cs[1..], keep);
        assert k[1..] == Kept(cs[1..], keep) && k[0] == cs[0];
        forall x | x in k[1..] && Swept(x.kind)
          ensures x.pointer != k[0].pointer
        {
          assert x in cs[1..];
        }
      }
    }
  }

  /** Removing by pointer a record that no earlier record shares drops exactly that record. */
  lemma {:induction false} RemoveFirstAfter(done: seq<Record>, rest: seq<Record>)
    requires rest != []
    requires forall x :: x in done ==> x.pointer != rest[0].pointer
    ensures RemoveFirst(done + rest, rest[0].pointer) == done + rest[1..]
  {
    var p := rest[0].pointer;
    if done == [] {
      assert done + rest == rest && done + rest[1..] == rest[1..];
    } else {
      var c := done + rest;
      assert c[0] == done[0] && done[0] in done;
      assert c[1..] == done[1..] + rest;
      RemoveFirstAfter(done[1..], rest);
      assert RemoveFirst(c, p) == [done[0]] + RemoveFirst(c[1..], p);
      assert [done[0]] + (done[1..] + rest[1..]) == done + rest[1..];
    }
  }

  lemma ConcatCons(done: seq<Record>, rest: seq<Record>)
    requires rest != []
    ensures done + rest == done + [rest[0]] + rest[1..]
    ensures (done + rest)[|done|] == rest[0]
  {
    assert rest == [rest[0]] + rest[1..];
  }

  /** A doomed record no earlier record shadows is removed in one step of the sweep. */
  lemma DoomedStep(done: seq<Record>, rest: seq<Record>, keep: map<Kind, seq<string>>)
    requires rest != [] && Doomed(rest[0], keep) && Swept(rest[0].kind)
    requires Twinless(done + rest)
    ensures SweepFrom(done + rest, |done|, keep) == SweepFrom(done + rest[1..], |done|, keep)
    ensures Twinless(done + rest[1..])
  {
    ConcatCons(done, rest);
    TwinlessSplit(done, rest);
    RemoveFirstAfter(done, rest);
    TwinlessDrop(done, rest[0], rest[1..]);
  }

  /** A record the sweep keeps moves from the unvisited part to the visited part. */
  lemma KeptStep(done: seq<Record>, rest: seq<Record>, keep: map<Kind, seq<string>>)
    requires rest != [] && !Doomed(rest[0], keep)
    ensures SweepFrom(done + rest, |done|, keep) == SweepFrom((done + [rest[0]]) + rest[1..], |done| + 1, keep)
  {
    ConcatCons(done, rest);
  }

  lemma {:induction false} SweepSplit(done: seq<Record>, rest: seq<Record>, keep: map<Kind, seq<string>>)
    requires forall k :: k in keep ==> Swept(k)
    requires forall x :: x in done ==> !Doomed(x, keep)
    requires Twinless(done + rest)
    ensures SweepFrom(done + rest, |done|, keep) == done + Kept(rest, keep)
    decreases |rest|, 1
  {
    if rest == [] {
      assert done + rest == done;
    } else if Doomed(rest[0], keep) {
      SweepPastDoomed(done, rest, keep);
    } else {
      SweepPastKept(done, rest, keep);
    }
  }

  lemma {:induction false} SweepPastDoomed(done: seq<Record>, rest: seq<Record>, keep: map<Kind, seq<string>>)
    requires forall k :: k in keep ==> Swept(k)
    requires forall x :: x in done ==> !Doomed(x, keep)
    requires Twinless(done + rest)
    requires rest != [] && Doomed(rest[0], keep)
    ensures SweepFrom(done + rest, |done|, keep) == done + Kept(rest, keep)
    decreases |rest|, 0
  {
    assert Kept(rest, keep) == [] + Kept(rest[1..], keep) == Kept(rest[1..], keep);
    DoomedStep(done, rest, keep);
    SweepSplit(done, rest[1..], keep);
  }

  lemma {:induction false} SweepPastKept(done: seq<Record>, rest: seq<Record>, keep: map<Kind, seq<string>>)
    requires forall k :: k in keep ==> Swept(k)
    requires forall x :: x in done ==> !Doomed(x, keep)
    requires Twinless(done + rest)
    requires rest != [] && !Doomed(rest[0], keep)
    ensures SweepFrom(done + rest, |done|, keep) == done + Kept(rest, keep)
    decreases |rest|, 0
  {
    var y := rest[0];
    KeptStep(done, rest, keep);
    SnocKept(done, rest, keep);
    SweepSplit(done + [y], rest[1..], keep);
  }

  /** The facts the sweep needs to move a kept record from the unvisited part to the visited part. */
  lemma SnocKept(done: seq<Record>, rest: seq<Record>, keep: map<Kind, seq<string>>)
    requires forall x :: x in done ==> !Doomed(x, keep)
    requires Twinless(done + rest)
    requires rest != [] && !Doomed(rest[0], keep)
    ensures forall x :: x in done + [rest[0]] ==> !Doomed(x, keep)
    ensures Twinless((done + [rest[0]]) + rest[1..])
    ensures (done + [rest[0]]) + Kept(rest[1..], keep) == done + Kept(rest, keep)
  {
    ConcatCons(done, rest);
    KeptCons(rest, keep);
    AppendSnoc(done, rest[0], Kept(rest[1..], keep));
  }

  lemma KeptCons(rest: seq<Record>, keep: map<Kind, seq<string>>)
    requires rest != [] && !Doomed(rest[0], keep)
    ensures Kept(rest, keep) == [rest[0]] + Kept(rest[1..], keep)
  {
  }

  lemma AppendSnoc(a: seq<Record>, y: Record, b: seq<Record>)
    ensures (a + [y]) + b == a + ([y] + b)
  {
  }

  /**
   * On twinless root records every sweep removes exactly the records it dooms and leaves all
   * the others in their original relative order; the loop skips no record.
   */
  lemma SweepIsKept(cs: seq<Record>, keep: map<Kind, seq<string>>)
    requires forall k :: k in keep ==> Swept(k)
    requires Twinless(cs)
    ensures SweepFrom(cs, 0, keep) == Kept(cs, keep)
  {
    assert [] + cs == cs;
    SweepSplit([], cs, keep);
  }

  /** `__remove_root_child_element`: drops a root record by pointer; the caches are left as they were. */
  method RemoveRootChild(p: Parser, pointer: string)
    modifies p
    ensures p.root == old(p.root).(children := RemoveFirst(old(p.root.children), pointer))
    ensures p.elementList == old(p.elementList) && p.elementDictionary == old(p.elementDictionary)
  {
    p.root := p.root.(children := RemoveFirst(p.root.children, pointer));
  }

  /** One sweep of `split_gedcom`: the index loop that advances only past records it keeps. */
  method Sweep(p: Parser, keep: map<Kind, seq<string>>)
    modifies p
    ensures p.root == old(p.root).(children := SweepFrom(old(p.root.children), 0, keep))
    ensures p.elementList == old(p.elementList) && p.elementDictionary == old(p.elementDictionary)
  {
    var x := 0;
    while x < |p.root.children|
      invariant p.root == old(p.root).(children := p.root.children)
      invariant SweepFrom(p.root.children, x, keep) == SweepFrom(old(p.root.children), 0, keep)
      invariant p.elementList == old(p.elementList) && p.elementDictionary == old(p.elementDictionary)
      decreases |p.root.children|, |p.root.children| - x
    {
      var element := p.root.children[x];
      if element.kind in keep && element.pointer !in keep[element.kind] {
        RemoveRootChild(p, element.pointer);
      } else {
        x := x + 1;
      }
    }
  }

  // ---------------------------------------------------------------------------------------
  // Gathering sources, repositories and media from the records still in the tree
  // ---------------------------------------------------------------------------------------

  /** Appends, in order, the values of the records that are not listed yet. */
  function AddNewValues(ids: seq<string>, rs: seq<Record>): seq<string>
    decreases |rs|
  {
    if rs == [] then ids else AddNewValues(AddNew(ids, rs[0].value), rs[1..])
  }

  lemma {:induction false} AddNewValuesSpec(ids: seq<string>, rs: seq<Record>, v: string)
    ensures v in AddNewValues(ids, rs) <==> v in ids || exists r :: r in rs && r.value == v
    decreases |rs|
  {
    if rs != [] {
      AddNewValuesSpec(AddNew(ids, rs[0].value), rs[1..], v);
      assert rs == [rs[0]] + rs[1..];
    }
  }

  /** The innermost source loop: the value of every SOUR record among `gs`, when new. */
  function CiteGrandchildren(ids: seq<string>, gs: seq<Record>): seq<string>
    decreases |gs|
  {
    if gs == [] then ids
    else CiteGrandchildren(if GetTag(gs[0]) == SOUR then AddNew(ids, gs[0].value) else ids, gs[1..])
  }

  /** The middle source loop: the SOUR grandchildren reached through each child in `children`. */
  function CiteChildren(ids: seq<string>, children: seq<Record>): seq<string>
    decreases |children|
  {
    if children == [] then ids else CiteChildren(CiteGrandchildren(ids, children[0].children), children[1..])
  }

  /** The records whose citations keep a source: individuals and families. */
  predicate CitesSources(e: Record) {
    e.kind == Individual || e.kind == Family
  }

  /** The source gathering loop of `split_gedcom` over the root records `cs`. */
  function SourceIds(ids: seq<string>, cs: seq<Record>): seq<string>
    decreases |cs|
  {
    if cs == [] then ids
    else SourceIds(if CitesSources(cs[0]) then CiteChildren(ids, cs[0].children) else ids, cs[1..])
  }

  /** `v` is the value of a SOUR record exactly two levels inside `e`. */
  predicate CitedTwoDown(e: Record, v: string) {
    exists c, s :: c in e.children && s in c.children && GetTag(s) == SOUR && s.value == v
  }

  lemma {:induction false} CiteGrandchildrenSpec(ids: seq<string>, gs: seq<Record>, v: string)
    ensures v in CiteGrandchildren(ids, gs) <==> v in ids || exists s :: s in gs && GetTag(s) == SOUR && s.value == v
    decreases |gs|
  {
    if gs != [] {
      assert gs == [gs[0]] + gs[1..];
      CiteGrandchildrenSpec(if GetTag(gs[0]) == SOUR then AddNew(ids, gs[0].value) else ids, gs[1..], v);
    }
  }

  lemma {:induction false} CiteChildrenSpec(ids: seq<string>, children: seq<Record>, v: string)
    ensures v in CiteChildren(ids, children) <==>
              v in ids || exists c, s :: c in children && s in c.children && GetTag(s) == SOUR && s.value == v
    decreases |children|
  {
    if children != [] {
      var c := children[0];
      assert children == [c] + children[1..];
      CiteGrandchildrenSpec(ids, c.children, v);
      CiteChildrenSpec(CiteGrandchildren(ids, c.children), children[1..], v);
    }
  }

  /**
   * A source pointer is gathered exactly when it is the value of a SOUR record two levels inside
   * one of the individuals or families: SOUR links one or three levels down do not count.
   */
  lemma {:induction false} SourceIdsSpec(ids: seq<string>, cs: seq<Record>, v: string)
    ensures v in SourceIds(ids, cs) <==> v in ids || exists e :: e in cs && CitesSources(e) && CitedTwoDown(e, v)
    decreases |cs|
  {
    if cs != [] {
      var e := cs[0];
      assert cs == [e] + cs[1..];
      CiteChildrenSpec(ids, e.children, v);
      SourceIdsSpec(if CitesSources(e) then CiteChildren(ids, e.children) else ids, cs[1..], v);
    }
  }

  /** The repository gathering loop: the non-empty `get_repository()` of every source, when new. */
  function RepositoryIds(ids: seq<string>, cs: seq<Record>): seq<string>
    decreases |cs|
  {
    if cs == [] then ids
    else RepositoryIds(if cs[0].kind == Source && GetRepository(cs[0]) != "" then AddNew(ids, GetRepository(cs[0])) else ids, cs[1..])
  }

  /** A repository pointer is gathered exactly when it is the non-empty repository of a source. */
  lemma {:induction false} RepositoryIdsSpec(ids: seq<string>, cs: seq<Record>, v: string)
    ensures v in RepositoryIds(ids, cs) <==> v in ids || (v != "" && exists s :: s in cs && s.kind == Source && GetRepository(s) == v)
    decreases |cs|
  {
    if cs != [] {
      var s := cs[0];
      assert cs == [s] + cs[1..];
      RepositoryIdsSpec(if s.kind == Source && GetRepository(s) != "" then AddNew(ids, GetRepository(s)) else ids, cs[1..], v);
    }
  }

  /** The objects of every SOUR record among `gs`, when new. */
  function MediaOfCitations(ids: seq<string>, gs: seq<Record>): seq<string>
    decreases |gs|
  {
    if gs == [] then ids
    else MediaOfCitations(if GetTag(gs[0]) == SOUR then AddNewValues(ids, GetObjects(gs[0])) else ids, gs[1..])
  }

  /**
   * The media loop over the children of an individual: a direct OBJE child contributes its own
   * value, any other child the objects of the SOUR records among its children.
   */
  function MediaOfChildren(ids: seq<string>, children: seq<Record>): seq<string>
    decreases |children|
  {
    if children == [] then ids
    else
      var c := children[0];
      MediaOfChildren(if GetTag(c) == OBJE then AddNew(ids, c.value) else MediaOfCitations(ids, c.children), children[1..])
  }

  /** The media gathering loop: individuals contribute, families and every other record do not. */
  function MediaIds(ids: seq<string>, cs: seq<Record>): seq<string>
    decreases |cs|
  {
    if cs == [] then ids
    else MediaIds(if cs[0].kind == Individual then MediaOfChildren(ids, cs[0].children) else ids, cs[1..])
  }

  /** `v` is an OBJE child of a SOUR citation among `gs`. */
  predicate CitesMedia(gs: seq<Record>, v: string) {
    exists s, o :: s in gs && GetTag(s) == SOUR && o in GetObjects(s) && o.value == v
  }

  /** The media an individual's child points at: its own value for an OBJE child, its citations' objects otherwise. */
  predicate ChildReferencesMedia(c: Record, v: string) {
    if GetTag(c) == OBJE then c.value == v else CitesMedia(c.children, v)
  }

  lemma {:induction false} MediaOfCitationsSpec(ids: seq<string>, gs: seq<Record>, v: string)
    ensures v in MediaOfCitations(ids, gs) <==> v in ids || CitesMedia(gs, v)
    decreases |gs|
  {
    if gs != [] {
      var s := gs[0];
      assert gs == [s] + gs[1..];
      AddNewValuesSpec(ids, GetObjects(s), v);
      MediaOfCitationsSpec(if GetTag(s) == SOUR then AddNewValues(ids, GetObjects(s)) else ids, gs[1..], v);
    }
  }

  lemma {:induction false} MediaOfChildrenSpec(ids: seq<string>, children: seq<Record>, v: string)
    ensures v in MediaOfChildren(ids, children) <==> v in ids || exists c :: c in children && ChildReferencesMedia(c, v)
    decreases |children|
  {
    if children != [] {
      var c := children[0];
      assert children == [c] + children[1..];
      MediaOfCitationsSpec(ids, c.children, v);
      var next := if GetTag(c) == OBJE then AddNew(ids, c.value) else MediaOfCitations(ids, c.children);
      assert v in next <==> v in ids || ChildReferencesMedia(c, v);
      MediaOfChildrenSpec(if GetTag(c) == OBJE then AddNew(ids, c.value) else MediaOfCitations(ids, c.children), children[1..], v);
    }
  }

  /**
   * A media pointer is gathered exactly when a child of an individual references it, directly
   * as an OBJE child or through a SOUR citation two levels down.
   */
  lemma {:induction false} MediaIdsSpec(ids: seq<string>, cs: seq<Record>, v: string)
    ensures v in MediaIds(ids, cs) <==>
              v in ids || exists e, c :: e in cs && e.kind == Individual && c in e.children && ChildReferencesMedia(c, v)
    decreases |cs|
  {
    if cs != [] {
      var e := cs[0];
      assert cs == [e] + cs[1..];
      MediaOfChildrenSpec(ids, e.children, v);
      MediaIdsSpec(if e.kind == Individual then MediaOfChildren(ids, e.children) else ids, cs[1..], v);
    }
  }

  /** Appends, in order, the values of the records that are not listed yet. */
  method AppendNewValues(ids: seq<string>, rs: seq<Record>) returns (r: seq<string>)
    ensures r == AddNewValues(ids, rs)
  {
    r := ids;
    var j := 0;
    while j < |rs|
      invariant 0 <= j <= |rs|
      invariant AddNewValues(r, rs[j..]) == AddNewValues(ids, rs)
    {
      assert rs[j..][0] == rs[j] && rs[j..][1..] == rs[j + 1..];
      if rs[j].value !in r {
        r := r + [rs[j].value];
      }
      j := j + 1;
    }
  }

  /** The innermost source loop over the children of one child. */
  method AppendCitations(ids: seq<string>, gs: seq<Record>) returns (r: seq<string>)
    ensures r == CiteGrandchildren(ids, gs)
  {
    r := ids;
    var j := 0;
    while j < |gs|
      invariant 0 <= j <= |gs|
      invariant CiteGrandchildren(r, gs[j..]) == CiteGrandchildren(ids, gs)
    {
      assert gs[j..][0] == gs[j] && gs[j..][1..] == gs[j + 1..];
      if GetTag(gs[j]) == SOUR && gs[j].value !in r {
        r := r + [gs[j].value];
      }
      j := j + 1;
    }
  }

  /** The middle source loop over the children of one individual or family. */
  method AppendChildCitations(ids: seq<string>, children: seq<Record>) returns (r: seq<string>)
    ensures r == CiteChildren(ids, children)
  {
    r := ids;
    var j := 0;
    while j < |children|
      invariant 0 <= j <= |children|
      invariant CiteChildren(r, children[j..]) == CiteChildren(ids, children)
    {
      assert children[j..][0] == children[j] && children[j..][1..] == children[j + 1..];
      r := AppendCitations(r, children[j].children);
      j := j + 1;
    }
  }

  /** The source gathering loop of `split_gedcom`. */
  method GatherSources(cs: seq<Record>) returns (ids: seq<string>)
    ensures ids == SourceIds([], cs)
  {
    ids := [];
    var i := 0;
    while i < |cs|
      invariant 0 <= i <= |cs|
      invariant SourceIds(ids, cs[i..]) == SourceIds([], cs)
    {
      assert cs[i..][0] == cs[i] && cs[i..][1..] == cs[i + 1..];
      if cs[i].kind == Individual || cs[i].kind == Family {
        ids := AppendChildCitations(ids, cs[i].children);
      }
      i := i + 1;
    }
  }

  /** The repository gathering loop of `split_gedcom`. */
  method GatherRepositories(cs: seq<Record>) returns (ids: seq<string>)
    ensures ids == RepositoryIds([], cs)
  {
    ids := [];
    var i := 0;
    while i < |cs|
      invariant 0 <= i <= |cs|
      invariant RepositoryIds(ids, cs[i..]) == RepositoryIds([], cs)
    {
      assert cs[i..][0] == cs[i] && cs[i..][1..] == cs[i + 1..];
      if cs[i].kind == Source {
        var repository := GetRepository(cs[i]);
        if repository != "" && repository !in ids {
          ids := ids + [repository];
        }
      }
      i := i + 1;
    }
  }

  /** The objects of the SOUR citations among the children of one child. */
  method AppendCitedMedia(ids: seq<string>, gs: seq<Record>) returns (r: seq<string>)
    ensures r == MediaOfCitations(ids, gs)
  {
    r := ids;
    var j := 0;
    while j < |gs|
      invariant 0 <= j <= |gs|
      invariant MediaOfCitations(r, gs[j..]) == MediaOfCitations(ids, gs)
    {
      assert gs[j..][0] == gs[j] && gs[j..][1..] == gs[j + 1..];
      if GetTag(gs[j]) == SOUR {
        r := AppendNewValues(r, GetObjects(gs[j]));
      }
      j := j + 1;
    }
  }

  /** The media loop over the children of one individual. */
  method AppendChildMedia(ids: seq<string>, children: seq<Record>) returns (r: seq<string>)
    ensures r == MediaOfChildren(ids, children)
  {
    r := ids;
    var j := 0;
    while j < |children|
      invariant 0 <= j <= |children|
      invariant MediaOfChildren(r, children[j..]) == MediaOfChildren(ids, children)
    {
      var child := children[j];
      assert children[j..][0] == child && children[j..][1..] == children[j + 1..];
      if GetTag(child) == OBJE {
        if child.value !in r {
          r := r + [child.value];
        }
      } else {
        r := AppendCitedMedia(r, child.children);
      }
      j := j + 1;
    }
  }

  /** The media gathering loop of `split_gedcom`, appending each direct OBJE child's own value. */
  method GatherMedia(cs: seq<Record>) returns (ids: seq<string>)
    ensures ids == MediaIds([], cs)
  {
    ids := [];
    var i := 0;
    while i < |cs|
      invariant 0 <= i <= |cs|
      invariant MediaIds(ids, cs[i..]) == MediaIds([], cs)
    {
      assert cs[i..][0] == cs[i] && cs[i..][1..] == cs[i + 1..];
      if cs[i].kind == Individual {
        ids := AppendChildMedia(ids, cs[i].children);
      }
      i := i + 1;
    }
  }

  // ---------------------------------------------------------------------------------------
  // The media loop as written: a direct OBJE child appends the stale `childOfChild`
  // ---------------------------------------------------------------------------------------

  /**
   * What the media loop as written reads: the object pointers so far and the record last bound
   * to the loop variable `childOfChild`, which outlives the loops that bind it.
   */
  datatype Stale = Stale(ids: seq<string>, last: Option<Record>)

  /** The last grandchild `gs` binds, or the earlier binding when `gs` is empty. */
  function LastBound(last: Option<Record>, gs: seq<Record>): Option<Record> {
    if gs == [] then last else Some(gs[|gs| - 1])
  }

  /** The binding of `childOfChild` left by the loops over the children of `children`. */
  function LastOfChildren(last: Option<Record>, children: seq<Record>): Option<Record>
    decreases |children|
  {
    if children == [] then last else LastOfChildren(LastBound(last, children[0].children), children[1..])
  }

  /** The binding of `childOfChild` the source gathering loop leaves behind. */
  function LastGrandchild(last: Option<Record>, cs: seq<Record>): Option<Record>
    decreases |cs|
  {
    if cs == [] then last
    else LastGrandchild(if CitesSources(cs[0]) then LastOfChildren(last, cs[0].children) else last, cs[1..])
  }

  /** The citation loop as written: it also rebinds `childOfChild` to each grandchild. */
  function MediaOfCitationsAsWritten(st: Stale, gs: seq<Record>): Stale
    decreases |gs|
  {
    if gs == [] then st
    else
      var ids := if GetTag(gs[0]) == SOUR then AddNewValues(st.ids, GetObjects(gs[0])) else st.ids;
      MediaOfCitationsAsWritten(Stale(ids, Some(gs[0])), gs[1..])
  }

  /**
   * The loop over an individual's children as written: a direct OBJE child whose value is new
   * appends the value of the stale `childOfChild` instead, unchecked, and fails (`None`) when
   * no `childOfChild` was ever bound.
   */
  function MediaOfChildrenAsWritten(st: Stale, children: seq<Record>): Option<Stale>
    decreases |children|
  {
    if children == [] then Some(st)
    else
      var c := children[0];
      if GetTag(c) != OBJE then MediaOfChildrenAsWritten(MediaOfCitationsAsWritten(st, c.children), children[1..])
      else if c.value in st.ids then MediaOfChildrenAsWritten(st, children[1..])
      else match st.last
        case None => None
        case Some(g) => MediaOfChildrenAsWritten(st.(ids := st.ids + [g.value]), children[1..])
  }

  /** The media gathering loop as written. */
  function MediaIdsAsWritten(st: Stale, cs: seq<Record>): Option<Stale>
    decreases |cs|
  {
    if cs == [] then Some(st)
    else if cs[0].kind != Individual then MediaIdsAsWritten(st, cs[1..])
    else match MediaOfChildrenAsWritten(st, cs[0].children)
      case None => None
      case Some(st') => MediaIdsAsWritten(st', cs[1..])
  }

  /** An individual among `cs` with a direct OBJE child, the only place the two loops part. */
  predicate HasDirectMedia(cs: seq<Record>) {
    exists e, c :: e in cs && e.kind == Individual && c in e.children && GetTag(c) == OBJE
  }

  lemma {:induction false} CitationsAsWrittenAgree(st: Stale, gs: seq<Record>)
    ensures MediaOfCitationsAsWritten(st, gs).ids == MediaOfCitations(st.ids, gs)
    decreases |gs|
  {
    if gs != [] {
      var ids := if GetTag(gs[0]) == SOUR then AddNewValues(st.ids, GetObjects(gs[0])) else st.ids;
      CitationsAsWrittenAgree(Stale(ids, Some(gs[0])), gs[1..]);
    }
  }

  lemma {:induction false} ChildrenAsWrittenAgree(st: Stale, children: seq<Record>)
    requires forall c :: c in children ==> GetTag(c) != OBJE
    ensures MediaOfChildrenAsWritten(st, children).Some?
    ensures MediaOfChildrenAsWritten(st, children).value.ids == MediaOfChildren(st.ids, children)
    decreases |children|
  {
    if children != [] {
      var c := children[0];
      assert c in children;
      CitationsAsWrittenAgree(st, c.children);
      ChildrenAsWrittenAgree(MediaOfCitationsAsWritten(st, c.children), children[1..]);
    }
  }

  /** Without a direct OBJE child under an individual, the loop as written gathers what the corrected one does. */
  lemma {:induction false} MediaAsWrittenAgrees(st: Stale, cs: seq<Record>)
    requires !HasDirectMedia(cs)
    ensures MediaIdsAsWritten(st, cs).Some?
    ensures MediaIdsAsWritten(st, cs).value.ids == MediaIds(st.ids, cs)
    decreases |cs|
  {
    if cs != [] {
      var e := cs[0];
      assert e in cs;
      assert !HasDirectMedia(cs[1..]) by {
        forall x, c | x in cs[1..] && x.kind == Individual && c in x.children
          ensures GetTag(c) != OBJE
        {
          assert x in cs;
        }
      }
      if e.kind == Individual {
        ChildrenAsWrittenAgree(st, e.children);
        MediaAsWrittenAgrees(MediaOfChildrenAsWritten(st, e.children).value, cs[1..]);
      } else {
        MediaAsWrittenAgrees(st, cs[1..]);
      }
    }
  }

  /**
   * An individual whose BIRT event carries a DATE and who links a media object directly: the
   * loop as written records the date instead of the object's pointer, so the object is swept
   * away, while the corrected loop keeps it.
   */
  lemma MediaAsWrittenLosesObject()
    ensures var date := Record(Generic, 2, "", DATE, "1900", "\n", []);
            var birth := Record(Generic, 1, "", "BIRT", "", "\n", [date]);
            var link := Record(Object, 1, "", OBJE, "@M1@", "\n", []);
            var person := Record(Individual, 0, "@I1@", INDI, "", "\n", [birth, link]);
            var media := Record(Object, 0, "@M1@", OBJE, "", "\n", []);
            var st := Stale([], LastGrandchild(None, [person]));
            && MediaIdsAsWritten(st, [person]) == Some(Stale(["1900"], Some(date)))
            && SweepFrom([person, media], 0, map[Object := ["1900"]]) == [person]
            && MediaIds([], [person]) == ["@M1@"]
            && SweepFrom([person, media], 0, map[Object := ["@M1@"]]) == [person, media]
  {
    var date := Record(Generic, 2, "", DATE, "1900", "\n", []);
    var birth := Record(Generic, 1, "", "BIRT", "", "\n", [date]);
    var link := Record(Object, 1, "", OBJE, "@M1@", "\n", []);
    var person := Record(Individual, 0, "@I1@", INDI, "", "\n", [birth, link]);
    var media := Record(Object, 0, "@M1@", OBJE, "", "\n", []);
    assert [birth, link][1..] == [link] && [link][1..] == [] && [date][1..] == [];
    assert [person][1..] == [] && [person, media][1..] == [media] && [media][1..] == [];
    assert GetTag(birth) != OBJE && GetTag(date) != SOUR && GetTag(link) == OBJE by {
      assert "BIRT"[0] != OBJE[0] && DATE[0] != SOUR[0];
    }
    // The source loop leaves `childOfChild` bound to the DATE record.
    assert LastOfChildren(Some(date), [link]) == LastOfChildren(Some(date), []) == Some(date);
    assert LastOfChildren(None, [birth, link]) == LastOfChildren(LastBound(None, [date]), [link]);
    assert LastGrandchild(None, [person]) == Some(date);
    // The media loop passes over the DATE record, then meets the OBJE child.
    var st := Stale([], Some(date));
    assert MediaOfCitationsAsWritten(st, [date]) == MediaOfCitationsAsWritten(st, []) == st;
    assert st.ids + [date.value] == ["1900"];
    assert MediaOfChildrenAsWritten(st, [link]) == MediaOfChildrenAsWritten(Stale(["1900"], Some(date)), []);
    assert MediaOfChildrenAsWritten(st, [birth, link]) == Some(Stale(["1900"], Some(date)));
    assert MediaIdsAsWritten(st, [person]) == MediaIdsAsWritten(Stale(["1900"], Some(date)), []);
    // The corrected loop records the object's own pointer.
    assert MediaOfCitations([], [date]) == [];
    assert MediaOfChildren([], [birth, link]) == MediaOfChildren([], [link]) == MediaOfChildren(["@M1@"], []);
    assert MediaIds([], [person]) == MediaIds(["@M1@"], []);
    // The object sweep drops the object only under the date.
    assert Doomed(media, map[Object := ["1900"]]) && !Doomed(person, map[Object := ["1900"]]);
    assert !Doomed(media, map[Object := ["@M1@"]]) && !Doomed(person, map[Object := ["@M1@"]]);
    assert RemoveFirst([person, media], "@M1@") == [person] by {
      assert person.pointer != "@M1@" by { assert person.pointer[1] != "@M1@"[1]; }
      assert RemoveFirst([media], "@M1@") == [];
    }
    var dated := map[Object := ["1900"]];
    assert SweepFrom([person, media], 0, dated) == SweepFrom([person, media], 1, dated)
        == SweepFrom([person], 1, dated) == [person];
    var linked := map[Object := ["@M1@"]];
    assert SweepFrom([person, media], 0, linked) == SweepFrom([person, media], 1, linked)
        == SweepFrom([person, media], 2, linked) == [person, media];
  }

  // ---------------------------------------------------------------------------------------
  // split_gedcom
  // ---------------------------------------------------------------------------------------

  /** What `split_gedcom` returns without raising: nothing after pruning, or the refusal message. */
  datatype Outcome = Pruned | AncestorNotInTree

  /** The lists of record pointers after the first two phases, or the error that stopped them. */
  function Marked(d: map<string, Record>, rank: map<Record, nat>, anc: Record, inlaws: bool, cs: seq<Record>): Result<Marks, QueryError>
    requires Acyclic(d, rank) && InRank(rank, cs)
  {
    match Descendants(d, rank, anc, cs, Marks([], [], []))
    case Err(err) => Err(err)
    case Ok(m) => SpousesPhase(d, inlaws, cs, m)
  }

  /** The sweep of individuals and families. */
  function PeopleKeep(m: Marks): map<Kind, seq<string>> {
    map[Individual := m.individuals, Family := m.families]
  }

  /**
   * The root records left by `split_gedcom` for an ancestor in the tree: the four sweeps in
   * turn, each gathering from the records the previous sweep left.
   */
  function PrunedChildren(rank: map<Record, nat>, anc: Record, inlaws: bool, cs: seq<Record>): Result<seq<Record>, QueryError>
    requires Acyclic(Dictionary(cs), rank) && InRank(rank, cs)
  {
    match Marked(Dictionary(cs), rank, anc, inlaws, cs)
    case Err(err) => Err(err)
    case Ok(m) =>
      var people := SweepFrom(cs, 0, PeopleKeep(m));
      var sources := SweepFrom(people, 0, map[Source := SourceIds([], people)]);
      var repositories := SweepFrom(sources, 0, map[Repository := RepositoryIds([], sources)]);
      Ok(SweepFrom(repositories, 0, map[Object := MediaIds([], repositories)]))
  }

  /**
   * `split_gedcom`: refuses a non-individual ancestor, leaves the tree alone for an ancestor
   * whose pointer is not in the dictionary, and otherwise marks and sweeps in place. An error
   * raised while marking leaves the tree as it was. The dictionary cache is filled from the
   * tree as it was before the sweeps and is not refreshed by them.
   */
  method SplitGedcom(p: Parser, rank: map<Record, nat>, ancestor: Record, inlaws: bool) returns (r: Result<Outcome, QueryError>)
    requires p.CacheCoherent()
    requires Acyclic(Dictionary(p.root.children), rank) && InRank(rank, p.root.children)
    modifies p
    ensures p.elementList == old(p.elementList)
    ensures ancestor.kind != Individual ==>
              r == Err(NotAnActualIndividual) && p.root == old(p.root) && p.elementDictionary == old(p.elementDictionary)
    ensures ancestor.kind == Individual ==> p.elementDictionary == Dictionary(old(p.root.children))
    ensures ancestor.kind == Individual && ancestor.pointer !in Dictionary(old(p.root.children)) ==>
              r == Ok(AncestorNotInTree) && p.root == old(p.root)
    ensures ancestor.kind == Individual && ancestor.pointer in Dictionary(old(p.root.children)) ==>
              match PrunedChildren(rank, ancestor, inlaws, old(p.root.children))
              case Err(err) => r == Err(err) && p.root == old(p.root)
              case Ok(cs) => r == Ok(Pruned) && p.root == old(p.root).(children := cs)
  {
    if ancestor.kind != Individual {
      return Err(NotAnActualIndividual);
    }
    var d := p.GetElementDictionary();
    if ancestor.pointer !in d {
      return Ok(AncestorNotInTree);
    }
    var cs := p.root.children;
    var descendants := MarkDescendants(d, rank, ancestor, cs);
    if descendants.Err? {
      return Err(descendants.error);
    }
    var marked := MarkSpouses(d, inlaws, cs, descendants.value);
    if marked.Err? {
      return Err(marked.error);
    }
    var m := marked.value;
    Sweep(p, map[Individual := m.individuals, Family := m.families]);
    var sources := GatherSources(p.root.children);
    Sweep(p, map[Source := sources]);
    var repositories := GatherRepositories(p.root.children);
    Sweep(p, map[Repository := repositories]);
    var media := GatherMedia(p.root.children);
    Sweep(p, map[Object := media]);
    return Ok(Pruned);
  }

  /** `p` is a husband or wife, other than the descendant, in a FAMS family of a descendant. */
  predicate SpouseOfDescendant(d: map<string, Record>, rank: map<Record, nat>, anc: Record, cs: seq<Record>, p: string)
    requires Acyclic(d, rank) && InRank(rank, cs)
  {
    exists e, f :: e in cs && Descends(d, rank, anc, e) && f in FamiliesOf(d, e, FAMS) && SpouseVia(d, e.pointer, f, p)
  }

  /** A root individual the second phase visits: one whose pointer the first phase listed as a spouse. */
  predicate VisitedSpouse(d: map<string, Record>, rank: map<Record, nat>, anc: Record, cs: seq<Record>, e: Record)
    requires Acyclic(d, rank) && InRank(rank, cs)
  {
    e.kind == Individual && SpouseOfDescendant(d, rank, anc, cs, e.pointer)
  }

  lemma FirstPhaseSpouses(d: map<string, Record>, rank: map<Record, nat>, anc: Record, cs: seq<Record>)
    requires Acyclic(d, rank) && InRank(rank, cs)
    requires Descendants(d, rank, anc, cs, Marks([], [], [])).Ok?
    ensures forall e :: MarkedSpouse(Descendants(d, rank, anc, cs, Marks([], [], [])).value, e) <==> VisitedSpouse(d, rank, anc, cs, e)
  {
    forall e: Record {
      DescendantsSpec(d, rank, anc, cs, Marks([], [], []), e.pointer);
    }
  }

  /**
   * The first two phases raise exactly when a root individual's search or FAMS link raises, or,
   * with in-laws, a visited spouse has a FAMC link naming a non-family. Otherwise the surviving
   * individuals are the descendants, the spouses in their FAMS families and, with in-laws, those
   * spouses' parents; the surviving families are the descendants' FAMS families and the
   * spouses' FAMC families, the latter even without in-laws.
   */
  lemma MarkedSpec(d: map<string, Record>, rank: map<Record, nat>, anc: Record, inlaws: bool, cs: seq<Record>, p: string)
    requires Acyclic(d, rank) && InRank(rank, cs)
    ensures Marked(d, rank, anc, inlaws, cs).Err? <==>
              (exists e :: e in cs && DescendantRaises(d, rank, anc, e))
              || (inlaws && exists e :: e in cs && VisitedSpouse(d, rank, anc, cs, e)
                                         && FamiliesOf(d, e, FAMC) != [] && !AllFamilies(FamiliesOf(d, e, FAMC)))
    ensures Marked(d, rank, anc, inlaws, cs).Ok? ==>
              var m := Marked(d, rank, anc, inlaws, cs).value;
              (p in m.individuals <==>
                 (exists e :: e in cs && Descends(d, rank, anc, e) && e.pointer == p)
                 || exists e :: e in cs && VisitedSpouse(d, rank, anc, cs, e) && (p == e.pointer || (inlaws && InLaw(d, e, p))))
              && (p in m.families <==>
                    (exists e, f :: e in cs && Descends(d, rank, anc, e) && f in FamiliesOf(d, e, FAMS) && f.pointer == p)
                    || exists e, f :: e in cs && VisitedSpouse(d, rank, anc, cs, e) && f in FamiliesOf(d, e, FAMC) && f.pointer == p)
  {
    MarkedRaises(d, rank, anc, inlaws, cs);
    MarkedIndividuals(d, rank, anc, inlaws, cs, p);
    MarkedFamilies(d, rank, anc, inlaws, cs, p);
  }

  /** The marking raises exactly when a descendant's queries do or, with in-laws, a visited spouse's. */
  lemma MarkedRaises(d: map<string, Record>, rank: map<Record, nat>, anc: Record, inlaws: bool, cs: seq<Record>)
    requires Acyclic(d, rank) && InRank(rank, cs)
    ensures Marked(d, rank, anc, inlaws, cs).Err? <==>
              (exists e :: e in cs && DescendantRaises(d, rank, anc, e))
              || (inlaws && exists e :: e in cs && VisitedSpouse(d, rank, anc, cs, e)
                                         && FamiliesOf(d, e, FAMC) != [] && !AllFamilies(FamiliesOf(d, e, FAMC)))
  {
    var first := Descendants(d, rank, anc, cs, Marks([], [], []));
    DescendantsSpec(d, rank, anc, cs, Marks([], [], []), "");
    if first.Ok? {
      SecondPhaseSpec(d, rank, anc, inlaws, cs, "");
    }
  }

  /** The marked individuals: descendants, visited spouses and, with in-laws, those spouses' parents. */
  lemma MarkedIndividuals(d: map<string, Record>, rank: map<Record, nat>, anc: Record, inlaws: bool, cs: seq<Record>, p: string)
    requires Acyclic(d, rank) && InRank(rank, cs)
    ensures Marked(d, rank, anc, inlaws, cs).Ok? ==>
              (p in Marked(d, rank, anc, inlaws, cs).value.individuals <==>
                 (exists e :: e in cs && Descends(d, rank, anc, e) && e.pointer == p)
                 || exists e :: e in cs && VisitedSpouse(d, rank, anc, cs, e) && (p == e.pointer || (inlaws && InLaw(d, e, p))))
  {
    var first := Descendants(d, rank, anc, cs, Marks([], [], []));
    DescendantsSpec(d, rank, anc, cs, Marks([], [], []), p);
    if first.Ok? {
      SecondPhaseSpec(d, rank, anc, inlaws, cs, p);
    }
  }

  /** The marked families: the descendants' FAMS families and the visited spouses' FAMC families. */
  lemma MarkedFamilies(d: map<string, Record>, rank: map<Record, nat>, anc: Record, inlaws: bool, cs: seq<Record>, p: string)
    requires Acyclic(d, rank) && InRank(rank, cs)
    ensures Marked(d, rank, anc, inlaws, cs).Ok? ==>
              (p in Marked(d, rank, anc, inlaws, cs).value.families <==>
                 (exists e, f :: e in cs && Descends(d, rank, anc, e) && f in FamiliesOf(d, e, FAMS) && f.pointer == p)
                 || exists e, f :: e in cs && VisitedSpouse(d, rank, anc, cs, e) && f in FamiliesOf(d, e, FAMC) && f.pointer == p)
  {
    var first := Descendants(d, rank, anc, cs, Marks([], [], []));
    DescendantsSpec(d, rank, anc, cs, Marks([], [], []), p);
    if first.Ok? {
      SecondPhaseSpec(d, rank, anc, inlaws, cs, p);
    }
  }

  lemma SecondPhaseSpec(d: map<string, Record>, rank: map<Record, nat>, anc: Record, inlaws: bool, cs: seq<Record>, p: string)
    requires Acyclic(d, rank) && InRank(rank, cs)
    requires Descendants(d, rank, anc, cs, Marks([], [], [])).Ok?
    ensures var m1 := Descendants(d, rank, anc, cs, Marks([], [], [])).value;
            && (SpousesPhase(d, inlaws, cs, m1).Err? <==>
                  inlaws && exists e :: e in cs && VisitedSpouse(d, rank, anc, cs, e)
                                         && FamiliesOf(d, e, FAMC) != [] && !AllFamilies(FamiliesOf(d, e, FAMC)))
            && (SpousesPhase(d, inlaws, cs, m1).Ok? ==>
                  var m := SpousesPhase(d, inlaws, cs, m1).value;
                  (p in m.individuals <==>
                     p in m1.individuals || exists e :: e in cs && VisitedSpouse(d, rank, anc, cs, e) && (p == e.pointer || (inlaws && InLaw(d, e, p))))
                  && (p in m.families <==>
                        p in m1.families || exists e, f :: e in cs && VisitedSpouse(d, rank, anc, cs, e) && f in FamiliesOf(d, e, FAMC) && f.pointer == p))
  {
    var m1 := Descendants(d, rank, anc, cs, Marks([], [], [])).value;
    FirstPhaseSpouses(d, rank, anc, cs);
    SpousesSpec(d, inlaws, cs, m1, p);
  }


  /** The records the individual and family sweep should leave. */
  function PeopleLeft(cs: seq<Record>, m: Marks): seq<Record> {
    Kept(cs, PeopleKeep(m))
  }

  /** The records the source sweep should leave, gathering from `people`. */
  function SourcesLeft(people: seq<Record>): seq<Record> {
    Kept(people, map[Source := SourceIds([], people)])
  }

  /** The records the repository sweep should leave, gathering from `sources`. */
  function RepositoriesLeft(sources: seq<Record>): seq<Record> {
    Kept(sources, map[Repository := RepositoryIds([], sources)])
  }

  /** The records the media sweep should leave, gathering from `repositories`. */
  function MediaLeft(repositories: seq<Record>): seq<Record> {
    Kept(repositories, map[Object := MediaIds([], repositories)])
  }

  /** The records the four sweeps keep when none of them is shadowed by a twin. */
  lemma PrunedIsKept(rank: map<Record, nat>, anc: Record, inlaws: bool, cs: seq<Record>)
    requires Acyclic(Dictionary(cs), rank) && InRank(rank, cs) && Twinless(cs)
    requires PrunedChildren(rank, anc, inlaws, cs).Ok?
    ensures PrunedChildren(rank, anc, inlaws, cs).value
            == MediaLeft(RepositoriesLeft(SourcesLeft(PeopleLeft(cs, Marked(Dictionary(cs), rank, anc, inlaws, cs).value))))
  {
    var m := Marked(Dictionary(cs), rank, anc, inlaws, cs).value;
    SweepIsKept(cs, PeopleKeep(m));
    var people := Kept(cs, PeopleKeep(m));
    KeptTwinless(cs, PeopleKeep(m));
    SweepIsKept(people, map[Source := SourceIds([], people)]);
    var sources := Kept(people, map[Source := SourceIds([], people)]);
    KeptTwinless(people, map[Source := SourceIds([], people)]);
    SweepIsKept(sources, map[Repository := RepositoryIds([], sources)]);
    var repositories := Kept(sources, map[Repository := RepositoryIds([], sources)]);
    KeptTwinless(sources, map[Repository := RepositoryIds([], sources)]);
    SweepIsKept(repositories, map[Object := MediaIds([], repositories)]);
  }

  lemma KeptSources(people: seq<Record>, x: Record)
    ensures x in SourcesLeft(people) <==>
              x in people && (x.kind == Source ==> exists e :: e in people && CitesSources(e) && CitedTwoDown(e, x.pointer))
  {
    SourceIdsSpec([], people, x.pointer);
  }

  lemma KeptRepositories(sources: seq<Record>, x: Record)
    ensures x in RepositoriesLeft(sources) <==>
              x in sources
              && (x.kind == Repository ==> x.pointer != "" && exists s :: s in sources && s.kind == Source && GetRepository(s) == x.pointer)
  {
    RepositoryIdsSpec([], sources, x.pointer);
  }

  lemma KeptMedia(repositories: seq<Record>, x: Record)
    ensures x in MediaLeft(repositories) <==>
              x in repositories
              && (x.kind == Object ==>
                    exists e, c :: e in repositories && e.kind == Individual && c in e.children && ChildReferencesMedia(c, x.pointer))
  {
    MediaIdsSpec([], repositories, x.pointer);
  }

  /** Membership in what the four sweeps leave, kind by kind. */
  lemma SweptMembership(cs: seq<Record>, m: Marks, x: Record)
    ensures var people := PeopleLeft(cs, m);
            var sources := SourcesLeft(people);
            var repositories := RepositoriesLeft(sources);
            x in MediaLeft(repositories) <==>
              x in cs
              && (x.kind == Individual ==> x.pointer in m.individuals)
              && (x.kind == Family ==> x.pointer in m.families)
              && (x.kind == Source ==> exists e :: e in people && CitesSources(e) && CitedTwoDown(e, x.pointer))
              && (x.kind == Repository ==>
                    x.pointer != "" && exists s :: s in sources && s.kind == Source && GetRepository(s) == x.pointer)
              && (x.kind == Object ==>
                    exists e, c :: e in repositories && e.kind == Individual && c in e.children && ChildReferencesMedia(c, x.pointer))
  {
    var people := PeopleLeft(cs, m);
    var sources := SourcesLeft(people);
    KeptSources(people, x);
    KeptRepositories(sources, x);
    KeptMedia(RepositoriesLeft(sources), x);
  }

  /**
   * On twinless root records the tool keeps exactly: every record of a kind it does not sweep;
   * the individuals and families the first two phases listed; the sources cited two levels
   * inside a surviving individual or family; the repositories of the surviving sources; and the
   * media referenced by the surviving individuals. Each sweep is a filter, so the survivors keep
   * their original relative order.
   */
  lemma PrunedSurvivors(rank: map<Record, nat>, anc: Record, inlaws: bool, cs: seq<Record>, x: Record)
    requires Acyclic(Dictionary(cs), rank) && InRank(rank, cs) && Twinless(cs)
    requires PrunedChildren(rank, anc, inlaws, cs).Ok?
    ensures var m := Marked(Dictionary(cs), rank, anc, inlaws, cs).value;
            var people := PeopleLeft(cs, m);
            var sources := SourcesLeft(people);
            var repositories := RepositoriesLeft(sources);
            x in PrunedChildren(rank, anc, inlaws, cs).value <==>
              x in cs
              && (x.kind == Individual ==> x.pointer in m.individuals)
              && (x.kind == Family ==> x.pointer in m.families)
              && (x.kind == Source ==> exists e :: e in people && CitesSources(e) && CitedTwoDown(e, x.pointer))
              && (x.kind == Repository ==>
                    x.pointer != "" && exists s :: s in sources && s.kind == Source && GetRepository(s) == x.pointer)
              && (x.kind == Object ==>
                    exists e, c :: e in repositories && e.kind == Individual && c in e.children && ChildReferencesMedia(c, x.pointer))
  {
    PrunedIsKept(rank, anc, inlaws, cs);
    SweptMembership(cs, Marked(Dictionary(cs), rank, anc, inlaws, cs).value, x);
  }

  /** Every root individual with a line of parent links up to the ancestor survives the split. */
  lemma DescendantSurvives(rank: map<Record, nat>, anc: Record, inlaws: bool, cs: seq<Record>, e: Record)
    requires Acyclic(Dictionary(cs), rank) && InRank(rank, cs) && Twinless(cs)
    requires PrunedChildren(rank, anc, inlaws, cs).Ok?
    requires e in cs && Descends(Dictionary(cs), rank, anc, e)
    ensures e in PrunedChildren(rank, anc, inlaws, cs).value
  {
    MarkedSpec(Dictionary(cs), rank, anc, inlaws, cs, e.pointer);
    PrunedSurvivors(rank, anc, inlaws, cs, e);
  }

  /** The root individual carrying the ancestor's own pointer is its own descendant, so it survives. */
  lemma AncestorSurvives(rank: map<Record, nat>, anc: Record, inlaws: bool, cs: seq<Record>, e: Record)
    requires Acyclic(Dictionary(cs), rank) && InRank(rank, cs) && Twinless(cs)
    requires PrunedChildren(rank, anc, inlaws, cs).Ok?
    requires e in cs && e.kind == Individual && e.pointer == anc.pointer
    ensures e in PrunedChildren(rank, anc, inlaws, cs).value
  {
    assert Last([e]) == e;
    assert FindPathToAncestor(Dictionary(cs), rank, e, anc, ALL_PARENTS) == Ok(Some([e]));
    DescendantSurvives(rank, anc, inlaws, cs, e);
  }

  // ---------------------------------------------------------------------------------------
  // build_criteria
  // ---------------------------------------------------------------------------------------

  /**
   * `build_criteria`: appends `field=value` to the colon-separated criteria when the value is
   * not empty, with a colon in front exactly when the criteria were not empty.
   */
  function BuildCriteria(criteria: string, field: string, value: string): string {
    if value == "" then criteria
    else (if criteria != "" then criteria + ":" else criteria) + field + "=" + value
  }

  /** Neither `field` nor `value` contains a colon. */
  predicate ColonFree(field: string, value: string) {
    (forall j :: 0 <= j < |field| ==> field[j] != ':') && (forall j :: 0 <= j < |value| ==> value[j] != ':')
  }

  /**
   * Building criteria appends exactly one `field=value` item to what splitting on colons gives:
   * an empty value adds nothing, empty criteria become that single item, and otherwise the
   * items of the criteria are kept and the new one follows them.
   */
  lemma BuildCriteriaItems(criteria: string, field: string, value: string)
    requires ColonFree(field, value)
    ensures value == "" ==> BuildCriteria(criteria, field, value) == criteria
    ensures value != "" && criteria == "" ==> SplitOn(BuildCriteria(criteria, field, value), ':') == [field + "=" + value]
    ensures value != "" && criteria != "" ==>
              SplitOn(BuildCriteria(criteria, field, value), ':') == SplitOn(criteria, ':') + [field + "=" + value]
  {
    var item := field + "=" + value;
    assert forall j :: 0 <= j < |item| ==> item[j] != ':' by {
      forall j | 0 <= j < |item|
        ensures item[j] != ':'
      {
        if j < |field| {
          assert item[j] == field[j];
        } else if j > |field| {
          assert item[j] == value[j - |field| - 1];
        }
      }
    }
    if value != "" {
      if criteria == "" {
        assert BuildCriteria(criteria, field, value) == item;
        assert IndexOf(item, ':', 0) == |item|;
      } else {
        assert BuildCriteria(criteria, field, value) == criteria + [':'] + item;
        SplitOnSnoc(criteria, item, ':');
      }
    }
  }
}
