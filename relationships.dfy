/**
 * The reader's relationship queries over the pointer dictionary: the families an individual
 * belongs to, the members of a family, parents (all or natural only), children, spouses,
 * ancestors, marriage and divorce data, marriage years, and the search for individuals that
 * match criteria. Every query takes the dictionary of top-level records by pointer as `d` and
 * only reads it.
 */
module Relationships {
  import opened Wrappers
  import opened Text
  import opened Records
  import opened Individuals

  const ALL := "ALL"
  const PARENTS := "PARENTS"
  const NAT := "NAT"
  const MREL := "_MREL"
  const FREL := "_FREL"
  const DIV := "DIV"
  const Natural := "Natural"

  /** The exceptions the queries raise. */
  datatype QueryError =
    | NotAnActualIndividual
    | NotAnActualFamily
      /** `IndexError` from taking the last word of a blank marriage date. */
    | BlankDate

  /**
   * The dictionary entries named by the links' values, in link order; a value that is not a
   * key is skipped.
   */
  function Resolve(d: map<string, Record>, links: seq<Record>): (r: seq<Record>)
    ensures |r| <= |links|
  {
    if links == [] then []
    else (if links[0].value in d then [d[links[0].value]] else []) + Resolve(d, links[1..])
  }

  /** A record is resolved exactly when some link's value is a key whose entry is that record. */
  lemma {:induction false} ResolveMembers(d: map<string, Record>, links: seq<Record>, x: Record)
    ensures x in Resolve(d, links) <==> exists i :: 0 <= i < |links| && links[i].value in d && d[links[i].value] == x
  {
    if links != [] {
      ResolveMembers(d, links[1..], x);
      if exists i :: 0 <= i < |links| && links[i].value in d && d[links[i].value] == x {
        var i :| 0 <= i < |links| && links[i].value in d && d[links[i].value] == x;
        if i > 0 {
          assert links[1..][i - 1] == links[i];
        }
      }
      if x in Resolve(d, links[1..]) {
        var i :| 0 <= i < |links[1..]| && links[1..][i].value in d && d[links[1..][i].value] == x;
        assert links[i + 1] == links[1..][i];
      }
    }
  }

  lemma {:induction false} ResolveAppend(d: map<string, Record>, a: seq<Record>, b: seq<Record>)
    ensures Resolve(d, a + b) == Resolve(d, a) + Resolve(d, b)
  {
    if a == [] {
      assert a + b == b;
    } else {
      var h := if a[0].value in d then [d[a[0].value]] else [];
      calc {
        Resolve(d, a + b);
        { assert (a + b)[0] == a[0]; assert (a + b)[1..] == a[1..] + b; }
        h + Resolve(d, a[1..] + b);
        { ResolveAppend(d, a[1..], b); }
        h + (Resolve(d, a[1..]) + Resolve(d, b));
        (h + Resolve(d, a[1..])) + Resolve(d, b);
      }
    }
  }

  /** The dictionary entries of the children with one of the tags, in child order. */
  function ResolveTagged(d: map<string, Record>, cs: seq<Record>, tags: set<string>): seq<Record> {
    Resolve(d, ChildrenWithTagIn(cs, tags))
  }

  /**
   * A record is resolved from the children with one of the tags exactly when one of those
   * children names it.
   */
  lemma ResolveTaggedMembers(d: map<string, Record>, cs: seq<Record>, tags: set<string>, x: Record)
    ensures x in ResolveTagged(d, cs, tags)
            <==> exists j :: 0 <= j < |cs| && GetTag(cs[j]) in tags && cs[j].value in d && d[cs[j].value] == x
  {
    var links := ChildrenWithTagIn(cs, tags);
    ResolveMembers(d, links, x);
    if x in Resolve(d, links) {
      var i :| 0 <= i < |links| && links[i].value in d && d[links[i].value] == x;
      assert links[i] in links;
      var j :| 0 <= j < |cs| && cs[j] == links[i];
    }
    if exists j :: 0 <= j < |cs| && GetTag(cs[j]) in tags && cs[j].value in d && d[cs[j].value] == x {
      var j :| 0 <= j < |cs| && GetTag(cs[j]) in tags && cs[j].value in d && d[cs[j].value] == x;
      assert cs[j] in links;
      var i :| 0 <= i < |links| && links[i] == cs[j];
    }
  }

  /** Resolving by tags looks at the first child, then at the rest. */
  lemma ResolveTaggedCons(d: map<string, Record>, cs: seq<Record>, tags: set<string>)
    requires cs != []
    ensures ResolveTagged(d, cs, tags)
            == (if GetTag(cs[0]) in tags && cs[0].value in d then [d[cs[0].value]] else []) + ResolveTagged(d, cs[1..], tags)
  {
    var h := if GetTag(cs[0]) in tags then [cs[0]] else [];
    ResolveAppend(d, h, ChildrenWithTagIn(cs[1..], tags));
    if h != [] {
      assert h[1..] == [];
    }
  }

  /** Splitting the heads and the rests of two concatenations splits the concatenations. */
  lemma MultisetOfConcatSplits(hu: seq<Record>, ru: seq<Record>, hs: seq<Record>, rs: seq<Record>, ht: seq<Record>, rt: seq<Record>)
    requires multiset(hu) == multiset(hs) + multiset(ht)
    requires multiset(ru) == multiset(rs) + multiset(rt)
    ensures multiset(hu + ru) == multiset(hs + rs) + multiset(ht + rt)
  {
  }

  /** Resolving by two disjoint tag sets splits resolving by their union, counting duplicates. */
  lemma {:induction false} ResolveTaggedUnion(d: map<string, Record>, cs: seq<Record>, s: set<string>, t: set<string>)
    requires s !! t
    ensures multiset(ResolveTagged(d, cs, s + t))
            == multiset(ResolveTagged(d, cs, s)) + multiset(ResolveTagged(d, cs, t))
  {
    if cs != [] {
      var c := cs[0];
      ResolveTaggedCons(d, cs, s + t);
      ResolveTaggedCons(d, cs, s);
      ResolveTaggedCons(d, cs, t);
      ResolveTaggedUnion(d, cs[1..], s, t);
      var hu := if GetTag(c) in s + t && c.value in d then [d[c.value]] else [];
      var hs := if GetTag(c) in s && c.value in d then [d[c.value]] else [];
      var ht := if GetTag(c) in t && c.value in d then [d[c.value]] else [];
      assert multiset(hu) == multiset(hs) + multiset(ht);
      MultisetOfConcatSplits(hu, ResolveTagged(d, cs[1..], s + t), hs, ResolveTagged(d, cs[1..], s),
                             ht, ResolveTagged(d, cs[1..], t));
    }
  }

  /** The families a link tag names, whatever kind of record asks. */
  function FamiliesOf(d: map<string, Record>, ind: Record, familyType: string): seq<Record> {
    ResolveTagged(d, ind.children, {familyType})
  }

  /**
   * `get_families`: the dictionary entries named by the individual's links with the given tag
   * (FAMS or FAMC), in child order, values that are not keys skipped.
   */
  function GetFamilies(d: map<string, Record>, ind: Record, familyType: string): (r: Result<seq<Record>, QueryError>)
    ensures r.Err? <==> ind.kind != Individual
    ensures r.Ok? ==> |r.value| <= |ind.children|
  {
    if ind.kind != Individual then Err(NotAnActualIndividual) else Ok(FamiliesOf(d, ind, familyType))
  }

  /** A family is returned exactly when one of the individual's links of that tag names it. */
  lemma GetFamiliesSpec(d: map<string, Record>, ind: Record, familyType: string, f: Record)
    requires ind.kind == Individual
    ensures f in GetFamilies(d, ind, familyType).value
            <==> exists j :: 0 <= j < |ind.children| && GetTag(ind.children[j]) == familyType
                             && ind.children[j].value in d && d[ind.children[j].value] == f
  {
    ResolveTaggedMembers(d, ind.children, {familyType}, f);
  }

  /**
   * The link tags a member type selects: PARENTS is HUSB and WIFE, HUSB, WIFE and CHIL select
   * themselves, and ALL or any other type selects all three.
   */
  function MemberTags(membersType: string): set<string> {
    if membersType == PARENTS then {HUSB, WIFE}
    else if membersType == HUSB then {HUSB}
    else if membersType == WIFE then {WIFE}
    else if membersType == CHIL then {CHIL}
    else {HUSB, WIFE, CHIL}
  }

  /** The members of a family of the given type, whatever kind of record the family is. */
  function Members(d: map<string, Record>, family: Record, membersType: string): seq<Record> {
    ResolveTagged(d, family.children, MemberTags(membersType))
  }

  /** `get_family_members`: the members of the type, in child order; only a family may ask. */
  function GetFamilyMembers(d: map<string, Record>, family: Record, membersType: string): (r: Result<seq<Record>, QueryError>)
    ensures r.Err? <==> family.kind != Family
    ensures r.Ok? ==> |r.value| <= |family.children|
  {
    if family.kind != Family then Err(NotAnActualFamily) else Ok(Members(d, family, membersType))
  }

  /** A member is returned exactly when a link with one of the type's tags names it. */
  lemma GetFamilyMembersSpec(d: map<string, Record>, family: Record, membersType: string, x: Record)
    requires family.kind == Family
    ensures x in GetFamilyMembers(d, family, membersType).value
            <==> exists j :: 0 <= j < |family.children| && GetTag(family.children[j]) in MemberTags(membersType)
                             && family.children[j].value in d && d[family.children[j].value] == x
  {
    ResolveTaggedMembers(d, family.children, MemberTags(membersType), x);
  }

  /** The parents are the husbands together with the wives. */
  lemma ParentsAreHusbandsAndWives(d: map<string, Record>, family: Record)
    ensures multiset(Members(d, family, PARENTS))
            == multiset(Members(d, family, HUSB)) + multiset(Members(d, family, WIFE))
  {
    assert MemberTags(PARENTS) == {HUSB} + {WIFE};
    ResolveTaggedUnion(d, family.children, {HUSB}, {WIFE});
  }

  /** ALL, and any type the query does not recognise, is the parents together with the children. */
  lemma OtherTypesAreAll(d: map<string, Record>, family: Record, membersType: string)
    requires membersType !in {PARENTS, HUSB, WIFE, CHIL}
    ensures multiset(Members(d, family, membersType))
            == multiset(Members(d, family, PARENTS)) + multiset(Members(d, family, CHIL))
  {
    assert MemberTags(membersType) == {HUSB, WIFE} + {CHIL};
    ResolveTaggedUnion(d, family.children, {HUSB, WIFE}, {CHIL});
  }

  /** The members of several families, family by family. */
  function MembersIn(d: map<string, Record>, families: seq<Record>, membersType: string): seq<Record> {
    if families == [] then []
    else Members(d, families[0], membersType) + MembersIn(d, families[1..], membersType)
  }

  /** Whether every one of the records is a family. */
  predicate AllFamilies(families: seq<Record>) {
    forall i :: 0 <= i < |families| ==> families[i].kind == Family
  }

  /** `get_family_members` over several families, in order; the first non-family raises. */
  function FamilyMembersIn(d: map<string, Record>, families: seq<Record>, membersType: string): (r: Result<seq<Record>, QueryError>)
    ensures r.Err? <==> !AllFamilies(families)
    ensures r.Ok? ==> r.value == MembersIn(d, families, membersType)
  {
    if families == [] then Ok([])
    else match GetFamilyMembers(d, families[0], membersType)
      case Err(e) => Err(e)
      case Ok(here) =>
        match FamilyMembersIn(d, families[1..], membersType)
        case Err(e) =>
          assert !AllFamilies(families) by {
            var i :| 0 <= i < |families[1..]| && families[1..][i].kind != Family;
            assert families[i + 1] == families[1..][i];
          }
          Err(e)
        case Ok(rest) =>
          assert AllFamilies(families) by {
            forall i | 0 <= i < |families|
              ensures families[i].kind == Family
            {
              if i > 0 {
                assert families[i] == families[1..][i - 1];
              }
            }
          }
          Ok(here + rest)
  }

  /** A record is among the members of several families exactly when it is a member of one of them. */
  lemma {:induction false} MembersInSpec(d: map<string, Record>, families: seq<Record>, membersType: string, x: Record)
    ensures x in MembersIn(d, families, membersType)
            <==> exists i :: 0 <= i < |families| && x in Members(d, families[i], membersType)
  {
    if families != [] {
      MembersInSpec(d, families[1..], membersType, x);
      if exists i :: 0 <= i < |families| && x in Members(d, families[i], membersType) {
        var i :| 0 <= i < |families| && x in Members(d, families[i], membersType);
        if i > 0 {
          assert families[1..][i - 1] == families[i];
        }
      }
      if x in MembersIn(d, families[1..], membersType) {
        var i :| 0 <= i < |families[1..]| && x in Members(d, families[1..][i], membersType);
        assert families[i + 1] == families[1..][i];
      }
    }
  }

  /**
   * The member types the `_MREL` and `_FREL` sub-records marked `Natural` ask for, in order:
   * the wife for `_MREL`, the husband for `_FREL`.
   */
  function NaturalRoles(rels: seq<Record>): seq<string> {
    if rels == [] then []
    else
      var c := rels[0];
      (if c.value == Natural && GetTag(c) == MREL then [WIFE]
       else if c.value == Natural && GetTag(c) == FREL then [HUSB]
       else []) + NaturalRoles(rels[1..])
  }

  /** Only the wife and the husband are ever asked for. */
  lemma {:induction false} NaturalRolesAreParents(rels: seq<Record>)
    ensures forall k :: 0 <= k < |NaturalRoles(rels)| ==> NaturalRoles(rels)[k] in {WIFE, HUSB}
  {
    if rels != [] {
      NaturalRolesAreParents(rels[1..]);
    }
  }

  /** The wife is asked for exactly when some `_MREL` sub-record says `Natural`. */
  lemma {:induction false} NaturalMotherIff(rels: seq<Record>)
    ensures WIFE in NaturalRoles(rels) <==> exists j :: 0 <= j < |rels| && GetTag(rels[j]) == MREL && rels[j].value == Natural
  {
    if rels != [] {
      NaturalMotherIff(rels[1..]);
      if exists j :: 0 <= j < |rels| && GetTag(rels[j]) == MREL && rels[j].value == Natural {
        var j :| 0 <= j < |rels| && GetTag(rels[j]) == MREL && rels[j].value == Natural;
        if j > 0 {
          assert rels[1..][j - 1] == rels[j];
        }
      }
      if WIFE in NaturalRoles(rels[1..]) {
        var j :| 0 <= j < |rels[1..]| && GetTag(rels[1..][j]) == MREL && rels[1..][j].value == Natural;
        assert rels[j + 1] == rels[1..][j];
      }
    }
  }

  /** The roles asked for by the family's CHIL links whose value is the individual's pointer. */
  function ChildRoles(cs: seq<Record>, pointer: string): seq<string> {
    if cs == [] then []
    else (if GetTag(cs[0]) == CHIL && cs[0].value == pointer then NaturalRoles(cs[0].children) else [])
         + ChildRoles(cs[1..], pointer)
  }

  lemma {:induction false} ChildRolesAreParents(cs: seq<Record>, pointer: string)
    ensures forall k :: 0 <= k < |ChildRoles(cs, pointer)| ==> ChildRoles(cs, pointer)[k] in {WIFE, HUSB}
  {
    if cs != [] {
      ChildRolesAreParents(cs[1..], pointer);
      if GetTag(cs[0]) == CHIL && cs[0].value == pointer {
        NaturalRolesAreParents(cs[0].children);
      }
    }
  }

  /** The members a list of roles asks for, role by role. */
  function MembersForRoles(d: map<string, Record>, family: Record, roles: seq<string>): seq<Record> {
    if roles == [] then []
    else Members(d, family, roles[0]) + MembersForRoles(d, family, roles[1..])
  }

  /** Asking for wives and husbands only ever finds parents. */
  lemma {:induction false} MembersForRolesAreParents(d: map<string, Record>, family: Record, roles: seq<string>, x: Record)
    requires forall k :: 0 <= k < |roles| ==> roles[k] in {WIFE, HUSB}
    requires x in MembersForRoles(d, family, roles)
    ensures x in Members(d, family, PARENTS)
  {
    ParentsAreHusbandsAndWives(d, family);
    var m := Members(d, family, roles[0]);
    if x !in m {
      MembersForRolesAreParents(d, family, roles[1..], x);
    } else {
      assert x in multiset(m);
      assert roles[0] == WIFE || roles[0] == HUSB;
      assert x in multiset(Members(d, family, PARENTS));
    }
  }

  /**
   * The natural parents one family gives: for every CHIL link to the individual, the wife
   * for each `_MREL Natural` and the husband for each `_FREL Natural`. Asking a record that is
   * not a family raises, but only when something is asked.
   */
  function NaturalParents(d: map<string, Record>, ind: Record, family: Record): Result<seq<Record>, QueryError> {
    var roles := ChildRoles(family.children, ind.pointer);
    if roles == [] then Ok([])
    else if family.kind != Family then Err(NotAnActualFamily)
    else Ok(MembersForRoles(d, family, roles))
  }

  /** The natural parents over several families, in order; the first failing family raises. */
  function NaturalParentsIn(d: map<string, Record>, ind: Record, families: seq<Record>): Result<seq<Record>, QueryError> {
    if families == [] then Ok([])
    else match NaturalParents(d, ind, families[0])
      case Err(e) => Err(e)
      case Ok(here) =>
        match NaturalParentsIn(d, ind, families[1..])
        case Err(e) => Err(e)
        case Ok(rest) => Ok(here + rest)
  }

  /**
   * `get_parents`: with `NAT`, the natural parents of the FAMC families; with any other type,
   * the husbands and wives of the FAMC families.
   */
  function GetParents(d: map<string, Record>, ind: Record, parentType: string): (r: Result<seq<Record>, QueryError>)
    ensures ind.kind != Individual ==> r == Err(NotAnActualIndividual)
  {
    match GetFamilies(d, ind, FAMC)
    case Err(e) => Err(e)
    case Ok(families) =>
      if parentType == NAT then NaturalParentsIn(d, ind, families) else FamilyMembersIn(d, families, PARENTS)
  }

  /** Every husband and wife of every family the record is a child of, whatever it is. */
  function ParentCandidates(d: map<string, Record>, x: Record): seq<Record> {
    MembersIn(d, FamiliesOf(d, x, FAMC), PARENTS)
  }

  /**
   * Any type other than `NAT` succeeds exactly when the individual is one and every FAMC
   * family is a family, and then gives all the husbands and wives of those families.
   */
  lemma GetParentsAll(d: map<string, Record>, ind: Record, parentType: string)
    requires parentType != NAT
    ensures GetParents(d, ind, parentType).Ok? <==> ind.kind == Individual && AllFamilies(FamiliesOf(d, ind, FAMC))
    ensures GetParents(d, ind, parentType).Ok? ==> GetParents(d, ind, parentType).value == ParentCandidates(d, ind)
  {
  }

  lemma {:induction false} NaturalParentsInAreParents(d: map<string, Record>, ind: Record, families: seq<Record>, x: Record)
    requires NaturalParentsIn(d, ind, families).Ok? && x in NaturalParentsIn(d, ind, families).value
    ensures x in MembersIn(d, families, PARENTS)
  {
    var f := families[0];
    var here := NaturalParents(d, ind, f).value;
    MembersInSpec(d, families, PARENTS, x);
    if x in here {
      ChildRolesAreParents(f.children, ind.pointer);
      MembersForRolesAreParents(d, f, ChildRoles(f.children, ind.pointer), x);
      assert x in Members(d, families[0], PARENTS);
    } else {
      NaturalParentsInAreParents(d, ind, families[1..], x);
      MembersInSpec(d, families[1..], PARENTS, x);
      var i :| 0 <= i < |families[1..]| && x in Members(d, families[1..][i], PARENTS);
      assert families[i + 1] == families[1..][i];
    }
  }

  /** Every natural parent is also a parent. */
  lemma NaturalParentsAreParents(d: map<string, Record>, ind: Record, x: Record)
    requires GetParents(d, ind, NAT).Ok? && x in GetParents(d, ind, NAT).value
    ensures x in ParentCandidates(d, ind)
  {
    NaturalParentsInAreParents(d, ind, FamiliesOf(d, ind, FAMC), x);
  }

  /** Every parent any parent type returns is a parent candidate. */
  lemma ParentsAreCandidates(d: map<string, Record>, ind: Record, parentType: string, x: Record)
    requires GetParents(d, ind, parentType).Ok? && x in GetParents(d, ind, parentType).value
    ensures x in ParentCandidates(d, ind)
  {
    if parentType == NAT {
      NaturalParentsAreParents(d, ind, x);
    }
  }

  /** `get_family`: the members of the type of every family the individual is a spouse in. */
  function GetFamily(d: map<string, Record>, ind: Record, membersType: string): (r: Result<seq<Record>, QueryError>)
    ensures r.Err? <==> ind.kind != Individual || !AllFamilies(FamiliesOf(d, ind, FAMS))
    ensures r.Ok? ==> r.value == MembersIn(d, FamiliesOf(d, ind, FAMS), membersType)
  {
    match GetFamilies(d, ind, FAMS)
    case Err(e) => Err(e)
    case Ok(families) => FamilyMembersIn(d, families, membersType)
  }

  /** `get_children`: the CHIL members of the individual's FAMS families. */
  function GetChildren(d: map<string, Record>, ind: Record): Result<seq<Record>, QueryError> {
    GetFamily(d, ind, CHIL)
  }

  /** The records whose pointer is not the given one, in order. */
  function OthersThan(rs: seq<Record>, pointer: string): (r: seq<Record>)
    ensures |r| <= |rs|
    ensures forall x :: x in r <==> x in rs && x.pointer != pointer
  {
    if rs == [] then []
    else (if rs[0].pointer != pointer then [rs[0]] else []) + OthersThan(rs[1..], pointer)
  }

  /** `get_spouses`: the parents of the individual's FAMS families other than the individual. */
  function GetSpouses(d: map<string, Record>, ind: Record): Result<seq<Record>, QueryError> {
    match GetFamily(d, ind, PARENTS)
    case Err(e) => Err(e)
    case Ok(ps) => Ok(OthersThan(ps, ind.pointer))
  }

  /**
   * A spouse is exactly a husband or wife of one of the individual's FAMS families whose
   * pointer is not the individual's own.
   */
  lemma GetSpousesSpec(d: map<string, Record>, ind: Record, x: Record)
    requires GetSpouses(d, ind).Ok?
    ensures x in GetSpouses(d, ind).value
            <==> x.pointer != ind.pointer
                 && exists i :: 0 <= i < |FamiliesOf(d, ind, FAMS)| && x in Members(d, FamiliesOf(d, ind, FAMS)[i], PARENTS)
  {
    MembersInSpec(d, FamiliesOf(d, ind, FAMS), PARENTS, x);
  }

  /**
   * No individual is its own ancestor: `rank` numbers the records so that every parent
   * candidate of a numbered record is numbered lower.
   */
  predicate Acyclic(d: map<string, Record>, rank: map<Record, nat>) {
    forall y, p :: y in rank && p in ParentCandidates(d, y) ==> p in rank && rank[p] < rank[y]
  }

  /**
   * The ancestors search with the parent type of the first step and the parent type of every
   * later step given separately: the parents of type `first`, followed by the ancestors of
   * each parent in turn, searched with `rest` throughout.
   */
  function AncestorsVia(d: map<string, Record>, rank: map<Record, nat>, ind: Record, first: string, rest: string): (r: Result<seq<Record>, QueryError>)
    requires Acyclic(d, rank) && ind in rank
    ensures r.Ok? ==> GetParents(d, ind, first).Ok?
                      && GetParents(d, ind, first).value <= r.value
    ensures r.Ok? ==> forall a :: a in r.value ==> a in rank && rank[a] < rank[ind]
    decreases rank[ind], 1
  {
    if ind.kind != Individual then Err(NotAnActualIndividual)
    else match GetParents(d, ind, first)
      case Err(e) => Err(e)
      case Ok(parents) =>
        ParentsRanked(d, rank, ind, first);
        match AncestorsOfEach(d, rank, rank[ind], rest, parents)
        case Err(e) => Err(e)
        case Ok(more) => Ok(parents + more)
  }

  /** The ancestors of each of the records in turn, searched with type `t`, all ranked below `bound`. */
  function AncestorsOfEach(d: map<string, Record>, rank: map<Record, nat>, bound: nat, t: string, ps: seq<Record>): (r: Result<seq<Record>, QueryError>)
    requires Acyclic(d, rank)
    requires forall p :: p in ps ==> p in rank && rank[p] < bound
    ensures r.Ok? ==> forall a :: a in r.value ==> a in rank && rank[a] < bound
    decreases bound, 0, |ps|
  {
    if ps == [] then Ok([])
    else match AncestorsVia(d, rank, ps[0], t, t)
      case Err(e) => Err(e)
      case Ok(here) =>
        match AncestorsOfEach(d, rank, bound, t, ps[1..])
        case Err(e) => Err(e)
        case Ok(rest) => Ok(here + rest)
  }

  /**
   * `get_ancestors` as written: the parents of the requested type, followed by the ancestors
   * of each parent, which the recursive call looks up with the default type `ALL`.
   */
  function GetAncestors(d: map<string, Record>, rank: map<Record, nat>, ind: Record, ancestorType: string): (r: Result<seq<Record>, QueryError>)
    requires Acyclic(d, rank) && ind in rank
    ensures r.Ok? ==> GetParents(d, ind, ancestorType).Ok?
                      && GetParents(d, ind, ancestorType).value <= r.value
    ensures r.Ok? ==> forall a :: a in r.value ==> a in rank && rank[a] < rank[ind]
  {
    AncestorsVia(d, rank, ind, ancestorType, ALL)
  }

  /**
   * `get_ancestors` as its documentation describes it: every step, not only the first, follows
   * parents of the requested type, so `NAT` gives natural ancestors only.
   */
  function GetAncestorsOfType(d: map<string, Record>, rank: map<Record, nat>, ind: Record, ancestorType: string): (r: Result<seq<Record>, QueryError>)
    requires Acyclic(d, rank) && ind in rank
    ensures r.Ok? ==> forall a :: a in r.value ==> a in rank && rank[a] < rank[ind]
  {
    AncestorsVia(d, rank, ind, ancestorType, ancestorType)
  }

  /**
   * `a` is reached from `x` by one or more parent links: the first of type `first`, every
   * later one of type `rest`.
   */
  predicate IsAncestorVia(d: map<string, Record>, rank: map<Record, nat>, first: string, rest: string, x: Record, a: Record)
    requires Acyclic(d, rank) && x in rank
    decreases rank[x]
  {
    GetParents(d, x, first).Ok?
    && exists p :: p in GetParents(d, x, first).value && p in rank && rank[p] < rank[x]
                   && (p == a || IsAncestorVia(d, rank, rest, rest, p, a))
  }

  /** When the search succeeds, it lists exactly the records reached by one or more parent links. */
  lemma {:induction false} AncestorsViaSpec(d: map<string, Record>, rank: map<Record, nat>, ind: Record, first: string, rest: string, a: Record)
    requires Acyclic(d, rank) && ind in rank && AncestorsVia(d, rank, ind, first, rest).Ok?
    ensures a in AncestorsVia(d, rank, ind, first, rest).value <==> IsAncestorVia(d, rank, first, rest, ind, a)
    decreases rank[ind], 1
  {
    var parents := GetParents(d, ind, first).value;
    ParentsRanked(d, rank, ind, first);
    AncestorsOfEachSpec(d, rank, rank[ind], rest, parents, a);
  }

  lemma {:induction false} AncestorsOfEachSpec(d: map<string, Record>, rank: map<Record, nat>, bound: nat, t: string, ps: seq<Record>, a: Record)
    requires Acyclic(d, rank)
    requires forall p :: p in ps ==> p in rank && rank[p] < bound
    requires AncestorsOfEach(d, rank, bound, t, ps).Ok?
    ensures a in AncestorsOfEach(d, rank, bound, t, ps).value
            <==> exists p :: p in ps && p in rank && IsAncestorVia(d, rank, t, t, p, a)
    decreases bound, 0, |ps|
  {
    if ps != [] {
      AncestorsViaSpec(d, rank, ps[0], t, t, a);
      AncestorsOfEachSpec(d, rank, bound, t, ps[1..], a);
      if exists p :: p in ps && p in rank && IsAncestorVia(d, rank, t, t, p, a) {
        var p :| p in ps && p in rank && IsAncestorVia(d, rank, t, t, p, a);
        if p != ps[0] {
          assert p in ps[1..];
        }
      }
    }
  }

  /**
   * As written, the ancestors are exactly the records reached by a first parent link of the
   * requested type followed by any number of parent links of any type.
   */
  lemma GetAncestorsSpec(d: map<string, Record>, rank: map<Record, nat>, ind: Record, ancestorType: string, a: Record)
    requires Acyclic(d, rank) && ind in rank && GetAncestors(d, rank, ind, ancestorType).Ok?
    ensures a in GetAncestors(d, rank, ind, ancestorType).value <==> IsAncestorVia(d, rank, ancestorType, ALL, ind, a)
  {
    AncestorsViaSpec(d, rank, ind, ancestorType, ALL, a);
  }

  /** Corrected, the ancestors are exactly the records reached by parent links of the requested type only. */
  lemma GetAncestorsOfTypeSpec(d: map<string, Record>, rank: map<Record, nat>, ind: Record, ancestorType: string, a: Record)
    requires Acyclic(d, rank) && ind in rank && GetAncestorsOfType(d, rank, ind, ancestorType).Ok?
    ensures a in GetAncestorsOfType(d, rank, ind, ancestorType).value <==> IsAncestorVia(d, rank, ancestorType, ancestorType, ind, a)
  {
    AncestorsViaSpec(d, rank, ind, ancestorType, ancestorType, a);
  }

  /**
   * As written, `NAT` returns every parent of a natural parent, whatever the link: a
   * grandparent `g` by adoption only (not a natural parent of `p`) is returned all the same.
   */
  lemma NaturalAncestorsAsWrittenAdoptive(d: map<string, Record>, rank: map<Record, nat>, ind: Record, p: Record, g: Record)
    requires Acyclic(d, rank) && ind in rank && GetAncestors(d, rank, ind, NAT).Ok?
    requires GetParents(d, ind, NAT).Ok? && p in GetParents(d, ind, NAT).value
    requires GetParents(d, p, ALL).Ok? && g in GetParents(d, p, ALL).value
    requires GetParents(d, p, NAT).Ok? && g !in GetParents(d, p, NAT).value
    ensures g in GetAncestors(d, rank, ind, NAT).value
  {
    ParentsRanked(d, rank, ind, NAT);
    ParentsRanked(d, rank, p, ALL);
    assert IsAncestorVia(d, rank, ALL, ALL, p, g);
    GetAncestorsSpec(d, rank, ind, NAT, g);
  }

  /** The parents of a ranked record are ranked below it. */
  lemma ParentsRanked(d: map<string, Record>, rank: map<Record, nat>, ind: Record, parentType: string)
    requires Acyclic(d, rank) && ind in rank && GetParents(d, ind, parentType).Ok?
    ensures forall p :: p in GetParents(d, ind, parentType).value ==> p in rank && rank[p] < rank[ind]
  {
    forall p | p in GetParents(d, ind, parentType).value
      ensures p in rank && rank[p] < rank[ind]
    {
      ParentsAreCandidates(d, ind, parentType, p);
      CandidateRanked(d, rank, ind, p);
    }
  }

  /** The ranking puts every parent candidate below the record. */
  lemma CandidateRanked(d: map<string, Record>, rank: map<Record, nat>, ind: Record, p: Record)
    requires Acyclic(d, rank) && ind in rank && p in ParentCandidates(d, ind)
    ensures p in rank && rank[p] < rank[ind]
  {
  }

  /** Nobody is among their own ancestors. */
  lemma NotOwnAncestor(d: map<string, Record>, rank: map<Record, nat>, ind: Record, ancestorType: string)
    requires Acyclic(d, rank) && ind in rank && GetAncestors(d, rank, ind, ancestorType).Ok?
    ensures ind !in GetAncestors(d, rank, ind, ancestorType).value
  {
  }

  /** The spouse, date, place and sources of one marriage or divorce. */
  datatype Relationship = Relationship(spouse: string, date: string, place: string, sources: seq<Record>)

  /** The data of one event under the given spouse: its last DATE, its last PLAC, all its SOUR. */
  function EventData(spouse: string, e: Record): Relationship {
    Relationship(spouse, LastValueByTag(e.children, DATE), LastValueByTag(e.children, PLAC), ChildrenByTag(e.children, SOUR))
  }

  /**
   * The scan over one family's children: a HUSB or WIFE link with a value other than the
   * individual's pointer becomes the current spouse; an event of the relationship type is
   * reported with that spouse, unless `preferredOnly` is set and the spouse was reported
   * already (`current`).
   */
  function ScanFamily(cs: seq<Record>, self: string, preferredOnly: bool, relType: string, spouse: string, current: string): seq<Relationship> {
    if cs == [] then []
    else
      var c := cs[0];
      var t := GetTag(c);
      if t == HUSB || t == WIFE then
        ScanFamily(cs[1..], self, preferredOnly, relType, if c.value != self then c.value else spouse, current)
      else if t == relType && (!preferredOnly || current != spouse) then
        [EventData(spouse, c)] + ScanFamily(cs[1..], self, preferredOnly, relType, spouse, spouse)
      else
        ScanFamily(cs[1..], self, preferredOnly, relType, spouse, current)
  }

  /** One family's relationships, or a single empty one when the family has no event reported. */
  function FamilyRelationships(family: Record, self: string, preferredOnly: bool, relType: string): (r: seq<Relationship>)
    ensures |r| >= 1
  {
    var found := ScanFamily(family.children, self, preferredOnly, relType, "", "");
    if found == [] then [Relationship("", "", "", [])] else found
  }

  function RelationshipsIn(families: seq<Record>, self: string, preferredOnly: bool, relType: string): (r: seq<Relationship>)
    ensures |r| >= |families|
  {
    if families == [] then []
    else FamilyRelationships(families[0], self, preferredOnly, relType) + RelationshipsIn(families[1..], self, preferredOnly, relType)
  }

  /**
   * `get_relationship_data`: the relationships (marriages for MARR, divorces for DIV) of
   * every family the individual is a spouse in, at least one per family.
   */
  function GetRelationshipData(d: map<string, Record>, ind: Record, preferredOnly: bool, relType: string): (r: Result<seq<Relationship>, QueryError>)
    ensures r.Err? <==> ind.kind != Individual
    ensures r.Ok? ==> |r.value| >= |FamiliesOf(d, ind, FAMS)|
  {
    if ind.kind != Individual then Err(NotAnActualIndividual)
    else Ok(RelationshipsIn(FamiliesOf(d, ind, FAMS), ind.pointer, preferredOnly, relType))
  }

  /** Without `preferredOnly` every event of the type is reported, one entry each. */
  lemma {:induction false} ScanFamilyCount(cs: seq<Record>, self: string, relType: string, spouse: string, current: string)
    requires relType != HUSB && relType != WIFE
    ensures |ScanFamily(cs, self, false, relType, spouse, current)| == |ChildrenByTag(cs, relType)|
  {
    if cs != [] {
      var c := cs[0];
      var next := if GetTag(c) == HUSB || GetTag(c) == WIFE then (if c.value != self then c.value else spouse) else spouse;
      var cur := if GetTag(c) == relType then spouse else current;
      ScanFamilyCount(cs[1..], self, relType, next, cur);
    }
  }

  /** `preferredOnly` only ever drops entries. */
  lemma {:induction false} ScanFamilyPreferred(cs: seq<Record>, self: string, relType: string, spouse: string, current: string, current': string)
    requires relType != HUSB && relType != WIFE
    ensures |ScanFamily(cs, self, true, relType, spouse, current)| <= |ScanFamily(cs, self, false, relType, spouse, current')|
  {
    if cs != [] {
      var c := cs[0];
      var t := GetTag(c);
      if t == HUSB || t == WIFE {
        ScanFamilyPreferred(cs[1..], self, relType, if c.value != self then c.value else spouse, current, current');
      } else if t == relType {
        ScanFamilyPreferred(cs[1..], self, relType, spouse, if current != spouse then spouse else current, spouse);
      } else {
        ScanFamilyPreferred(cs[1..], self, relType, spouse, current, current');
      }
    }
  }

  /**
   * Every reported spouse is the starting one or the value of a HUSB or WIFE link of the
   * family other than the individual's own pointer.
   */
  lemma {:induction false} ScanFamilySpouses(cs: seq<Record>, self: string, preferredOnly: bool, relType: string, spouse: string, current: string, k: nat)
    requires k < |ScanFamily(cs, self, preferredOnly, relType, spouse, current)|
    ensures var s := ScanFamily(cs, self, preferredOnly, relType, spouse, current)[k].spouse;
            s == spouse || exists j :: 0 <= j < |cs| && GetTag(cs[j]) in {HUSB, WIFE} && cs[j].value == s && s != self
  {
    var c := cs[0];
    var t := GetTag(c);
    var s := ScanFamily(cs, self, preferredOnly, relType, spouse, current)[k].spouse;
    if t == HUSB || t == WIFE {
      var next := if c.value != self then c.value else spouse;
      ScanFamilySpouses(cs[1..], self, preferredOnly, relType, next, current, k);
      if s != spouse && s != next {
        var j :| 0 <= j < |cs[1..]| && GetTag(cs[1..][j]) in {HUSB, WIFE} && cs[1..][j].value == s && s != self;
        assert cs[j + 1] == cs[1..][j];
      }
    } else if t == relType && (!preferredOnly || current != spouse) {
      if k > 0 {
        ScanFamilySpouses(cs[1..], self, preferredOnly, relType, spouse, spouse, k - 1);
        if s != spouse {
          var j :| 0 <= j < |cs[1..]| && GetTag(cs[1..][j]) in {HUSB, WIFE} && cs[1..][j].value == s && s != self;
          assert cs[j + 1] == cs[1..][j];
        }
      }
    } else {
      ScanFamilySpouses(cs[1..], self, preferredOnly, relType, spouse, current, k);
      if s != spouse {
        var j :| 0 <= j < |cs[1..]| && GetTag(cs[1..][j]) in {HUSB, WIFE} && cs[1..][j].value == s && s != self;
        assert cs[j + 1] == cs[1..][j];
      }
    }
  }

  /**
   * Without `preferredOnly`, the k-th entry holds the data of the k-th event of the type: the
   * last DATE value, the last PLAC value and all SOUR children of that event.
   */
  lemma {:induction false} ScanFamilyEvents(cs: seq<Record>, self: string, relType: string, spouse: string, current: string, k: nat)
    requires relType != HUSB && relType != WIFE
    requires k < |ChildrenByTag(cs, relType)|
    ensures k < |ScanFamily(cs, self, false, relType, spouse, current)|
    ensures var r := ScanFamily(cs, self, false, relType, spouse, current)[k];
            var e := ChildrenByTag(cs, relType)[k];
            r.date == LastValueByTag(e.children, DATE) && r.place == LastValueByTag(e.children, PLAC)
            && r.sources == ChildrenByTag(e.children, SOUR)
  {
    ScanFamilyCount(cs, self, relType, spouse, current);
    var c := cs[0];
    var t := GetTag(c);
    assert ChildrenByTag(cs, relType) == (if t == relType then [c] else []) + ChildrenByTag(cs[1..], relType);
    if t == HUSB || t == WIFE {
      ScanFamilyEvents(cs[1..], self, relType, if c.value != self then c.value else spouse, current, k);
    } else if t == relType {
      if k > 0 {
        ScanFamilyEvents(cs[1..], self, relType, spouse, spouse, k - 1);
      }
    } else {
      ScanFamilyEvents(cs[1..], self, relType, spouse, current, k);
    }
  }

  /**
   * With or without `preferredOnly`, every entry is the data of some event of the type under
   * the entry's spouse.
   */
  lemma {:induction false} ScanFamilyFromEvents(cs: seq<Record>, self: string, preferredOnly: bool, relType: string, spouse: string, current: string, k: nat)
    requires k < |ScanFamily(cs, self, preferredOnly, relType, spouse, current)|
    ensures var r := ScanFamily(cs, self, preferredOnly, relType, spouse, current)[k];
            exists j :: 0 <= j < |cs| && GetTag(cs[j]) == relType && r == EventData(r.spouse, cs[j])
  {
    var c := cs[0];
    var t := GetTag(c);
    var r := ScanFamily(cs, self, preferredOnly, relType, spouse, current)[k];
    var next := if t == HUSB || t == WIFE then (if c.value != self then c.value else spouse) else spouse;
    var cur := if t == HUSB || t == WIFE then current
               else if t == relType && (!preferredOnly || current != spouse) then spouse
               else current;
    if t != HUSB && t != WIFE && t == relType && (!preferredOnly || current != spouse) && k == 0 {
      assert r == EventData(spouse, c);
    } else {
      var k' := if t != HUSB && t != WIFE && t == relType && (!preferredOnly || current != spouse) then k - 1 else k;
      assert r == ScanFamily(cs[1..], self, preferredOnly, relType, next, cur)[k'];
      ScanFamilyFromEvents(cs[1..], self, preferredOnly, relType, next, cur, k');
      var j :| 0 <= j < |cs[1..]| && GetTag(cs[1..][j]) == relType && r == EventData(r.spouse, cs[1..][j]);
      assert cs[j + 1] == cs[1..][j];
    }
  }

  /** Children without an event of the type report nothing. */
  lemma {:induction false} ScanFamilyNoEvents(cs: seq<Record>, self: string, preferredOnly: bool, relType: string, spouse: string, current: string)
    requires ChildrenByTag(cs, relType) == []
    ensures ScanFamily(cs, self, preferredOnly, relType, spouse, current) == []
  {
    if cs != [] {
      var c := cs[0];
      assert ChildrenByTag(cs, relType) == (if GetTag(c) == relType then [c] else []) + ChildrenByTag(cs[1..], relType);
      var next := if GetTag(c) == HUSB || GetTag(c) == WIFE then (if c.value != self then c.value else spouse) else spouse;
      ScanFamilyNoEvents(cs[1..], self, preferredOnly, relType, next, current);
    }
  }

  /**
   * A family without an event of the type reports the single empty entry; without
   * `preferredOnly`, a family with events reports exactly one entry per event, each with that
   * event's date, place and sources.
   */
  lemma FamilyRelationshipsSpec(family: Record, self: string, preferredOnly: bool, relType: string)
    requires relType != HUSB && relType != WIFE
    ensures var r := FamilyRelationships(family, self, preferredOnly, relType);
            var events := ChildrenByTag(family.children, relType);
            (events == [] ==> r == [Relationship("", "", "", [])])
            && (events != [] && !preferredOnly ==>
                  |r| == |events|
                  && forall k :: 0 <= k < |r| ==>
                       r[k].date == LastValueByTag(events[k].children, DATE)
                       && r[k].place == LastValueByTag(events[k].children, PLAC)
                       && r[k].sources == ChildrenByTag(events[k].children, SOUR))
  {
    var cs := family.children;
    var found := ScanFamily(cs, self, preferredOnly, relType, "", "");
    var events := ChildrenByTag(cs, relType);
    if events == [] {
      ScanFamilyNoEvents(cs, self, preferredOnly, relType, "", "");
    }
    if events != [] && !preferredOnly {
      ScanFamilyCount(cs, self, relType, "", "");
      forall k | 0 <= k < |events|
        ensures found[k].date == LastValueByTag(events[k].children, DATE)
                && found[k].place == LastValueByTag(events[k].children, PLAC)
                && found[k].sources == ChildrenByTag(events[k].children, SOUR)
      {
        ScanFamilyEvents(cs, self, relType, "", "", k);
      }
    }
  }

  /** A HUSB or WIFE link naming someone other than the individual. */
  predicate PartnerLink(c: Record, self: string) {
    (GetTag(c) == HUSB || GetTag(c) == WIFE) && c.value != self
  }

  /** The value of the last partner link among the children, `spouse` when there is none. */
  function LastPartnerOr(cs: seq<Record>, self: string, spouse: string): string {
    if cs == [] then spouse
    else LastPartnerOr(cs[1..], self, if PartnerLink(cs[0], self) then cs[0].value else spouse)
  }

  /** One more child replaces the partner exactly when it is a partner link. */
  lemma {:induction false} LastPartnerSnoc(cs: seq<Record>, c: Record, self: string, spouse: string)
    ensures LastPartnerOr(cs + [c], self, spouse) == if PartnerLink(c, self) then c.value else LastPartnerOr(cs, self, spouse)
  {
    if cs == [] {
      assert [c][1..] == [];
    } else {
      assert (cs + [c])[0] == cs[0] && (cs + [c])[1..] == cs[1..] + [c];
      LastPartnerSnoc(cs[1..], c, self, if PartnerLink(cs[0], self) then cs[0].value else spouse);
    }
  }

  /** The spouse of the last entry reported, `current` when nothing was reported. */
  function PreviousSpouse(r: seq<Relationship>, current: string): string {
    if r == [] then current else r[|r| - 1].spouse
  }

  /**
   * Scanning one more child: an event of the type is reported with the last partner link
   * before it as spouse; with `preferredOnly` only when that spouse differs from the spouse of
   * the last entry reported. Every other child adds nothing.
   */
  lemma {:induction false} ScanFamilySnoc(cs: seq<Record>, c: Record, self: string, preferredOnly: bool, relType: string, spouse: string, current: string)
    requires relType != HUSB && relType != WIFE
    ensures var before := ScanFamily(cs, self, preferredOnly, relType, spouse, current);
            var partner := LastPartnerOr(cs, self, spouse);
            ScanFamily(cs + [c], self, preferredOnly, relType, spouse, current)
            == before + (if GetTag(c) == relType && (!preferredOnly || PreviousSpouse(before, current) != partner)
                         then [EventData(partner, c)] else [])
  {
    if cs == [] {
      assert [c][1..] == [];
      assert cs + [c] == [c];
    } else {
      var x := cs[0];
      var t := GetTag(x);
      assert (cs + [c])[0] == x && (cs + [c])[1..] == cs[1..] + [c];
      var reported := t != HUSB && t != WIFE && t == relType && (!preferredOnly || current != spouse);
      var spouse' := if PartnerLink(x, self) then x.value else spouse;
      var current' := if reported then spouse else current;
      var h := if reported then [EventData(spouse, x)] else [];
      assert ScanFamily(cs, self, preferredOnly, relType, spouse, current) == h + ScanFamily(cs[1..], self, preferredOnly, relType, spouse', current');
      assert ScanFamily(cs + [c], self, preferredOnly, relType, spouse, current)
             == h + ScanFamily(cs[1..] + [c], self, preferredOnly, relType, spouse', current');
      ScanFamilySnoc(cs[1..], c, self, preferredOnly, relType, spouse', current');
      var rest := ScanFamily(cs[1..], self, preferredOnly, relType, spouse', current');
      assert PreviousSpouse(h + rest, current) == PreviousSpouse(rest, current') by {
        if rest != [] {
          assert (h + rest)[|h + rest| - 1] == rest[|rest| - 1];
        }
      }
    }
  }

  /** The DATE values under the MARR children of one family's children, in order. */
  function MarriageDatesOf(cs: seq<Record>): seq<string> {
    if cs == [] then []
    else (if GetTag(cs[0]) == MARR then ValuesOf(ChildrenByTag(cs[0].children, DATE)) else [])
         + MarriageDatesOf(cs[1..])
  }

  /** The marriage dates of several families, family by family. */
  function MarriageDates(families: seq<Record>): seq<string> {
    if families == [] then [] else MarriageDatesOf(families[0].children) + MarriageDates(families[1..])
  }

  /** The years the dates name, in order; dates without a readable year are skipped. */
  function YearsOf(dates: seq<string>): (ys: seq<int>)
    ensures |ys| <= |dates|
  {
    if dates == [] then []
    else (match DateYear(dates[0]) case Some(y) => [y] case None => []) + YearsOf(dates[1..])
  }

  /** Whether one of the dates names the year. */
  predicate NamesYear(dates: seq<string>, y: int) {
    exists i :: 0 <= i < |dates| && DateYear(dates[i]) == Some(y)
  }

  /** A year is listed exactly when one of the dates names it. */
  lemma {:induction false} YearsOfSpec(dates: seq<string>, y: int)
    ensures y in YearsOf(dates) <==> NamesYear(dates, y)
  {
    if dates != [] {
      YearsOfSpec(dates[1..], y);
      if exists i :: 0 <= i < |dates| && DateYear(dates[i]) == Some(y) {
        var i :| 0 <= i < |dates| && DateYear(dates[i]) == Some(y);
        if i > 0 {
          assert dates[1..][i - 1] == dates[i];
        }
      }
      if y in YearsOf(dates[1..]) {
        var i :| 0 <= i < |dates[1..]| && DateYear(dates[1..][i]) == Some(y);
        assert dates[i + 1] == dates[1..][i];
      }
    }
  }

  /** Whether a date has no word at all, so that taking its last word fails. */
  predicate Blank(date: string) {
    Words(date) == []
  }

  /**
   * The years of the dates as `get_marriage_years` computes them: taking the last word of a
   * blank date raises before any year is returned.
   */
  function YearsOfAsWritten(dates: seq<string>): Result<seq<int>, QueryError> {
    if dates == [] then Ok([])
    else if Blank(dates[0]) then Err(BlankDate)
    else match YearsOfAsWritten(dates[1..])
      case Err(e) => Err(e)
      case Ok(rest) => Ok((match DateYear(dates[0]) case Some(y) => [y] case None => []) + rest)
  }

  /** As written, any blank date raises; otherwise the years are those of the corrected scan. */
  lemma {:induction false} YearsOfAsWrittenSpec(dates: seq<string>)
    ensures YearsOfAsWritten(dates).Err? <==> exists i :: 0 <= i < |dates| && Blank(dates[i])
    ensures YearsOfAsWritten(dates).Ok? ==> YearsOfAsWritten(dates).value == YearsOf(dates)
  {
    if dates != [] {
      YearsOfAsWrittenSpec(dates[1..]);
      if exists i :: 0 <= i < |dates| && Blank(dates[i]) {
        var i :| 0 <= i < |dates| && Blank(dates[i]);
        if i > 0 {
          assert dates[1..][i - 1] == dates[i];
        }
      }
      if exists i :: 0 <= i < |dates[1..]| && Blank(dates[1..][i]) {
        var i :| 0 <= i < |dates[1..]| && Blank(dates[1..][i]);
        assert dates[i + 1] == dates[1..][i];
      }
    }
  }

  /** `get_marriage_years` as written: a blank DATE under a MARR raises `IndexError`. */
  function GetMarriageYearsAsWritten(d: map<string, Record>, ind: Record): Result<seq<int>, QueryError> {
    if ind.kind != Individual then Err(NotAnActualIndividual)
    else YearsOfAsWritten(MarriageDates(FamiliesOf(d, ind, FAMS)))
  }

  /** A marriage with an empty DATE sub-record makes the as-written query raise. */
  lemma BlankMarriageDateRaises()
    ensures var date := Record(Generic, 2, "", DATE, "", "\n", []);
            var marr := Record(Generic, 1, "", MARR, "", "\n", [date]);
            var fam := Record(Family, 0, "@F1@", FAM, "", "\n", [marr]);
            var link := Record(Generic, 1, "", FAMS, "@F1@", "\n", []);
            var ind := Record(Individual, 0, "@I1@", INDI, "", "\n", [link]);
            GetMarriageYearsAsWritten(map["@F1@" := fam], ind) == Err(BlankDate)
  {
    var date := Record(Generic, 2, "", DATE, "", "\n", []);
    var marr := Record(Generic, 1, "", MARR, "", "\n", [date]);
    var fam := Record(Family, 0, "@F1@", FAM, "", "\n", [marr]);
    var link := Record(Generic, 1, "", FAMS, "@F1@", "\n", []);
    var ind := Record(Individual, 0, "@I1@", INDI, "", "\n", [link]);
    var d := map["@F1@" := fam];
    assert [link][1..] == [];
    assert FamiliesOf(d, ind, FAMS) == [fam];
    assert [marr][1..] == [] && [date][1..] == [] && [fam][1..] == [];
    assert ChildrenByTag([date], DATE) == [date];
    assert MarriageDatesOf([marr]) == [""];
    assert MarriageDates([fam]) == [""];
  }

  /**
   * `get_marriage_years` with blank dates skipped like unreadable ones: the years of the DATE
   * values under the MARR records of the individual's FAMS families.
   */
  function GetMarriageYears(d: map<string, Record>, ind: Record): (r: Result<seq<int>, QueryError>)
    ensures r.Err? <==> ind.kind != Individual
  {
    if ind.kind != Individual then Err(NotAnActualIndividual)
    else Ok(YearsOf(MarriageDates(FamiliesOf(d, ind, FAMS))))
  }

  /** Where the as-written query answers at all, it answers as the corrected one. */
  lemma MarriageYearsAgree(d: map<string, Record>, ind: Record)
    requires GetMarriageYearsAsWritten(d, ind).Ok?
    ensures GetMarriageYears(d, ind) == GetMarriageYearsAsWritten(d, ind)
  {
    YearsOfAsWrittenSpec(MarriageDates(FamiliesOf(d, ind, FAMS)));
  }

  /** `marriage_year_match`: one of the marriage years is the year. */
  function MarriageYearMatch(d: map<string, Record>, ind: Record, year: int): Result<bool, QueryError> {
    match GetMarriageYears(d, ind)
    case Err(e) => Err(e)
    case Ok(ys) => Ok(year in ys)
  }

  /** Whether some year lies in the range, both ends included, scanning in order. */
  function AnyInRange(ys: seq<int>, fromYear: int, toYear: int): (b: bool)
    ensures b <==> exists i :: 0 <= i < |ys| && fromYear <= ys[i] <= toYear
  {
    if ys == [] then false
    else if fromYear <= ys[0] <= toYear then true
    else
      var rest := AnyInRange(ys[1..], fromYear, toYear);
      assert rest ==> exists i :: 0 <= i < |ys| && fromYear <= ys[i] <= toYear by {
        if rest {
          var i :| 0 <= i < |ys[1..]| && fromYear <= ys[1..][i] <= toYear;
          assert ys[i + 1] == ys[1..][i];
        }
      }
      assert (exists i :: 0 <= i < |ys| && fromYear <= ys[i] <= toYear) ==> rest by {
        if exists i :: 0 <= i < |ys| && fromYear <= ys[i] <= toYear {
          var i :| 0 <= i < |ys| && fromYear <= ys[i] <= toYear;
          assert ys[1..][i - 1] == ys[i];
        }
      }
      rest
  }

  /** `marriage_range_match`: one of the marriage years lies in the range, both ends included. */
  function MarriageRangeMatch(d: map<string, Record>, ind: Record, fromYear: int, toYear: int): Result<bool, QueryError> {
    match GetMarriageYears(d, ind)
    case Err(e) => Err(e)
    case Ok(ys) => Ok(AnyInRange(ys, fromYear, toYear))
  }

  /** A year matches exactly when the one-year range of that year matches. */
  lemma YearIsOneYearRange(d: map<string, Record>, ind: Record, year: int)
    ensures MarriageYearMatch(d, ind, year) == MarriageRangeMatch(d, ind, year, year)
  {
    if ind.kind == Individual {
      var ys := GetMarriageYears(d, ind).value;
      if year in ys {
        var i :| 0 <= i < |ys| && ys[i] == year;
      }
    }
  }

  /** A year matches exactly when some marriage date of the individual names it. */
  lemma MarriageYearMatchSpec(d: map<string, Record>, ind: Record, year: int)
    requires ind.kind == Individual
    ensures MarriageYearMatch(d, ind, year).Ok?
    ensures MarriageYearMatch(d, ind, year).value <==> NamesYear(MarriageDates(FamiliesOf(d, ind, FAMS)), year)
  {
    var dates := MarriageDates(FamiliesOf(d, ind, FAMS));
    assert GetMarriageYears(d, ind) == Ok(YearsOf(dates));
    YearsOfSpec(dates, year);
  }

  /**
   * The matching individuals among the records, in order: `find_people`. The criteria are
   * checked against every individual, so a malformed criterion raises at the first one.
   */
  function FindPeople(rs: seq<Record>, criteria: string, search: (string, string) -> bool): Result<seq<Record>, CriteriaError> {
    if rs == [] then Ok([])
    else if rs[0].kind != Individual then FindPeople(rs[1..], criteria, search)
    else match CriteriaMatch(rs[0], criteria, search)
      case Err(e) => Err(e)
      case Ok(m) =>
        match FindPeople(rs[1..], criteria, search)
        case Err(e) => Err(e)
        case Ok(rest) => Ok((if m then [rs[0]] else []) + rest)
  }

  /** `find_person`: the first matching individual, `None` standing for the `""` returned otherwise. */
  function FindPerson(rs: seq<Record>, criteria: string, search: (string, string) -> bool): Result<Option<Record>, CriteriaError> {
    if rs == [] then Ok(None)
    else if rs[0].kind != Individual then FindPerson(rs[1..], criteria, search)
    else match CriteriaMatch(rs[0], criteria, search)
      case Err(e) => Err(e)
      case Ok(m) => if m then Ok(Some(rs[0])) else FindPerson(rs[1..], criteria, search)
  }

  /**
   * `find_people` keeps exactly the individuals the criteria match; it raises exactly when
   * the criteria are malformed and there is an individual to check them against.
   */
  lemma {:induction false} FindPeopleSpec(rs: seq<Record>, criteria: string, search: (string, string) -> bool, x: Record)
    ensures FindPeople(rs, criteria, search).Err?
            <==> (exists i :: 0 <= i < |rs| && rs[i].kind == Individual) && CriteriaMatch(x, criteria, search).Err?
    ensures FindPeople(rs, criteria, search).Ok? ==>
              (x in FindPeople(rs, criteria, search).value
               <==> x in rs && x.kind == Individual && CriteriaMatch(x, criteria, search) == Ok(true))
  {
    MalformedEverywhere(criteria, search, x);
    if rs != [] {
      MalformedEverywhere(criteria, search, rs[0]);
      FindPeopleSpec(rs[1..], criteria, search, x);
      if exists i :: 0 <= i < |rs| && rs[i].kind == Individual {
        var i :| 0 <= i < |rs| && rs[i].kind == Individual;
        if i > 0 {
          assert rs[1..][i - 1] == rs[i];
        }
      }
      if exists i :: 0 <= i < |rs[1..]| && rs[1..][i].kind == Individual {
        var i :| 0 <= i < |rs[1..]| && rs[1..][i].kind == Individual;
        assert rs[i + 1] == rs[1..][i];
      }
      assert x in rs <==> x == rs[0] || x in rs[1..];
    }
  }

  /** Whether the criteria raise does not depend on the individual. */
  lemma MalformedEverywhere(criteria: string, search: (string, string) -> bool, x: Record)
    ensures forall y :: CriteriaMatch(y, criteria, search).Err? <==> CriteriaMatch(x, criteria, search).Err?
  {
    forall y
      ensures CriteriaMatch(y, criteria, search).Err? <==> CriteriaMatch(x, criteria, search).Err?
    {
      MatchAllRaises(y, SplitOn(criteria, ':'), search);
      MatchAllRaises(x, SplitOn(criteria, ':'), search);
    }
  }

  /** `find_person` gives the first of the individuals `find_people` gives. */
  lemma {:induction false} FindPersonIsFirst(rs: seq<Record>, criteria: string, search: (string, string) -> bool)
    ensures FindPerson(rs, criteria, search).Err? <==> FindPeople(rs, criteria, search).Err?
    ensures FindPeople(rs, criteria, search).Ok? ==>
              FindPerson(rs, criteria, search).value
              == if FindPeople(rs, criteria, search).value == [] then None else Some(FindPeople(rs, criteria, search).value[0])
  {
    if rs != [] {
      FindPersonIsFirst(rs[1..], criteria, search);
      if rs[0].kind == Individual && CriteriaMatch(rs[0], criteria, search) == Ok(true) {
        FindPeopleSpec(rs[1..], criteria, search, rs[0]);
        MalformedEverywhere(criteria, search, rs[0]);
      }
    }
  }
}
