/**
 * The family record's selectors: the children of the family record with a given tag, used
 * for its CHIL, HUSB, WIFE and MARR links. The links are returned as records whose values are
 * pointers; they are not resolved to individuals.
 */
module Families {
  import opened Records

  /** `get_elements_by_tag`: the immediate children whose tag is `tag`, in child order. */
  function GetElementsByTag(family: Record, tag: string): (r: seq<Record>)
    ensures |r| <= |family.children|
    ensures forall x :: x in r <==> x in family.children && GetTag(x) == tag
  {
    ChildrenByTag(family.children, tag)
  }

  /** The selection keeps the order of the children: it distributes over any split of them. */
  lemma GetElementsByTagOrder(family: Record, i: nat, tag: string)
    requires i <= |family.children|
    ensures GetElementsByTag(family, tag)
            == ChildrenByTag(family.children[..i], tag) + ChildrenByTag(family.children[i..], tag)
  {
    ChildrenWithTagInAppend(family.children[..i], family.children[i..], {tag});
    assert family.children[..i] + family.children[i..] == family.children;
  }

  function GetChildren(family: Record): (r: seq<Record>)
    ensures forall x :: x in r <==> x in family.children && GetTag(x) == CHIL
  {
    GetElementsByTag(family, CHIL)
  }

  function GetHusbands(family: Record): (r: seq<Record>)
    ensures forall x :: x in r <==> x in family.children && GetTag(x) == HUSB
  {
    GetElementsByTag(family, HUSB)
  }

  function GetWives(family: Record): (r: seq<Record>)
    ensures forall x :: x in r <==> x in family.children && GetTag(x) == WIFE
  {
    GetElementsByTag(family, WIFE)
  }

  function GetMarriages(family: Record): (r: seq<Record>)
    ensures forall x :: x in r <==> x in family.children && GetTag(x) == MARR
  {
    GetElementsByTag(family, MARR)
  }

  /** A family record answers FAM whatever tag it was created with. */
  lemma FamilyTag(family: Record)
    requires family.kind == Family
    ensures GetTag(family) == FAM
  {
  }

  /** Husband and wife links together are the partner links, each counted once. */
  lemma {:induction false} PartnersSplit(rs: seq<Record>)
    ensures multiset(ChildrenWithTagIn(rs, {HUSB, WIFE}))
            == multiset(ChildrenByTag(rs, HUSB)) + multiset(ChildrenByTag(rs, WIFE))
  {
    assert {HUSB, WIFE} == {HUSB} + {WIFE};
    ChildrenWithTagInUnion(rs, {HUSB}, {WIFE});
  }
}
