/**
 * The source record's selectors: its media links and the values of its first AUTH, PAGE,
 * PUBL, REPO and TITL children.
 */
module Sources {
  import opened Records

  /** `get_objects`: the immediate OBJE children, in child order; deeper ones are not included. */
  function GetObjects(source: Record): (r: seq<Record>)
    ensures |r| <= |source.children|
    ensures forall x :: x in r <==> x in source.children && GetTag(x) == OBJE
  {
    ChildrenByTag(source.children, OBJE)
  }

  /** `get_repository`: the value of the first REPO child, a repository pointer, or `""`. */
  function GetRepository(source: Record): (v: string)
    ensures v != "" ==> exists i :: 0 <= i < |source.children| && GetTag(source.children[i]) == REPO
                                     && source.children[i].value == v
  {
    ChildValueByTag(source.children, REPO)
  }

  function GetAuthor(source: Record): string {
    ChildValueByTag(source.children, "AUTH")
  }

  function GetPage(source: Record): string {
    ChildValueByTag(source.children, "PAGE")
  }

  function GetPublisher(source: Record): string {
    ChildValueByTag(source.children, "PUBL")
  }

  function GetTitle(source: Record): string {
    ChildValueByTag(source.children, "TITL")
  }

  /**
   * The getters read the first child with their tag and give `""` when there is none;
   * for example a source without PAGE has the page `""`.
   */
  lemma {:induction false} ChildValueByTagSpec(rs: seq<Record>, tag: string)
    ensures (forall j :: 0 <= j < |rs| ==> GetTag(rs[j]) != tag) ==> ChildValueByTag(rs, tag) == ""
    ensures forall i :: 0 <= i < |rs| && GetTag(rs[i]) == tag && (forall j :: 0 <= j < i ==> GetTag(rs[j]) != tag)
              ==> ChildValueByTag(rs, tag) == rs[i].value
  {
    var k := FirstIndexOfTag(rs, tag);
    forall i | 0 <= i < |rs| && GetTag(rs[i]) == tag && (forall j :: 0 <= j < i ==> GetTag(rs[j]) != tag)
      ensures ChildValueByTag(rs, tag) == rs[i].value
    {
      assert k == i;
    }
  }

  /** A source record answers SOUR whatever tag it was created with, even `""`. */
  lemma SourceTag(source: Record)
    requires source.kind == Source
    ensures GetTag(source) == SOUR
  {
  }
}
