/**
 * The individual record's read-only queries: flags, name data, gender and occupation, event
 * data and years, event sources, and the matching of search criteria such as
 * `surname=Smith:birth_range=1800-1850`. Every query scans the record's children and never
 * changes the record.
 */
module Individuals {
  import opened Wrappers
  import opened Text
  import opened Records

  const BIRT := "BIRT"
  const GIVN := "GIVN"
  const NSFX := "NSFX"
  const OCCU := "OCCU"
  const PRIV := "PRIV"
  const SEX := "SEX"
  const SURN := "SURN"

  /** `is_deceased`: some immediate child is a DEAT record. */
  predicate IsDeceased(ind: Record)
    ensures IsDeceased(ind) <==> exists j :: 0 <= j < |ind.children| && GetTag(ind.children[j]) == DEAT
  {
    HasChildTag(ind.children, DEAT)
  }

  /** `is_child`: some immediate child is a FAMC link. */
  predicate IsChild(ind: Record)
    ensures IsChild(ind) <==> exists j :: 0 <= j < |ind.children| && GetTag(ind.children[j]) == FAMC
  {
    HasChildTag(ind.children, FAMC)
  }

  /** The scan of `is_private`: stops at the first PRIV child whose value is `Y`. */
  predicate PrivateIn(rs: seq<Record>)
  {
    rs != [] && ((GetTag(rs[0]) == PRIV && rs[0].value == "Y") || PrivateIn(rs[1..]))
  }

  /** `is_private`: some PRIV child has the value `Y`; other PRIV children do not count. */
  lemma {:induction false} PrivateInIff(rs: seq<Record>)
    ensures PrivateIn(rs) <==> exists j :: 0 <= j < |rs| && GetTag(rs[j]) == PRIV && rs[j].value == "Y"
  {
    if rs != [] {
      PrivateInIff(rs[1..]);
      if exists j :: 0 <= j < |rs| && GetTag(rs[j]) == PRIV && rs[j].value == "Y" {
        var j :| 0 <= j < |rs| && GetTag(rs[j]) == PRIV && rs[j].value == "Y";
        if j > 0 {
          assert rs[1..][j - 1] == rs[j];
        }
      }
      if PrivateIn(rs[1..]) {
        var j :| 0 <= j < |rs[1..]| && GetTag(rs[1..][j]) == PRIV && rs[1..][j].value == "Y";
        assert rs[j + 1] == rs[1..][j];
      }
    }
  }

  predicate IsPrivate(ind: Record) {
    PrivateIn(ind.children)
  }

  /**
   * The value of the last child with the tag, `""` when there is none: what a scan that
   * overwrites its result at every such child leaves behind.
   */
  function LastChildValue(ind: Record, tag: string): (v: string)
    ensures (forall j :: 0 <= j < |ind.children| ==> GetTag(ind.children[j]) != tag) ==> v == ""
    ensures forall j :: 0 <= j < |ind.children| && GetTag(ind.children[j]) == tag
                        && (forall k :: j < k < |ind.children| ==> GetTag(ind.children[k]) != tag)
                        ==> v == ind.children[j].value
  {
    LastValueByTag(ind.children, tag)
  }

  /** `get_gender`: the value of the last SEX child, `""` when there is none. */
  function GetGender(ind: Record): string {
    LastChildValue(ind, SEX)
  }

  /** `get_occupation`: the value of the last OCCU child, `""` when there is none. */
  function GetOccupation(ind: Record): string {
    LastChildValue(ind, OCCU)
  }

  /** The date, place and sources of an event. */
  datatype Event = Event(date: string, place: string, sources: seq<Record>)

  /** An event record's data: its last DATE and last PLAC values and all its SOUR children. */
  function EventOf(e: Record): Event {
    Event(LastValueByTag(e.children, DATE), LastValueByTag(e.children, PLAC), ChildrenByTag(e.children, SOUR))
  }

  /** `get_event_by_tag`: the data of the first child with the tag, or `('', '', [])`. */
  function GetEventByTag(ind: Record, tag: string): (e: Event)
    ensures !HasChildTag(ind.children, tag) ==> e == Event("", "", [])
    ensures forall i :: 0 <= i < |ind.children| && GetTag(ind.children[i]) == tag
                        && (forall j :: 0 <= j < i ==> GetTag(ind.children[j]) != tag)
                        ==> e.date == LastValueByTag(ind.children[i].children, DATE)
                            && e.place == LastValueByTag(ind.children[i].children, PLAC)
                            && e.sources == ChildrenByTag(ind.children[i].children, SOUR)
  {
    FirstIndexOfTagIs(ind.children, tag);
    var i := FirstIndexOfTag(ind.children, tag);
    if i == |ind.children| then Event("", "", []) else EventOf(ind.children[i])
  }

  /** Only the first child with the tag is looked at: later ones never change the result. */
  lemma EventByTagFirstOnly(ind: Record, tag: string, more: seq<Record>)
    requires HasChildTag(ind.children, tag)
    ensures GetEventByTag(ind.(children := ind.children + more), tag) == GetEventByTag(ind, tag)
  {
    FirstIndexOfTagAppend(ind.children, more, tag);
    var i := FirstIndexOfTag(ind.children, tag);
    assert (ind.children + more)[i] == ind.children[i];
  }

  /**
   * The year a date names: its last whitespace-separated word read as an integer; `None` when
   * the date has no word or its last word is not an integer.
   */
  function DateYear(date: string): Option<int> {
    var ws := Words(date);
    if ws == [] then None else ParseInt(ws[|ws| - 1])
  }

  /** The year of a date, -1 standing for a date without a readable year. */
  function YearOfDate(date: string): int {
    match DateYear(date)
    case Some(y) => y
    case None => -1
  }

  /** `get_event_year_by_tag`: the year of the date of `get_event_by_tag`. */
  function GetEventYearByTag(ind: Record, tag: string): int {
    YearOfDate(GetEventByTag(ind, tag).date)
  }

  /** A date that ends with a year, after a separating space, has that year. */
  lemma YearOfDateEndsWith(prefix: string, y: int)
    ensures YearOfDate(prefix + " " + IntToString(y)) == y
  {
    var t := IntToString(y);
    IntToStringNoSpace(y);
    var s := prefix + " " + t;
    forall j | |prefix| < j < |s|
      ensures !IsSpace(s[j])
    {
      assert s[j] == t[j - |prefix| - 1];
    }
    FieldsEndWith(s, 0, |prefix|, IsSpace);
    assert s[|prefix| + 1..] == t;
    ParseIntToString(y);
  }

  /** A date without any word has no year. */
  lemma YearOfBlankDate(date: string)
    requires forall j :: 0 <= j < |date| ==> IsSpace(date[j])
    ensures YearOfDate(date) == -1
  {
    FieldsShape(date, 0, IsSpace);
  }

  lemma IntToStringNoSpace(y: int)
    ensures |IntToString(y)| >= 1
    ensures forall j :: 0 <= j < |IntToString(y)| ==> !IsSpace(IntToString(y)[j])
  {
    var t := IntToString(y);
    if y < 0 {
      var u := NatToString(-y);
      assert t == "-" + u;
      forall j | 0 <= j < |t|
        ensures !IsSpace(t[j])
      {
        if j > 0 {
          assert t[j] == u[j - 1];
        }
      }
    }
  }

  /** `birth_range_match`: the birth year lies in the range, both ends included. */
  predicate BirthRangeMatch(ind: Record, fromYear: int, toYear: int) {
    fromYear <= GetEventYearByTag(ind, BIRT) <= toYear
  }

  /** `death_range_match`: the death year lies in the range, both ends included. */
  predicate DeathRangeMatch(ind: Record, fromYear: int, toYear: int) {
    fromYear <= GetEventYearByTag(ind, DEAT) <= toYear
  }

  /**
   * The scan of `get_sources_by_tag_and_values` over the children: for every child with the
   * tag whose last DATE and last PLAC agree with the requested ones (`None` accepts any), its
   * SOUR children, in order.
   */
  function SourcesByTagAndValues(rs: seq<Record>, tag: string, date: Option<string>, place: Option<string>): seq<Record> {
    if rs == [] then []
    else Contribution(rs[0], tag, date, place) + SourcesByTagAndValues(rs[1..], tag, date, place)
  }

  /** What one child adds: its SOUR children when it has the tag and its date and place agree. */
  function Contribution(c: Record, tag: string, date: Option<string>, place: Option<string>): seq<Record> {
    if GetTag(c) == tag && EventMatches(c, date, place) then ChildrenByTag(c.children, SOUR) else []
  }

  predicate EventMatches(c: Record, date: Option<string>, place: Option<string>) {
    (date.None? || date.value == LastValueByTag(c.children, DATE))
    && (place.None? || place.value == LastValueByTag(c.children, PLAC))
  }

  /** The scan adds each child's contribution after those of the children before it. */
  lemma {:induction false} SourcesByTagAndValuesSnoc(rs: seq<Record>, c: Record, tag: string, date: Option<string>, place: Option<string>)
    ensures SourcesByTagAndValues(rs + [c], tag, date, place)
            == SourcesByTagAndValues(rs, tag, date, place) + Contribution(c, tag, date, place)
  {
    var h := Contribution(c, tag, date, place);
    if rs == [] {
      assert rs + [c] == [c];
      assert [c][1..] == [];
      assert SourcesByTagAndValues([c], tag, date, place) == h + [];
    } else {
      var h0 := Contribution(rs[0], tag, date, place);
      calc {
        SourcesByTagAndValues(rs + [c], tag, date, place);
        { assert (rs + [c])[0] == rs[0]; assert (rs + [c])[1..] == rs[1..] + [c]; }
        h0 + SourcesByTagAndValues(rs[1..] + [c], tag, date, place);
        { SourcesByTagAndValuesSnoc(rs[1..], c, tag, date, place); }
        h0 + (SourcesByTagAndValues(rs[1..], tag, date, place) + h);
        (h0 + SourcesByTagAndValues(rs[1..], tag, date, place)) + h;
      }
    }
  }

  /** Every source returned is a SOUR child of a matching child with the tag. */
  lemma {:induction false} SourcesByTagAndValuesFrom(rs: seq<Record>, tag: string, date: Option<string>, place: Option<string>, x: Record)
    requires x in SourcesByTagAndValues(rs, tag, date, place)
    ensures GetTag(x) == SOUR
    ensures exists j :: 0 <= j < |rs| && GetTag(rs[j]) == tag && EventMatches(rs[j], date, place) && x in rs[j].children
  {
    var head := Contribution(rs[0], tag, date, place);
    if x in head {
      assert GetTag(rs[0]) == tag && EventMatches(rs[0], date, place) && x in rs[0].children;
    } else {
      SourcesByTagAndValuesFrom(rs[1..], tag, date, place, x);
      var j :| 0 <= j < |rs[1..]| && GetTag(rs[1..][j]) == tag && EventMatches(rs[1..][j], date, place) && x in rs[1..][j].children;
      assert rs[j + 1] == rs[1..][j];
    }
  }

  function GetSourcesByTagAndValues(ind: Record, tag: string, date: Option<string>, place: Option<string>): seq<Record> {
    SourcesByTagAndValues(ind.children, tag, date, place)
  }

  /** An individual's name data: given name, surname, suffix and the name's sources. */
  datatype NameData = NameData(given: string, surname: string, suffix: string, sources: seq<Record>)

  /**
   * The name parts in a NAME value, `Given /Surname/ Suffix`: the pieces between the slashes,
   * stripped of surrounding whitespace; an empty value gives no parts.
   */
  function SplitName(value: string): (parts: (string, string, string)) {
    if value == "" then ("", "", "")
    else
      var pieces := SplitOn(value, '/');
      (Strip(pieces[0]),
       if |pieces| > 1 then Strip(pieces[1]) else "",
       if |pieces| > 2 then Strip(pieces[2]) else "")
  }

  /** The name data of one NAME record: GIVN, SURN and NSFX children override the value's parts. */
  function NameDataOf(name: Record): NameData {
    var (g, s, x) := SplitName(name.value);
    var cs := name.children;
    NameData(
      if HasChildTag(cs, GIVN) then LastValueByTag(cs, GIVN) else g,
      if HasChildTag(cs, SURN) then LastValueByTag(cs, SURN) else s,
      if HasChildTag(cs, NSFX) then LastValueByTag(cs, NSFX) else x,
      ChildrenByTag(cs, SOUR))
  }

  /** `get_name_data`: the name data of the first NAME child only; empty when there is none. */
  function GetNameData(ind: Record): (n: NameData)
    ensures !HasChildTag(ind.children, NAME) ==> n == NameData("", "", "", [])
    ensures forall i :: 0 <= i < |ind.children| && GetTag(ind.children[i]) == NAME
                        && (forall j :: 0 <= j < i ==> GetTag(ind.children[j]) != NAME)
                        ==> n == NameDataOf(ind.children[i])
  {
    FirstIndexOfTagIs(ind.children, NAME);
    var i := FirstIndexOfTag(ind.children, NAME);
    if i == |ind.children| then NameData("", "", "", []) else NameDataOf(ind.children[i])
  }

  /** A value written as `given/surname/suffix` gives back its three parts, stripped. */
  lemma SplitNameOfParts(g: string, s: string, x: string)
    requires forall j :: 0 <= j < |g| ==> g[j] != '/'
    requires forall j :: 0 <= j < |s| ==> s[j] != '/'
    requires forall j :: 0 <= j < |x| ==> x[j] != '/'
    ensures SplitName(g + "/" + s + "/" + x) == (Strip(g), Strip(s), Strip(x))
  {
    var parts := [g, s, x];
    assert Join(parts[2..], '/') == x;
    assert Join(parts[1..], '/') == s + "/" + x;
    assert Join(parts, '/') == g + "/" + s + "/" + x;
    SplitOnJoin(parts, '/');
  }

  /** A GIVN sub-record takes precedence over the given name in the NAME value. */
  lemma GivenNameOverride(name: Record, j: nat)
    requires j < |name.children| && GetTag(name.children[j]) == GIVN
    requires forall k :: j < k < |name.children| ==> GetTag(name.children[k]) != GIVN
    ensures NameDataOf(name).given == name.children[j].value
  {
    var i := LastIndexOfTag(name.children, GIVN);
    assert i == j;
  }

  /**
   * Without a GIVN, SURN or NSFX sub-record the part comes from the NAME value; the sources are
   * the NAME's SOUR sub-records.
   */
  lemma NameDataOfDefaults(name: Record)
    ensures !HasChildTag(name.children, GIVN) ==> NameDataOf(name).given == SplitName(name.value).0
    ensures !HasChildTag(name.children, SURN) ==> NameDataOf(name).surname == SplitName(name.value).1
    ensures !HasChildTag(name.children, NSFX) ==> NameDataOf(name).suffix == SplitName(name.value).2
    ensures forall x :: x in NameDataOf(name).sources <==> x in name.children && GetTag(x) == SOUR
  {
  }

  /** An SURN sub-record takes precedence over the surname in the NAME value. */
  lemma SurnameOverride(name: Record, j: nat)
    requires j < |name.children| && GetTag(name.children[j]) == SURN
    requires forall k :: j < k < |name.children| ==> GetTag(name.children[k]) != SURN
    ensures NameDataOf(name).surname == name.children[j].value
  {
    var i := LastIndexOfTag(name.children, SURN);
    assert i == j;
  }

  /** An NSFX sub-record takes precedence over the suffix in the NAME value. */
  lemma SuffixOverride(name: Record, j: nat)
    requires j < |name.children| && GetTag(name.children[j]) == NSFX
    requires forall k :: j < k < |name.children| ==> GetTag(name.children[k]) != NSFX
    ensures NameDataOf(name).suffix == name.children[j].value
  {
    var i := LastIndexOfTag(name.children, NSFX);
    assert i == j;
  }

  /** Only the first NAME child is looked at: later children never change the name data. */
  lemma NameDataFirstOnly(ind: Record, more: seq<Record>)
    requires HasChildTag(ind.children, NAME)
    ensures GetNameData(ind.(children := ind.children + more)) == GetNameData(ind)
  {
    FirstIndexOfTagAppend(ind.children, more, NAME);
    var i := FirstIndexOfTag(ind.children, NAME);
    assert (ind.children + more)[i] == ind.children[i];
  }

  /** `get_all_names`: the values of all NAME children, in order. */
  function GetAllNames(ind: Record): (names: seq<string>)
    ensures |names| == |ChildrenByTag(ind.children, NAME)|
    ensures forall i :: 0 <= i < |names| ==> names[i] == ChildrenByTag(ind.children, NAME)[i].value
  {
    ValuesOf(ChildrenByTag(ind.children, NAME))
  }

  /** What `criteria_match` raises: an item without exactly one `=`. */
  datatype CriteriaError = MalformedCriterion(criterion: string)

  /**
   * A `from-to` range holds for a year when it has exactly two integer ends and the year lies
   * between them, both included.
   */
  predicate RangeHolds(value: string, year: int) {
    var ends := SplitOn(value, '-');
    |ends| == 2 && ParseInt(ends[0]).Some? && ParseInt(ends[1]).Some?
    && ParseInt(ends[0]).value <= year <= ParseInt(ends[1]).value
  }

  /**
   * Whether one `key=value` item holds. `search(pattern, text)` stands for the regular
   * expression search of the name matchers; unknown keys hold.
   */
  predicate CriterionHolds(ind: Record, key: string, value: string, search: (string, string) -> bool) {
    if key == "surname" then search(value, GetNameData(ind).surname)
    else if key == "name" || key == "given_name" then search(value, GetNameData(ind).given)
    else if key == "birth" then ParseInt(value).Some? && GetEventYearByTag(ind, BIRT) == ParseInt(value).value
    else if key == "birth_range" then RangeHolds(value, GetEventYearByTag(ind, BIRT))
    else if key == "death" then ParseInt(value).Some? && GetEventYearByTag(ind, DEAT) == ParseInt(value).value
    else if key == "death_range" then RangeHolds(value, GetEventYearByTag(ind, DEAT))
    else true
  }

  /** The items in order: the first one without exactly one `=` raises; otherwise all must hold. */
  function MatchAll(ind: Record, items: seq<string>, search: (string, string) -> bool): Result<bool, CriteriaError> {
    if items == [] then Ok(true)
    else
      var kv := SplitOn(items[0], '=');
      if |kv| != 2 then Err(MalformedCriterion(items[0]))
      else
        match MatchAll(ind, items[1..], search)
        case Err(e) => Err(e)
        case Ok(rest) => Ok(CriterionHolds(ind, kv[0], kv[1], search) && rest)
  }

  /** `criteria_match`: the `:`-separated items of `criteria`. */
  function CriteriaMatch(ind: Record, criteria: string, search: (string, string) -> bool): Result<bool, CriteriaError> {
    MatchAll(ind, SplitOn(criteria, ':'), search)
  }

  predicate WellFormedItem(item: string) {
    |SplitOn(item, '=')| == 2
  }

  /** The items raise exactly when one of them is malformed. */
  lemma {:induction false} MatchAllRaises(ind: Record, items: seq<string>, search: (string, string) -> bool)
    ensures MatchAll(ind, items, search).Err? <==> exists i :: 0 <= i < |items| && !WellFormedItem(items[i])
  {
    if items != [] {
      MatchAllRaises(ind, items[1..], search);
      TailItems(items);
      if !WellFormedItem(items[0]) {
        assert MatchAll(ind, items, search) == Err(MalformedCriterion(items[0]));
      } else {
        assert MatchAll(ind, items, search).Err? <==> MatchAll(ind, items[1..], search).Err?;
      }
    }
  }

  /** Items that are all well formed match exactly when every one of them holds. */
  lemma {:induction false} MatchAllHolds(ind: Record, items: seq<string>, search: (string, string) -> bool)
    requires forall i :: 0 <= i < |items| ==> |SplitOn(items[i], '=')| == 2
    ensures MatchAll(ind, items, search).Ok?
    ensures MatchAll(ind, items, search).value <==>
              forall i :: 0 <= i < |items| ==>
                CriterionHolds(ind, SplitOn(items[i], '=')[0], SplitOn(items[i], '=')[1], search)
  {
    if items != [] {
      TailItems(items);
      MatchAllHolds(ind, items[1..], search);
    }
  }

  lemma TailItems(items: seq<string>)
    requires items != []
    ensures forall i :: 1 <= i < |items| ==> items[i] == items[1..][i - 1]
  {
  }

  /** The validity guard never rejects anything: even an empty criteria string raises. */
  lemma EmptyCriteriaRaise(ind: Record, search: (string, string) -> bool)
    ensures CriteriaMatch(ind, "", search) == Err(MalformedCriterion(""))
  {
    assert SplitOn("", ':') == [""];
    assert SplitOn("", '=') == [""];
  }

  /** A birth range written `from-to` with natural ends is inclusive at both ends. */
  lemma BirthRangeInclusive(ind: Record, fromYear: nat, toYear: nat, search: (string, string) -> bool)
    ensures CriterionHolds(ind, "birth_range", NatToString(fromYear) + "-" + NatToString(toYear), search)
            <==> BirthRangeMatch(ind, fromYear, toYear)
  {
    RangeKeys(ind, NatToString(fromYear) + "-" + NatToString(toYear), search);
    RangeOfNats(fromYear, toYear, GetEventYearByTag(ind, BIRT));
  }

  /** A death range written `from-to` with natural ends is inclusive at both ends. */
  lemma DeathRangeInclusive(ind: Record, fromYear: nat, toYear: nat, search: (string, string) -> bool)
    ensures CriterionHolds(ind, "death_range", NatToString(fromYear) + "-" + NatToString(toYear), search)
            <==> DeathRangeMatch(ind, fromYear, toYear)
  {
    RangeKeys(ind, NatToString(fromYear) + "-" + NatToString(toYear), search);
    RangeOfNats(fromYear, toYear, GetEventYearByTag(ind, DEAT));
  }

  /** The two range keys test the birth and the death year against the range. */
  lemma RangeKeys(ind: Record, value: string, search: (string, string) -> bool)
    ensures CriterionHolds(ind, "birth_range", value, search) == RangeHolds(value, GetEventYearByTag(ind, BIRT))
    ensures CriterionHolds(ind, "death_range", value, search) == RangeHolds(value, GetEventYearByTag(ind, DEAT))
  {
    assert "birth_range"[0] != "death_range"[0];
  }

  lemma RangeOfNats(fromYear: nat, toYear: nat, year: int)
    ensures RangeHolds(NatToString(fromYear) + "-" + NatToString(toYear), year) <==> fromYear <= year <= toYear
  {
    var a := NatToString(fromYear);
    var b := NatToString(toYear);
    var parts := [a, b];
    assert Join(parts[1..], '-') == b;
    assert Join(parts, '-') == a + "-" + b;
    assert forall k, j :: 0 <= k < |parts| && 0 <= j < |parts[k]| ==> parts[k][j] != '-' by {
      forall k, j | 0 <= k < |parts| && 0 <= j < |parts[k]|
        ensures parts[k][j] != '-'
      {
        assert IsDigit(parts[k][j]);
      }
    }
    SplitOnJoin(parts, '-');
  }
}
