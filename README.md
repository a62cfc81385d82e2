# python-gedcom: a verified model of the reader, its queries and the splitter

This project models the core of python-gedcom, a reader for GEDCOM 5.5 genealogy files,
together with the pruning tool built on it. The model has five parts.

- **Line grammar and tree builder** (`line_grammar.dfy`, `tree_builder.dfy`, `gedcom_parser.dfy`).
  - Each line is read against the grammar `level [pointer] tag [value] terminator`.
  - Lenient mode has two recovery paths: a line without a terminator, and a bare text line.
  - Each new record is attached below the cursor.
  - The cursor is a path of child indices from the root.
  - The `Parser` class holds the root and the two lazily filled caches, the pre-order element
    list and the pointer dictionary.
- **Per-record selectors** (`records.dfy`, `family.dfy`, `source.dfy`, `individual.dfy`).
  - These are read-only scans over a record's children: by tag, first value, last value, or all.
  - Also here: name data, event data, event years, and `criteria_match`.
- **Relationship queries** (`relationships.dfy`).
  - Families, family members, parents (all or natural), children, spouses, family, ancestors,
    relationship data, marriage years and their matches, `find_person` and `find_people`.
- **Ancestor path search** (`path_search.dfy`).
  - `find_path_to_ancestor` is a depth-first search.
  - `find_all_paths_to_ancestor` repeats rounds of expansion until no path grows. Its loop is
    proved to compute a depth-first expansion, `AllPaths`.
- **Mark-and-sweep splitter** (`splitter.dfy`).
  - `split_gedcom` marks descendants, their spouses and optionally in-laws.
  - It then gathers the sources, repositories and media objects that are still referenced.
  - It sweeps the root records one kind at a time with index loops that advance only past
    records they keep.
  - `build_criteria` joins `field=value` items with `:`.

`text.dfy` holds the string functions Python provides: `split()`, `split(sep)`, `join`,
`strip()` and `int()` on an optional sign followed by ASCII digits. `wrappers.dfy` holds `Option` and `Result`.

## Modelling decisions

- **Records.** A record is a value: `Record(kind, level, pointer, tag, value, crlf, children)`.
  - `kind` is the element class the parser chose from the tag (`IndividualElement`,
    `FamilyElement`, …). It decides the `isinstance` checks and the `get_tag` overrides.
  - Tags are string literals.
- **Raised exceptions.** These are `Err` values: `QueryError`, `ParseError` and `CriteriaError`.
- **Parsing.** `Parser.Parse` is a loop whose result is tied to the left fold `ParseLines`.
  - An error stops the fold.
  - The tree built so far is kept. The Python parser has already attached those records when
    it raises.
  - A bare text line in lenient mode gets the pointer `""` where Python stores `None`.
  - A lenient-mode line with no terminator at all is the error `NoTerminator`. In Python,
    taking the groups of the failed match raises there.
- **Cyclic cross-references.** The searches do not terminate on them. The model asks instead
  for a ranking `rank: map<Record, nat>` that puts every parent candidate below its child
  (`Relationships.Acyclic`).
- **Name matching.** `surname_match` and `given_name_match` use regular expressions. They are
  a parameter `search` of `criteria_match`.
- **Removing root records.** `root.py` is not part of this model. The model assumes that
  `remove_child_element(pointer)` removes the first root child with that pointer.
  - The sweeps are characterised by a filter, `Splitter.Kept`.
  - This holds when no root record of a swept kind shares its pointer with an earlier root
    record of any kind (`Splitter.Twinless`).
- **Parent order.** The path search tries parents in the order of the family's HUSB/WIFE
  children for `ALL`, and in the order of the `_FREL`/`_MREL` sub-records for `NAT`.
  `find_path_to_ancestor` (`gedcom/parser.py:767-768`) calls this a bias towards male lines.
- **Failed parses.** A failed parse keeps the records attached before the failing line.

## Model

| member | source | states |
|---|---|---|
| Records.GetTagOfSpecialized | gedcom/element/family.py:40-41 | A record whose class was chosen from its own tag reports that tag. |
| Records.ChildrenWithTagIn | gedcom/element/family.py:71-82 | The filter is never longer than the children; a record is in it iff it is a child whose tag is one of the tags. |
| Records.ChildrenWithTagInAppend | gedcom/element/family.py:76-82 | The filter distributes over concatenation, so child order is kept. |
| Records.ChildrenWithTagInUnion | gedcom/parser.py:613-660 | Filtering by two disjoint tag sets gives, as a multiset, the union of the two filters. |
| Records.FirstIndexOfTag | gedcom/element/individual.py:199-223 | The index found is the first child with the tag, or the length when no child has it. |
| Records.LastIndexOfTag | gedcom/element/individual.py:186-197 | The index found is the last child with the tag, or -1 when no child has it. |
| Records.FirstIndexOfTagAppend | gedcom/element/individual.py:199-223 | Children appended after a child with the tag do not move the first one. |
| Records.HasChildTagIff | gedcom/element/individual.py:50-59 | The scan says yes iff some child has the tag. |
| Records.LastValueByTagSnoc | gedcom/element/individual.py:191-197 | One more child overrides the value iff it has the tag. |
| Records.ChildValueByTagCons | tests/element/test_source.py:24 | A first child with the tag gives its value; any other first child passes the question to the rest. |
| Records.ValuesOf | gedcom/element/individual.py:142-147 | The values are those of the records, position by position. |
| Records.FlattenAppend | gedcom/parser.py:300-309 | The pre-order of two lists is the concatenation of their pre-orders. |
| Families.GetElementsByTag | gedcom/element/family.py:71-82 | Exactly the immediate children with the tag, never more records than there are children. |
| Families.GetElementsByTagOrder | gedcom/element/family.py:76-82 | The selection over any split of the children is the selections of the two parts, concatenated. |
| Families.GetChildren | gedcom/element/family.py:43-48 | Exactly the CHIL link records among the children. |
| Families.GetHusbands | gedcom/element/family.py:50-55 | Exactly the HUSB link records among the children. |
| Families.GetWives | gedcom/element/family.py:57-62 | Exactly the WIFE link records among the children. |
| Families.GetMarriages | gedcom/element/family.py:64-69 | Exactly the MARR records among the children. |
| Families.FamilyTag | gedcom/element/family.py:40-41 | A family record answers FAM whatever tag it was created with. |
| Families.PartnersSplit | gedcom/element/family.py:50-62 | The HUSB and WIFE links together are the husbands and the wives, each counted once. |
| Sources.GetObjects | gedcom/element/source.py:44-55 | Exactly the immediate OBJE children, in order. |
| Sources.GetRepository | gedcom/element/source.py:78-83 | A non-empty result comes from a REPO child. |
| Sources.ChildValueByTagSpec | gedcom/element/source.py:57-90 | A missing tag gives `""`; otherwise the value of the first child with the tag. |
| Sources.SourceTag | gedcom/element/source.py:41-42 | A source record answers SOUR whatever tag it was created with, even `""`. |
| Individuals.IsDeceased | gedcom/element/individual.py:50-59 | True iff some immediate child is a DEAT record. |
| Individuals.IsChild | gedcom/element/individual.py:61-72 | True iff some immediate child is a FAMC link. |
| Individuals.PrivateInIff | gedcom/element/individual.py:74-85 | True iff some PRIV child has the value `Y`. |
| Individuals.LastChildValue | gedcom/element/individual.py:186-197 | `""` without a child of the tag; otherwise the value of the last child with the tag (gender, occupation). |
| Individuals.GetEventByTag | gedcom/element/individual.py:199-223 | Without a child of the tag the event is `("", "", [])`; otherwise it is the last DATE value, the last PLAC value and all SOUR children of the first child with the tag. |
| Individuals.EventByTagFirstOnly | gedcom/element/individual.py:199-223 | Only the first child with the tag counts: later children never change the event. |
| Individuals.YearOfDateEndsWith | gedcom/element/individual.py:230-242 | A date whose last word is the text of a year gives that year. |
| Individuals.YearOfBlankDate | gedcom/element/individual.py:230-233 | A date without any word gives -1. |
| Individuals.SourcesByTagAndValuesSnoc | gedcom/element/individual.py:258-286 | One more child adds its SOUR children exactly when it has the tag and its date and place agree. |
| Individuals.SourcesByTagAndValuesFrom | gedcom/element/individual.py:258-286 | Every source returned is a SOUR child of a matching child with the tag. |
| Individuals.GetNameData | gedcom/element/individual.py:96-140 | Without a NAME child every part is empty; otherwise the name data is that of the first NAME child. |
| Individuals.NameDataFirstOnly | gedcom/element/individual.py:109-137 | Children after the first NAME never change the name data. |
| Individuals.NameDataOfDefaults | gedcom/element/individual.py:113-135 | Without a GIVN, SURN or NSFX sub-record each part is the stripped piece of the `/`-split value; the sources are exactly the NAME's SOUR sub-records. |
| Individuals.SplitNameOfParts | gedcom/element/individual.py:113-121 | A value `given/surname/suffix` gives back its three parts, stripped. |
| Individuals.GivenNameOverride | gedcom/element/individual.py:123-126 | The last GIVN sub-record replaces the given name taken from the value. |
| Individuals.SurnameOverride | gedcom/element/individual.py:128-129 | The last SURN sub-record replaces the surname taken from the value. |
| Individuals.SuffixOverride | gedcom/element/individual.py:131-132 | The last NSFX sub-record replaces the suffix taken from the value. |
| Individuals.GetAllNames | gedcom/element/individual.py:142-147 | The values of all NAME children, in order. |
| Individuals.MatchAllRaises | gedcom/element/individual.py:507-508 | The criteria raise iff one item does not have exactly one `=`. |
| Individuals.MatchAllHolds | gedcom/element/individual.py:505-554 | With well-formed items, the individual matches iff every item holds. |
| Individuals.EmptyCriteriaRaise | gedcom/element/individual.py:499-508 | The guard catches nothing: even an empty criteria string raises. |
| Individuals.BirthRangeInclusive | gedcom/element/individual.py:433-447 | `birth_range=from-to` holds iff the birth year lies in the range, both ends included. |
| Individuals.DeathRangeInclusive | gedcom/element/individual.py:458-472 | `death_range=from-to` holds iff the death year lies in the range, both ends included. |
| Individuals.RangeKeys | gedcom/element/individual.py:523-552 | The two range keys test the birth year and the death year against the range. |
| Individuals.RangeOfNats | gedcom/element/individual.py:525-531 | A range written `from-to` holds iff the year lies between the two ends. |
| Text.NatToString | gedcom/parser.py:203 | The level's text is non-empty digits without a leading zero, and it denotes the number. |
| Text.NatToStringOfDigits | gedcom/parser.py:203 | Digits without a leading zero are exactly the text of the number they denote. |
| Text.ParseInt | gedcom/element/individual.py:239-242 | The model's `int()` succeeds iff the text is an optional `+` or `-` followed by ASCII digits `0`-`9`, and then gives their value, negated after `-`. |
| Text.ParseIntToString | gedcom/element/individual.py:239-242 | Reading back the text of an integer gives the integer. |
| Text.SplitOn | gedcom/element/individual.py:507-508 | `split(sep)` gives at least one part, and no part contains the separator. |
| Text.JoinSplitOn | gedcom/utilities/splitter/splitter.py:270-278 | Joining the parts of a split gives back the text. |
| Text.SplitOnJoin | gedcom/utilities/splitter/splitter.py:270-278 | Splitting a join of separator-free parts gives back the parts. |
| Text.SplitOnSnoc | gedcom/utilities/splitter/splitter.py:276-277 | Appending a separator and a separator-free item adds that item as the last part. |
| Text.FieldsShape | gedcom/element/individual.py:230-233 | `split()` gives non-empty words without blanks, and no word exactly when all is blank. |
| Text.FieldsEndWith | gedcom/element/individual.py:235 | The last word of `split()` is the text after the last blank. |
| Text.Strip | gedcom/element/individual.py:117-121 | `strip()` removes exactly the leading and trailing whitespace. |
| Text.StripIdempotent | gedcom/element/individual.py:117-121 | Stripping twice is stripping once. |
| LineGrammar.EolLength | gedcom/parser.py:215 | The terminator takes 0, 1 or 2 end-of-line characters; 0 exactly when none starts there. |
| LineGrammar.MatchHeadOfRender | gedcom/parser.py:203-218 | Reading a rendered head gives back its level, pointer, tag and value, and stops where the head ends. |
| LineGrammar.ClassifyRender | gedcom/parser.py:256-262 | A well-formed line gives back its five parts; text after the terminator is ignored. |
| LineGrammar.ClassifyRenderUnterminated | gedcom/parser.py:226-238 | A well-formed head without a terminator is read as if it ended with `\n`. |
| LineGrammar.MatchHeadSound | gedcom/parser.py:203-219 | Everything a match reads is a well-formed head that the line starts with. |
| LineGrammar.MatchHeadParts | gedcom/parser.py:203-212 | A match is the level's digits and a space, then the optional pointer, the tag and the value. |
| LineGrammar.MatchLevelSound | gedcom/parser.py:203 | A match starts with the level's own digits, without leading zeros, and a space. |
| LineGrammar.TerminatedSound | gedcom/parser.py:256-262 | A terminated match renders back to the start of the line, terminator included. |
| LineGrammar.UnterminatedSound | gedcom/parser.py:226-238 | A match without a terminator renders back to the start of the line. |
| LineGrammar.TextSound | gedcom/parser.py:239-254 | A bare text line is its first character, the value, then the terminator. |
| LineGrammar.ClassifySound | gedcom/parser.py:219-262 | Each of the four ways to read a line describes what the line holds. |
| TreeBuilder.EmptyRoot | gedcom/parser.py:170-174 | The fresh root has level -1 and no children. |
| TreeBuilder.RecordOf | gedcom/parser.py:272-287 | The new record has the line's fields, the class its tag calls for, and no children. |
| TreeBuilder.ReadLineRoundTrip | gedcom/parser.py:256-262 | In either mode a well-formed line becomes the record of its fields. |
| TreeBuilder.ReadLineStrict | gedcom/parser.py:221-225 | Strict mode raises only format violations; what it accepts is well formed and starts the line. |
| TreeBuilder.ReadLineLenientUnterminated | gedcom/parser.py:221-237 | A head without a terminator gets `\n` in lenient mode and is a format violation in strict mode. |
| TreeBuilder.ReadLineLenientText | gedcom/parser.py:239-254 | A bare text line becomes a CONC one level below, or a sibling that keeps a CONT/CONC cursor's tag and level. |
| TreeBuilder.ReadLineLenientErrors | gedcom/parser.py:239-245 | Lenient mode fails only on a line that matches nothing and has no terminator. |
| TreeBuilder.ParentPath | gedcom/parser.py:290-293 | The walk up from the cursor ends at a valid prefix of the cursor's path. |
| TreeBuilder.ParentPathIsPrefix | gedcom/parser.py:290-293 | In a well-formed tree the parent of a level-`n` record is the cursor's ancestor at level `n - 1`. |
| TreeBuilder.AppendAtNode | gedcom/parser.py:296 | Appending grows exactly that parent's children by the new record. |
| TreeBuilder.AppendAtWellFormed | gedcom/parser.py:290-296 | Appending a record one level below its parent keeps every level one more than its parent's. |
| TreeBuilder.AppendAtOrder | gedcom/parser.py:295-298 | The pre-order after appending is the old pre-order followed by the new record: file order is kept. |
| TreeBuilder.StepValid | gedcom/parser.py:176-177 | Each line read keeps the tree well formed and the cursor on its last spine. |
| TreeBuilder.StepAttaches | gedcom/parser.py:290-298 | An accepted line's record is attached below the cursor's ancestor at the level above it, and becomes the cursor. |
| TreeBuilder.LevelJumpRejected | gedcom/parser.py:264-269 | A level more than one below the cursor raises: for a terminated line in both modes, and for a line without terminator in lenient mode. |
| TreeBuilder.FirstLineLevelZero | gedcom/parser.py:170-174 | The first line must be level 0; a deeper first line raises a level jump. |
| TreeBuilder.ParseLines | gedcom/parser.py:176-182 | The fold always leaves a well-formed tree with the cursor on its last spine. |
| TreeBuilder.ParseLinesCount | gedcom/parser.py:176-182 | Without an error, each line becomes exactly one record of the tree. |
| TreeBuilder.ParseLinesNext | gedcom/parser.py:176-182 | Reading one more line after an error-free prefix is one step. |
| TreeBuilder.ParseLinesStops | gedcom/parser.py:176-182 | After the first error, further lines change nothing. |
| GedcomParser.Dictionary | gedcom/parser.py:111-114 | Every entry of the dictionary is keyed by its own pointer. |
| GedcomParser.DictionaryKeys | gedcom/parser.py:111-114 | The keys are exactly the non-empty pointers of the root records. |
| GedcomParser.DictionaryLastWins | gedcom/parser.py:111-114 | For a duplicate pointer the later root record wins. |
| GedcomParser.FlattenContains | gedcom/parser.py:300-309 | Every root record is in the element list, which is at least as long. |
| GedcomParser.Parser.constructor | gedcom/parser.py:69-73 | An empty root and empty caches. |
| GedcomParser.Parser.InvalidateCache | gedcom/parser.py:75-81 | Empties both caches and leaves the tree alone. |
| GedcomParser.Parser.GetElementList | gedcom/parser.py:83-98 | A filled list is returned as it is; an empty one is rebuilt as the pre-order of the root's children. |
| GedcomParser.Parser.GetElementDictionary | gedcom/parser.py:100-116 | A filled dictionary is returned as it is; an empty one is rebuilt from the root's children. |
| GedcomParser.Parser.Parse | gedcom/parser.py:158-182 | The tree and the error are those of folding the lines; the caches are emptied. |
| GedcomParser.RebuildCaches | gedcom/parser.py:75-116 | After invalidating, both caches rebuild to the pre-order list and the pointer dictionary. |
| Relationships.ResolveMembers | gedcom/parser.py:497-500 | A record is resolved iff some link's value is a key whose entry is that record; unknown values are skipped. |
| Relationships.ResolveAppend | gedcom/parser.py:497-500 | Resolving keeps link order. |
| Relationships.ResolveTaggedUnion | gedcom/parser.py:641-658 | Resolving by two disjoint tag sets is, as a multiset, the union of the two. |
| Relationships.GetFamilies | gedcom/parser.py:476-502 | Raises iff the record is not an individual; never more families than children. |
| Relationships.GetFamiliesSpec | gedcom/parser.py:476-502 | A family is returned iff one of the individual's links of that tag names it. |
| Relationships.GetFamilyMembers | gedcom/parser.py:613-660 | Raises iff the record is not a family; never more members than children. |
| Relationships.GetFamilyMembersSpec | gedcom/parser.py:613-660 | A member is returned iff a link with one of the type's tags names it. |
| Relationships.ParentsAreHusbandsAndWives | gedcom/parser.py:647-649 | PARENTS is HUSB together with WIFE. |
| Relationships.OtherTypesAreAll | gedcom/parser.py:641-658 | ALL, and any type not recognised, is HUSB, WIFE and CHIL together. |
| Relationships.FamilyMembersIn | gedcom/parser.py:603-611 | Over several families the first non-family raises; otherwise the members family by family. |
| Relationships.MembersInSpec | gedcom/parser.py:605-611 | A record is among the members of several families iff it is a member of one of them. |
| Relationships.NaturalMotherIff | gedcom/parser.py:555-558 | The wife is asked for iff some `_MREL` sub-record says `Natural`. |
| Relationships.GetParents | gedcom/parser.py:529-543 | A non-individual raises `NotAnActualIndividualError`. |
| Relationships.GetParentsAll | gedcom/parser.py:545-564 | Any type but NAT succeeds iff every FAMC target is a family, and gives the HUSB/WIFE of each. |
| Relationships.NaturalParentsAreParents | gedcom/parser.py:548-562 | Every natural parent is also a parent. |
| Relationships.ParentsAreCandidates | gedcom/parser.py:529-564 | Every parent of any parent type is a husband or wife of a FAMC family. |
| Relationships.GetFamily | gedcom/parser.py:589-611 | Raises iff not an individual or a FAMS target is not a family; otherwise the members of each FAMS family. |
| Relationships.OthersThan | gedcom/parser.py:584-586 | Exactly the records whose pointer differs from the given one. |
| Relationships.GetSpousesSpec | gedcom/parser.py:575-587 | A spouse is a parent of one of the individual's FAMS families, other than the individual. |
| Relationships.GetAncestors | gedcom/parser.py:504-527 | The parents of the requested type come first; every ancestor found ranks below the individual. |
| Relationships.GetAncestorsSpec | gedcom/parser.py:520-527 | When the query succeeds, a record is listed iff it is reached by one parent link of the requested type followed by any number of parent links of any type. |
| Relationships.GetAncestorsOfTypeSpec | gedcom/parser.py:504-507 | The corrected query lists a record iff it is reached by parent links of the requested type only. |
| Relationships.NaturalAncestorsAsWrittenAdoptive | gedcom/parser.py:524-525 | As written, `NAT` lists every parent of a natural parent, including one that is no natural parent of it. |
| Relationships.NotOwnAncestor | gedcom/parser.py:504-527 | Nobody is among their own ancestors. |
| Relationships.GetRelationshipData | gedcom/parser.py:360-407 | Raises iff not an individual; at least one entry per FAMS family (each family's entries are pinned child by child by `ScanFamilySnoc`). |
| Relationships.FamilyRelationshipsSpec | gedcom/parser.py:380-405 | A family without an event of the type gives the single entry `("", "", "", [])`; without `preferred_only` a family with events gives one entry per event, holding that event's last DATE, last PLAC and all its SOUR children. |
| Relationships.ScanFamilyEvents | gedcom/parser.py:387-401 | Without `preferred_only` the k-th entry holds the last DATE, the last PLAC and the SOUR children of the k-th event of the type. |
| Relationships.ScanFamilyFromEvents | gedcom/parser.py:387-401 | Every entry, with or without `preferred_only`, is the data of some event of the type under the entry's spouse. |
| Relationships.ScanFamilyNoEvents | gedcom/parser.py:383-402 | Children without an event of the type report nothing. |
| Relationships.ScanFamilyCount | gedcom/parser.py:383-401 | Without `preferred_only` every event of the type is reported once. |
| Relationships.ScanFamilyPreferred | gedcom/parser.py:388-389 | `preferred_only` only ever drops entries. |
| Relationships.ScanFamilySpouses | gedcom/parser.py:384-386 | Each entry names a partner of the family other than the individual, or `""`. |
| Relationships.LastPartnerSnoc | gedcom/parser.py:384-386 | The current spouse is the value of the last HUSB/WIFE link not naming the individual: one more child replaces it exactly when it is such a link. |
| Relationships.ScanFamilySnoc | gedcom/parser.py:383-401 | One more child adds an entry exactly when it is an event of the type and, with `preferred_only`, its spouse differs from the last reported entry's spouse (from `""` at the start, so events before any partner link are dropped); the entry holds the last partner before the event and the event's data. |
| Relationships.YearsOfSpec | gedcom/parser.py:425-434 | A year is listed iff one of the marriage dates names it. |
| Relationships.YearsOfAsWrittenSpec | gedcom/parser.py:429-434 | As written, a blank date raises; otherwise the years are those of the corrected scan. |
| Relationships.BlankMarriageDateRaises | gedcom/parser.py:430 | A marriage whose DATE sub-record is empty makes the query raise. |
| Relationships.GetMarriageYears | gedcom/parser.py:409-435 | Raises iff the record is not an individual. |
| Relationships.MarriageYearsAgree | gedcom/parser.py:409-435 | Where the as-written query answers, the corrected one answers the same. |
| Relationships.AnyInRange | gedcom/parser.py:454-474 | True iff some year lies in the range, both ends included. |
| Relationships.YearIsOneYearRange | gedcom/parser.py:437-474 | A year matches iff the one-year range of that year matches. |
| Relationships.MarriageYearMatchSpec | gedcom/parser.py:437-452 | A year matches iff some marriage date of the individual names it. |
| Relationships.FindPeopleSpec | gedcom/parser.py:735-764 | Raises iff the criteria are malformed and there is an individual; otherwise exactly the matching individuals, in order. |
| Relationships.MalformedEverywhere | gedcom/element/individual.py:507-508 | Whether the criteria raise does not depend on the individual. |
| Relationships.FindPersonIsFirst | gedcom/parser.py:703-733 | `find_person` raises iff `find_people` does, and gives the first of its individuals. |
| PathSearch.FindPath | gedcom/parser.py:766-790 | A path found continues the current path through parents of the type and ends at the ancestor's pointer. |
| PathSearch.FindPathToAncestorSound | gedcom/parser.py:766-790 | A path found starts with the descendant, steps parent by parent, and ends at the ancestor. |
| PathSearch.FindPathComplete | gedcom/parser.py:766-790 | Without an error, a path is found iff one exists. |
| PathSearch.SearchParentsComplete | gedcom/parser.py:784-788 | Trying the parents in order finds a path iff one of them reaches the ancestor. |
| PathSearch.AllPathsFromSound | gedcom/parser.py:792-825 | Every path returned continues the start up to the ancestor. |
| PathSearch.AllPathsFromComplete | gedcom/parser.py:792-825 | Without an error, the result is empty iff no path reaches the ancestor. |
| PathSearch.FindPathIsFirstOfAll | gedcom/parser.py:766-825 | The depth-first search finds the first of all paths, or none when there are none. |
| PathSearch.AllPathsOfArrived | gedcom/parser.py:808-825 | Paths that have all arrived are the whole result, so `[[d]]` when `d` is the ancestor. |
| PathSearch.AppendExtensions | gedcom/parser.py:819-823 | Appends the path through each parent, in order. |
| PathSearch.ExpandPath | gedcom/parser.py:813-823 | An arrived path is kept; any other is replaced by its continuations, without changing the final result. |
| PathSearch.ExpandRound | gedcom/parser.py:808-823 | A round keeps the final result and, when it grows a path, lowers the height still open. |
| PathSearch.FindAllPathsToAncestor | gedcom/parser.py:792-825 | The rounds fail iff the depth-first expansion fails, and otherwise give the same paths. |
| Splitter.CoParentsSpec | gedcom/utilities/splitter/splitter.py:66-68 | The co-parents are the members whose pointer is not the descendant's. |
| Splitter.FamilyMarksSpec | gedcom/utilities/splitter/splitter.py:63-68 | Each FAMS family of a descendant is marked and its other parents become spouses; a non-family raises. |
| Splitter.DescendantsSpec | gedcom/utilities/splitter/splitter.py:56-71 | Marked are exactly the individuals with a path to the ancestor, and their families and co-parents. |
| Splitter.AppendCoParents | gedcom/utilities/splitter/splitter.py:66-68 | Appends the members other than the descendant. |
| Splitter.MarkFamilies | gedcom/utilities/splitter/splitter.py:63-68 | Computes the marks of the descendant's FAMS families. |
| Splitter.MarkDescendants | gedcom/utilities/splitter/splitter.py:57-71 | Computes the first phase. |
| Splitter.AddNewPointersSpec | gedcom/utilities/splitter/splitter.py:85-87 | A pointer is listed afterwards iff it was listed or one of the records carries it. |
| Splitter.SpouseFamiliesSpec | gedcom/utilities/splitter/splitter.py:81-87 | A spouse's FAMC families are marked; with in-laws its parents are too, and a failing parent query raises. |
| Splitter.SpousesSpec | gedcom/utilities/splitter/splitter.py:75-90 | The second phase raises iff some visited spouse's parent query does; otherwise it marks their FAMC families and, with in-laws, their parents. |
| Splitter.AppendNewPointers | gedcom/utilities/splitter/splitter.py:85-87 | Appends the pointers not listed yet. |
| Splitter.MarkSpouseFamilies | gedcom/utilities/splitter/splitter.py:81-87 | Computes the marks of a spouse's FAMC families. |
| Splitter.MarkSpouses | gedcom/utilities/splitter/splitter.py:75-90 | Computes the second phase. |
| Splitter.Kept | gedcom/utilities/splitter/splitter.py:93-111 | A record is kept iff it is not a swept kind with a pointer missing from its list. |
| Splitter.SweepIsKept | gedcom/utilities/splitter/splitter.py:93-111 | When no two swept records share a pointer, the index loop removes exactly the doomed records and skips none. |
| Splitter.RemoveRootChild | gedcom/utilities/splitter/splitter.py:248-253 | Drops the root child with the pointer and leaves the caches as they were. |
| Splitter.Sweep | gedcom/utilities/splitter/splitter.py:93-111 | The loop leaves the root children its specification computes and does not touch the caches. |
| Splitter.AddNewValuesSpec | gedcom/utilities/splitter/splitter.py:121-123 | A value is listed afterwards iff it was listed or one of the records carries it. |
| Splitter.SourceIdsSpec | gedcom/utilities/splitter/splitter.py:117-130 | A source is listed iff a kept individual or family has a SOUR with it exactly two levels down. |
| Splitter.RepositoryIdsSpec | gedcom/utilities/splitter/splitter.py:154-167 | A repository is listed iff it is the non-empty repository of a kept source. |
| Splitter.MediaIdsSpec | gedcom/utilities/splitter/splitter.py:189-201 | A media object is listed iff a kept individual cites it under a SOUR two levels down or links it directly. |
| Splitter.AppendNewValues | gedcom/utilities/splitter/splitter.py:121-123 | Appends the values not listed yet. |
| Splitter.GatherSources | gedcom/utilities/splitter/splitter.py:117-130 | Computes the source list. |
| Splitter.GatherRepositories | gedcom/utilities/splitter/splitter.py:154-167 | Computes the repository list. |
| Splitter.GatherMedia | gedcom/utilities/splitter/splitter.py:189-201 | Computes the corrected media list. |
| Splitter.MediaAsWrittenAgrees | gedcom/utilities/splitter/splitter.py:185-207 | Without direct OBJE children the code as written lists the same media. |
| Splitter.MediaAsWrittenLosesObject | gedcom/utilities/splitter/splitter.py:194 | A direct OBJE link lists a stale value as written, so its media record is swept; corrected, it survives. |
| Splitter.SplitGedcom | gedcom/utilities/splitter/splitter.py:20-223 | A non-individual raises and changes nothing; an ancestor not in the tree changes nothing; otherwise the root keeps exactly the pruned records. |
| Splitter.MarkedRaises | gedcom/utilities/splitter/splitter.py:56-90 | Marking fails exactly when the ancestor search from some individual raises, or a descendant has a FAMS link to a record that is not a family, or, with in-laws, when a visited spouse's FAMC link names a record that is not a family. |
| Splitter.MarkedIndividuals | gedcom/utilities/splitter/splitter.py:56-90 | When marking succeeds, an individual is marked exactly when it is a descendant, a visited spouse or, with in-laws, a visited spouse's parent. |
| Splitter.MarkedFamilies | gedcom/utilities/splitter/splitter.py:56-90 | When marking succeeds, a family is marked exactly when it is a descendant's FAMS family or a visited spouse's FAMC family. |
| Splitter.MarkedSpec | gedcom/utilities/splitter/splitter.py:56-90 | Marked individuals are the descendants, their visited spouses and, with in-laws, those spouses' parents; families are the descendants' FAMS and the spouses' FAMC. |
| Splitter.PrunedSurvivors | gedcom/utilities/splitter/splitter.py:93-223 | A root record survives iff its kind's list holds it: marked people and families, sources they cite, repositories of those, media of surviving people. |
| Splitter.DescendantSurvives | gedcom/utilities/splitter/splitter.py:56-71 | Every root individual with a path to the ancestor survives. |
| Splitter.AncestorSurvives | gedcom/utilities/splitter/splitter.py:56-61 | The ancestor itself survives. |
| Splitter.BuildCriteriaItems | gedcom/utilities/splitter/splitter.py:270-278 | An empty value changes nothing; otherwise the items are the old ones followed by `field=value`. |

## Left out

- File input: `parse_file` and the `utf-8-sig` decoding. Lines are given as decoded strings.
- Output: `save_gedcom`, `print_gedcom` and `Splitter.write_file`. They rely on `to_gedcom_string`, which is not part of this model.
- Progress callbacks and `progress_status` are observability only. They use floating point and standard output.
- The command-line `main` of the splitter and the graphical application are left out.
- Regular-expression name matching is a parameter of `criteria_match`. It covers `surname_match` and `given_name_match`.
- `multiple_replace` in the locations report is not part of this model.
- `get_name`, `get_first_name`, the `get_birth_*`, `get_death_*`, `get_burial*` and `get_census*` wrappers, `get_last_change_date`, `birth_year_match` and `death_year_match` are one-line uses of the modelled scans. They are not modelled separately.
- `get_parent_relationship` and `get_note` are outside the modelled queries.
- `header.py` and `repository.py` only delegate to code that is not part of this model.
- Text.ParseInt: Python's `int()` also accepts underscores between digits, surrounding whitespace, and non-ASCII Unicode decimal digits (category Nd, such as fullwidth `１９９０` or Arabic-Indic `١٩٩٠`). The model accepts an optional sign followed by ASCII digits only. A year written in such digits therefore reads as no year: `Individuals.YearOfDate` gives -1, `get_marriage_years` skips it, and a `birth`, `death`, `birth_range` or `death_range` criterion written in them does not hold, where the source reads the number. The character test `Text.IsDigit` stays ASCII because the level in the line regex (`gedcom/parser.py:203`) is `[0-9]`.
- Relationships.GetAncestors: the source diverges on cyclic cross-references. The model requires a ranking instead. The same goes for the path searches and `Splitter.SplitGedcom`.
- PathSearch.FindPath: the ranking `Relationships.Acyclic` ranks every husband and wife of every FAMC family, whatever the parent type. The `NAT` searches therefore also exclude files whose only cycles run through non-natural links, although the source follows only natural links there and terminates on such files. The same holds for `PathSearch.FindAllPathsToAncestor` and for `GetAncestors` and `GetAncestorsOfType` with `NAT`.
- PathSearch.FindPathIsFirstOfAll: stated for rankings that hold only individuals. With a non-individual on a path the two searches can raise different errors.
- PathSearch.FindAllPathsToAncestor: when both searches fail, the error can differ from that of the depth-first expansion. The rounds visit records in another order.
- Splitter.SweepIsKept: the equality with the filter needs `Twinless`, meaning no root record of a swept kind shares its pointer with an earlier root record of any kind. `root.py` is not part of this model; the model assumes that duplicate pointers are removed first match first.
- Splitter.PrunedSurvivors: stated under `Twinless`, like the sweep it relies on.
- Splitter.SplitGedcom: the caches are left as they were before the sweeps, as in the source; the model does not say what stale reads then return.
- Splitter.RemoveRootChild: models the removal as one update of the root's children, not the internal loop of `root.py`.
- Splitter.SplitGedcom: the media phase uses the corrected gathering; the as-written one is `MediaIdsAsWritten` (see Findings).
- Relationships.GetAncestors: models the code as written, where grandparents and beyond are searched with `ALL`; the corrected query is `GetAncestorsOfType` (see Findings).
- Relationships.MarriageYearMatch: built on the corrected `GetMarriageYears`, so it answers where `marriage_year_match` raises `IndexError` on a MARR with a blank DATE (see Findings); `Relationships.MarriageYearMatchSpec` states the corrected answer.
- Relationships.MarriageRangeMatch: built on the corrected `GetMarriageYears`, so it answers where `marriage_range_match` raises `IndexError` on a MARR with a blank DATE (see Findings).
- Relationships.GetMarriageYears: this is the corrected query that skips blank dates; the as-written one is `GetMarriageYearsAsWritten` (see Findings).
- `add_child_element` appends the child; the parent link it also sets is implicit in the tree.

## Findings

| source | as written | input that shows it | evidently intended | confidence | as-written member | corrected member |
|---|---|---|---|---|---|---|
| gedcom/utilities/splitter/splitter.py:194 | a direct OBJE child of an individual appends `childOfChild.get_value()`, the variable left over from the sources loop | individual `@I1@` with children `BIRT` (holding `DATE 1900`) and `OBJE @M1@`, and a root media object `@M1@` | append the OBJE child's own value, so that `@M1@` survives | not executed | Splitter.MediaAsWrittenLosesObject | Splitter.MediaIdsSpec |
| gedcom/parser.py:524-525 | the recursion calls `get_ancestors(parent)` with the default type `ALL`, although the documentation at lines 505-507 promises that `NAT` gives only natural ancestors | an individual whose natural father (`_FREL Natural`) is an adopted child, without `_FREL`/`_MREL`, of another family: that family's husband is listed under `NAT` | pass `ancestor_type` on to the recursive call | not executed | Relationships.NaturalAncestorsAsWrittenAdoptive | Relationships.GetAncestorsOfTypeSpec |
| gedcom/parser.py:430 | takes the last word of each MARR DATE with `split()[-1]` without checking that there is one | an individual whose FAMS family has a MARR with an empty DATE sub-record | skip a date without a year, as `get_event_year_by_tag` does | not executed | Relationships.BlankMarriageDateRaises | Relationships.MarriageYearsAgree |
