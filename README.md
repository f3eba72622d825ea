# PublicationRefDb in Dafny

A model of the in-memory reference database of PublicationRefDb and the properties it keeps.
Publications (journal articles, conference papers and books) have a title, a year, a list of
authors and the citations between them. The database has three parts:

- an **id table** that maps reference ids to publications, together with a monotonic id counter.
  The mirror rule holds: a stored publication carries its own id;
- an **author index** from initials keys such as `"F. D. Roosevelt"` to sets of ids;
- a **title-word index** from the lower-cased words of the titles to sets of ids. Titles are split
  on the delimiter class `[ ./@,;+{}()"&:-]+`.

The model has one module per part of the program:

- `Wrappers`: `Option`, `Result` and `Outcome` (pass, or fail with an error). Java's `null` and
  its exceptions become these values.
- `Text`: ASCII `toLowerCase`/`toUpperCase`, `String.trim`, and `String.split` with the title-word
  regular expression. Java's rules are written out: the leading empty word is kept, trailing empty
  words are dropped, and `""` splits to `[""]`. Also `StringTokenizer` over one delimiter.
- `Names`: author names. Covers `isValidAuthorName`, `convertNameToIntRepr`, the initials key of
  `getAuthorWithInitialAt`, the default name format of `getAllAuthors`, and the author loop of
  `isEqualTo`.
- `IndexMaps`: the algebra of key→id-set maps:
  - filing an id under a set of keys, and withdrawing it again;
  - the invariant that an index is exactly the inversion of the keys of the registered
    publications. It is sound and complete, and it has no empty set.
- `Indexes`: the class `RefDbIndex`.
- `RefDatabase`: the classes `Publication` and `RefDb`. They live in one module because they call
  each other. Java's static globals become the fields of one `RefDb` object. The calls from
  `Publication` into `RefDb` take that object as a parameter.
- `CitationClosure`: `getTransitiveClosureCitedBy`.

The invariant `RefDb.Valid()` gathers the source's checker methods:

- `hasProperIdTable`: the mirror rule. The model adds that no stored id is above the counter.
  The source does not check this, but it holds because ids come only from the counter, and it
  is what makes the next id free;
- `hasProperAuthors`;
- `hasProperAuthorIndex` and `hasProperTitleWordIndex`. The model states these more strongly: each
  index is exactly the inversion of the key maps of the stored publications.

The citation invariant (`hasProperCitations`/`hasProperCitators` for every publication) is
`CitationGraph(world)`. Here `world` is a ghost set that holds every publication the links can
reach.

Two points of behaviour worth knowing:

- The closure of a publication on a citation cycle includes the publication itself (lemma
  `StartOnCycle`). Take the cycle A→B→C→A (A cites B, B cites C, C cites A). The code follows
  the citators from A to C, from C to B and from B back to A. It only skips publications already
  collected, so the closure of A is {A, B, C}.
- The model's `removePublicationFromDb` unregisters the record before it drops the citation links. The Java
  order is links first. Only the table and the indexes are touched by unregistering, and only
  `cites`/`citedBy` by dropping links; the link loops test `hasReferenceId` of the partners, never
  of the record itself, so the final state is the same.

## Model

| member | source | states |
|---|---|---|
| Indexes.RefDbIndex.constructor | RefDbIndex.java:28-30 | a new index holds no key |
| Indexes.RefDbIndex.GetIdSetForKey | RefDbIndex.java:48-50 | no set exactly when the key is absent, otherwise the set filed under it; it only reads the index, so no entry is created |
| Indexes.RefDbIndex.IsValidIndexTuple | RefDbIndex.java:62-78 | a tuple is valid iff its set is non-empty and every id in it is in the id table |
| Indexes.RefDbIndex.HasProperIndex | RefDbIndex.java:85-92 | true iff every tuple is valid (ProperIndex); it changes nothing |
| IndexMaps.AddKey | RefDb.java:429-435 | one get / create-if-absent / add / put step is filing the id under that one key |
| IndexMaps.RemoveKey | RefDb.java:563-576 | one remove step withdraws the id from the key's set and deletes the key once its set is empty |
| IndexMaps.AddKeyStep | RefDb.java:455-463 | filing key after key files the id under the union of the keys seen so far |
| IndexMaps.RemoveKeyStep | RefDb.java:592-609 | withdrawing key after key withdraws the id from the union of the keys seen so far |
| IndexMaps.IndexUnique | RefDb.java:219-230 | two indexes that are both the exact inversion of the same key map are equal, so the invariant fixes the index |
| IndexMaps.EmptyIndexMatches | RefDbIndex.java:28-30 | the empty index is the inversion of a key map whose ids have no keys |
| IndexMaps.AddUnderMatches | RefDb.java:394-404 | filing an id under a set of keys keeps the index the exact inversion of the key map, with those keys added to the id |
| IndexMaps.RemoveUnderMatches | RefDb.java:491-501 | withdrawing an id from a set of keys keeps the index the exact inversion, with those keys taken from the id; no empty set is left behind |
| IndexMaps.ReplaceKeysMatches | Publication.java:107-115 | withdrawing all keys of an id and then filing it under new ones gives the inversion with the id's keys replaced |
| IndexMaps.AddRemoveRoundTrip | RefDb.java:588-611 | withdrawing what was just filed for an id that was not filed gives back the original index |
| IndexMaps.MatchingIndexIsProper | RefDbIndex.java:85-92 | an index that is the exact inversion of the key map passes hasProperIndex against the registered ids |
| IndexMaps.RemoveKeyAsWritten | RefDb.java:563-567 | the remove step as written: for a present key it is the remove step, for an absent key it fails (null dereference) |
| IndexMaps.SharedKeyRemovalFails | RefDb.java:563-567 | a second withdrawal under the same key finds no set as written; the null-tolerant step leaves the index matching |
| IndexMaps.AddWordAsWritten | RefDb.java:456-462 | the title-word step as written files the id under the trimmed word, and is the insertion step for a word trim leaves alone |
| IndexMaps.TrimmedKeyLosesId | RefDb.java:456-462 | a word with a leading tab replaces the set of its trimmed form, so another publication loses its key; the untrimmed step keeps the index matching |
| Text.Trim | Publication.java:111 | the trimmed string has no character up to `' '` at either end |
| Text.TrimShape | Publication.java:111 | trim removes exactly the leading and trailing characters up to `' '` and keeps the middle |
| Text.TrimIdempotent | Publication.java:111 | trimming a trimmed string changes nothing |
| Text.SplitWordsShape | RefDb.java:29 | the words hold no delimiter, only the first may be empty, and together they spell the string without its delimiters |
| Text.LeadingDelimiterGivesEmptyWord | RefDb.java:29 | a string that starts with a delimiter and has a word splits into an empty first word and more |
| Text.SplitWordsLower | RefDb.java:455 | splitting the lower-cased title gives the lower-cased words of the title |
| Text.Tokens | Publication.java:325 | every token is non-empty and holds no delimiter |
| Text.TokensSplit | Publication.java:325 | the tokens of `a + d + b` are the tokens of `a` followed by those of `b` |
| Text.TokensSingle | Publication.java:325 | a non-empty string without the delimiter is one token |
| Names.NameParts | Publication.java:327-330 | the comma parts kept are trimmed and non-blank, and there are no more than tokens |
| Names.IsValidAuthorName | Publication.java:317-350 | true iff the name is not null and has exactly two non-blank comma parts, the first letters only, the second letters, blanks and dots without two dots in a row |
| Names.ScanNamePartsCorrect | Publication.java:327-347 | the early-exit scan with its part counter accepts exactly the token lists whose non-blank parts obey those rules |
| Names.ConvertName | Publication.java:531-542 | a successful conversion is a well-formed name: a last name of letters and trimmed given names |
| Names.ConvertNameAccepts | Publication.java:532-533 | conversion succeeds iff the name is valid |
| Names.FullNameRoundTrip | Publication.java:486-495 | the default format "last, given" of a well-formed name is valid and converts back to the same name |
| Names.ConvertNameRoundTrip | Publication.java:531-542 | converting the default format of a converted name gives the same name again |
| Names.FullNames | Publication.java:486-495 | getAllAuthors: one default-format name per author, in order |
| Names.InitialsShape | Publication.java:456-474 | the initials key is "X. " for each given name, its first letter in upper case, followed by the last name |
| Names.SharedInitialsKey | Publication.java:456-474 | two different names can share one initials key ("D. Adams") |
| Names.IndexOf | Publication.java:912-919 | the first position of a name in a list, or none exactly when it is absent |
| Names.SameAuthorsIsMultisetEquality | Publication.java:905-929 | the strike-and-start-over author loop accepts iff the two name lists are equal as multisets |
| Names.ConvertNameAsWritten | Publication.java:538-541 | conversion as written succeeds iff the name is valid |
| Names.BlankPartLosesGivenName | Publication.java:538-541 | "Smith, ,John" is valid but converts to an empty given name as written, which is not a valid name; the corrected conversion gives ("Smith", "John") |
| RefDatabase.AuthorKeysRemove | Publication.java:597-601 | removing an author drops its key from the publication's keys unless another author shares it |
| RefDatabase.InsertEntryConsistent | RefDb.java:376-404 | storing a publication under an id above the counter and filing it under its keys and words keeps the database consistent, with the counter at the id |
| RefDatabase.RemoveEntryConsistent | RefDb.java:491-522 | withdrawing a publication's keys and words and removing its entry keeps the database consistent |
| RefDatabase.InsertAuthorConsistent | Publication.java:563-574 | inserting an author and filing its initials key keeps the database consistent |
| RefDatabase.AppendAuthorConsistent | Publication.java:616-628 | appending an author and filing its initials key keeps the database consistent |
| RefDatabase.RemoveAuthorConsistent | Publication.java:589-602 | removing an author keeps the database consistent when its key is withdrawn only if no other author has it |
| RefDatabase.SharedKeyWithdrawnAsWritten | Publication.java:597-601 | withdrawing a key another author of the publication still has leaves an index that no longer matches |
| RefDatabase.AdamsShareKey | Publication.java:597-601 | the two authors of the example share the initials key "D. Adams", so the remaining author still has it |
| RefDatabase.LastWithdrawalEmptiesIndex | Publication.java:597-601 | withdrawing the only id from the shared key deletes the key, and the empty index no longer matches the key map that still gives the id that key |
| RefDatabase.RetitleConsistent | Publication.java:100-117 | withdrawing the old title words, changing the title and filing the new words keeps the database consistent |
| RefDatabase.SameNamesShareKey | RefDb.java:680-684 | a duplicate (same names as a multiset) has the first author's initials key among its keys |
| RefDatabase.AuthorKeyHasAuthor | RefDb.java:199-205 | every author key of a publication matches, ignoring case, the initials of one of its authors |
| RefDatabase.OnlyAtOwnId | RefDb.java:117-123 | in a valid database a publication is stored under its own id and no other |
| RefDatabase.Without | Publication.java:647-662 | dropping all occurrences of a name never lengthens the list |
| RefDatabase.WithoutMembers | Publication.java:647-662 | after dropping all occurrences of a name, the list holds exactly the other authors |
| RefDatabase.DropRegisteredCitations | RefDb.java:503-509 | the publication stops citing its registered citations, which stop listing it as citator; links to unregistered ones and all else stay; the graph stays symmetric |
| RefDatabase.DropRegisteredCitators | RefDb.java:511-517 | its registered citators stop citing it, and it stops listing them; links to unregistered ones stay; the graph stays symmetric |
| RefDatabase.DropAllCitations | Publication.java:863-865 | the publication cites nothing afterwards and each former citation loses it as citator; the graph stays symmetric |
| RefDatabase.DropAllCitators | Publication.java:866-868 | nothing cites the publication afterwards and each former citator loses it as citation; the graph stays symmetric |
| RefDatabase.Unlinked | Publication.java:862-874 | a publication without citations and citators appears in no other publication's links |
| RefDatabase.Publication.Init | Publication.java:44-58 | a new publication has the given fields, no id and no citations |
| RefDatabase.Publication.AddAsCitation | Publication.java:734-739 | null or itself is refused with nothing changed; otherwise the target joins `cites` and this one joins the target's `citedBy`, so a repeat changes nothing; the graph stays symmetric |
| RefDatabase.Publication.RemoveAsCitation | Publication.java:750-756 | nothing changes unless the target is cited; then it leaves `cites` and this one leaves its `citedBy`, nothing else changes, and the graph stays symmetric |
| RefDatabase.Publication.Terminate | Publication.java:862-874 | all links on both sides are dropped; every other publication keeps its title, authors and id and loses only its links with this one; a registered publication leaves the table and both indexes (exactly its keys and words withdrawn) and loses its id; the counter stays and the database stays valid |
| RefDatabase.Publication.GetAuthorAt | Publication.java:433-441 | a rank below 1 or past the last author is refused with its own error; otherwise the author at that rank in the default format (the getAllAuthors entry), a valid name that converts back to that author |
| RefDatabase.Publication.GetAuthorWithInitialAt | Publication.java:456-474 | the same rank errors; otherwise the initials key of the author at that rank, one of the publication's author keys |
| RefDatabase.Publication.AddAuthorAt | Publication.java:563-574 | ranks 1..n+1 and valid names only, else the matching error and nothing changes; the name is inserted at rank-1 with later authors shifted, and the database stays valid |
| RefDatabase.Publication.AddAsAuthor | Publication.java:616-628 | an invalid name is refused with nothing changed; otherwise the name is appended and the database stays valid |
| RefDatabase.Publication.RemoveAuthorAt | Publication.java:589-602 | ranks 1..n only, else the matching error and nothing changes; the author at rank-1 is removed and the database stays valid |
| RefDatabase.Publication.StrikeAuthorAt | Publication.java:649-656 | one round of removeAsAuthor shortens the list by one and keeps every author other than the removed name |
| RefDatabase.Publication.RemoveAsAuthor | Publication.java:647-662 | every occurrence of the name is removed and the others keep their order; an invalid name is refused when there is an author to compare with |
| RefDatabase.Publication.SetTitle | Publication.java:100-117 | null and blank titles are refused with nothing changed; otherwise the title is the trimmed one, and the title-word index follows so the database stays valid |
| RefDatabase.Publication.IsEqualTo | Publication.java:893-932 | true iff the titles are equal ignoring case, the years and the classes agree, and the author names are equal as multisets |
| RefDatabase.RefDb.constructor | RefDb.java:144 | an empty database, valid, with counter 0 |
| RefDatabase.RefDb.AddAuthorNameToIndex | RefDb.java:421-436 | an unknown id changes nothing; a bad rank gives its error; otherwise the id is filed under the initials key of the author at that rank |
| RefDatabase.RefDb.RemoveAuthorNameFromIndex | RefDb.java:554-578 | the same cases; otherwise the id is withdrawn from that key, deleting the key when its set empties |
| RefDatabase.RefDb.AddAuthorNamesToIndex | RefDb.java:394-400 | the id is filed under every initials key of the publication's authors |
| RefDatabase.RefDb.RemoveAuthorNamesFromIndex | RefDb.java:491-499 | the id is withdrawn from every initials key of the publication's authors |
| RefDatabase.RefDb.AddTitleWordsToIndex | RefDb.java:451-465 | the id is filed under every word of the lower-cased title |
| RefDatabase.RefDb.RemoveTitleWordsFromIndex | RefDb.java:588-611 | the id is withdrawn from every word of the lower-cased title, deleting emptied keys |
| RefDatabase.RefDb.GetPublicationById | RefDb.java:59-64 | a publication exactly when the id is not null and in the table, and then a stored one |
| RefDatabase.RefDb.LookupMirror | RefDb.java:117-123 | the publication found under an id carries that id |
| RefDatabase.RefDb.ConvertSetOfIds | RefDb.java:84-93 | the publications stored under the given ids, unknown ids skipped |
| RefDatabase.RefDb.GetPublicationsByAuthorName | RefDb.java:158-167 | null is refused; otherwise exactly the stored publications with the trimmed name among their initials keys |
| RefDatabase.RefDb.GetPublicationsByTitleWord | RefDb.java:245-255 | null is refused; otherwise exactly the stored publications with the trimmed, lower-cased word among their title words |
| RefDatabase.RefDb.AuthorLookup | RefDb.java:163-164 | in a valid database the set under a key names exactly the publications having that initials key |
| RefDatabase.RefDb.TitleLookup | RefDb.java:251-252 | in a valid database the set under a word names exactly the publications having that title word |
| RefDatabase.RefDb.HasProperIdTable | RefDb.java:131-142 | true iff every stored publication carries its key as id; a valid database passes |
| RefDatabase.RefDb.IsValidAuthorIndexTuple | RefDb.java:194-211 | true iff every stored publication listed under the key has an author whose initials match it ignoring case |
| RefDatabase.RefDb.IsValidTitleWordIndexTuple | RefDb.java:287-304 | true iff every stored publication listed under the key has a title word matching it ignoring case |
| RefDatabase.RefDb.HasProperAuthorIndex | RefDb.java:219-230 | true iff the index is proper and every tuple is valid |
| RefDatabase.RefDb.HasProperTitleWordIndex | RefDb.java:312-324 | true iff the index is proper and every tuple is valid |
| RefDatabase.RefDb.ValidMirror | RefDb.java:131-142 | a valid database passes hasProperIdTable |
| RefDatabase.RefDb.ValidAuthorIndex | RefDb.java:219-230 | a valid database passes hasProperAuthorIndex |
| RefDatabase.RefDb.ValidTitleWordIndex | RefDb.java:312-324 | a valid database passes hasProperTitleWordIndex |
| RefDatabase.RefDb.AuthorCandidates | RefDb.java:680-684 | the candidates are stored ids and include every id under each author key of the publication |
| RefDatabase.RefDb.TitleWordCandidates | RefDb.java:685-689 | the candidates grow, stay stored ids, and include every id under each title word |
| RefDatabase.RefDb.AnySameDescription | RefDb.java:691-694 | true iff some candidate is equal to the publication by isEqualTo |
| RefDatabase.RefDb.AuthorDuplicateIsCandidate | RefDb.java:680-684 | a stored duplicate is filed under the first author's key of the publication |
| RefDatabase.RefDb.TitleDuplicateIsCandidate | RefDb.java:685-689 | a stored duplicate is filed under the first title word of the publication |
| RefDatabase.RefDb.NoDuplicateElsewhere | RefDb.java:675-697 | when no candidate is a duplicate, no stored publication is |
| RefDatabase.RefDb.HasSamePublicationInDb | RefDb.java:675-697 | true only when a stored publication is equal by isEqualTo; false only when none is |
| RefDatabase.RefDb.StoreUnderNextId | RefDb.java:376-391 | the new id is the counter plus one; the table maps it to the publication, which carries it, and the counter becomes it |
| RefDatabase.RefDb.Register | RefDb.java:376-404 | the publication is stored under the next id and filed under its author keys and title words; the database stays valid |
| RefDatabase.RefDb.AddPublicationToDb | RefDb.java:362-406 | null, an already registered publication and a duplicate are refused with nothing changed; otherwise it is stored under counter+1, carries that id, and the database stays valid |
| RefDatabase.RefDb.Unregister | RefDb.java:491-522 | the publication leaves both indexes and the table and loses its id; the database stays valid |
| RefDatabase.RefDb.DropFromTable | RefDb.java:520-522 | the id leaves the table, the publication loses its id, and nothing else of it changes |
| RefDatabase.RefDb.DropRegisteredLinks | RefDb.java:503-517 | the links with registered partners are dropped on both sides and those with unregistered ones kept; every other publication loses exactly its links with this one when it is registered, and keeps its record |
| RefDatabase.RefDb.RemovePublicationFromDb | RefDb.java:485-529 | an unknown id changes nothing; otherwise the id leaves the table, exactly the publication's author keys and title words are withdrawn from the indexes, the publication loses its id, its links with registered partners go on both sides and those with unregistered ones stay; every other publication keeps its record and all links not with this one |
| RefDatabase.RefDb.AddCitationReference | RefDb.java:627-639 | a null id, then an unknown citator, then an unknown citation, then a self-citation is refused with nothing changed; otherwise the citator's `cites` and the citation's `citedBy` gain the link and nothing else changes |
| RefDatabase.RefDb.RemoveCitationReference | RefDb.java:655-667 | the same id errors; otherwise the citator's `cites` and the citation's `citedBy` lose the link when it exists, nothing changes when it does not, and no other set or publication changes |
| CitationClosure.DirectCitator | RefDb.java:785-787 | a citator of the publication cites it indirectly |
| CitationClosure.CitatorOfCitator | RefDb.java:788-789 | a citator of an indirect citator cites it indirectly |
| CitationClosure.ClosedHoldsIndirectCitators | RefDb.java:783-793 | a set closed under taking citators holds every indirect citator |
| CitationClosure.StartOnCycle | RefDb.java:783-793 | a publication on a citation cycle cites itself indirectly |
| CitationClosure.NoCitatorsNoClosure | RefDb.java:768-772 | nothing cites a publication without citators indirectly |
| CitationClosure.Visit | RefDb.java:786-790 | one loop round: the citator is collected, its own citators collected when it has any, and only indirect citators are added |
| CitationClosure.CollectCitators | RefDb.java:783-793 | the private closure grows the set, collects every citator of the publication, leaves each new member with its citators collected, and adds only indirect citators |
| CitationClosure.GetTransitiveClosureCitedBy | RefDb.java:768-772 | the result is exactly the publications that cite the given one directly or through a chain of citations; recursion stops at collected publications, so cycles terminate |

## Left out

- RefDbDemo.java, `printRefdb` and `toString`: console output only.
- `getCitationIndex`, `getCitationScore` and PublicationType.java: floating-point weights held in a mutable global enum.
- `hasProperPublications` and `isProperPublication`: the first repeats `hasProperIdTable`; the second compares the title with `" "` by reference.
- Year bounds, `olderThan10Years` and `setYearOfPublication`: they read the system clock. The year is a field fixed at construction.
- `CapitaliseEveryWordOfTitle`: not part of the database core.
- JournalArticle.java, ConferencePaper.java, Book.java: their setters for journal, issue, conference and publisher are not modelled. The class is the `Kind` tag that `isEqualTo` compares.
- The exception classes: they become the `PublicationError` and `DbError` values.
- RefDatabase.Publication.Init: the constructor's validation of title, year and author names is not modelled. Callers pass authors already converted.
- The skip loop of `addPublicationToDb` (RefDb.java:376-377) is not modelled. It tests a `long` against the `String` keys of the table, so it never runs; fresh ids come only from the counter.
- Unicode: upper- and lower-casing is modelled for ASCII letters only.
- Null publications inside a publication's links, and null entries in the table, cannot occur in the model; sets of `Publication` hold no null.
- The ghost `world` parameter: Java's citation invariant ranges over every publication object in the program. The model asks for a set that holds both ends of every link and states the invariant over it.
- RefDatabase.RefDb.HasSamePublicationInDb: the promise that no duplicate exists when the result is false holds only for publications with proper authors and at least one author or title word (`Findable`). These are the ones the source can find through its indexes.
- RefDatabase.RefDb.AddPublicationToDb: requires the publication to have proper authors, which the Java class invariant guarantees. The "no duplicate was stored" promise is stated only for `Findable` publications, as above.
- RefDatabase.Publication.Terminate: requires the publication's id state to be consistent with the database (`hasProperReferenceId`). The class invariant guarantees this.
- Methods of `Publication` that touch the database require `RefDb.Valid()`, the Java class invariants of the database.
- RefDatabase.RefDb.RemovePublicationFromDb: the model unregisters before it drops links, where Java drops links first. The final state is the same (see above).

## Findings

| source | as written | input that shows it | evidently intended | confidence | as-written member | corrected member |
|---|---|---|---|---|---|---|
| RefDb.java:563-567 | removePublicationFromDb withdraws the id once per author rank; the first withdrawal under a key shared by two authors deletes the key, and the second dereferences the missing set | a publication with id 1 and the authors "Adams, Douglas" and "Adams, Dan", both with key "D. Adams", removed from the database | a missing set is skipped, as removeTitleWordsFromIndex does | not executed | IndexMaps.SharedKeyRemovalFails | IndexMaps.RemoveKey |
| Publication.java:597-601 | removeAuthorAt withdraws the id from the removed author's initials key even when another author of the publication keeps that key | removing "Adams, Douglas" from a publication with id 1 that also has "Adams, Dan": the index loses "D. Adams" although the remaining author has it | withdraw the key only when no other author has it | not executed | RefDatabase.SharedKeyWithdrawnAsWritten | RefDatabase.Publication.RemoveAuthorAt |
| RefDb.java:456-462 | addTitleWordsToIndex reads the set under the word but stores it under the trimmed word | the title "Apples \tOranges" for id 2 while id 1 has the word "oranges": the set of "oranges" becomes {2} and id 1 disappears | store under the word it reads | not executed | IndexMaps.TrimmedKeyLosesId | RefDatabase.RefDb.AddTitleWordsToIndex |
| Publication.java:538-541 | convertNameToIntRepr takes the first two raw comma tokens, while isValidAuthorName skips blank ones | "Smith, ,John" is valid and becomes ("Smith", ""), which is not a valid name | take the first two non-blank parts | not executed | Names.BlankPartLosesGivenName | Names.ConvertName |
