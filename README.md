# Static catalog store: a Dafny model of its reconciliation core

`StaticCatalogStore` keeps the query engine's data-source connections in step
with two sources.

- **Local load.** At startup `loadCatalogs` reads the catalog directory once.
  - Each regular `.properties` file is passed to `loadCatalog`.
  - `loadCatalog` skips a disabled name and otherwise creates a connection
    for the file.
  - For a `mysql` catalog it also stores the canonical line
    `name \2 url \2 user \2 password` in `catalogMap`.
- **Remote reconciliation.** A timer task then polls a remote listing, with
  records separated by `\1`. Each run:
  - classifies every record against `catalogMap` as new, changed or
    unchanged;
  - creates the new catalogs;
  - drops and re-creates the changed ones;
  - drops the catalogs the listing no longer names.
  Every create and drop also rewrites the comma-separated `connectorIds`
  property of the "presto" service announcement.

## Modules

- `Strings`:
  - Java's `String.split` on a one-character separator (it drops trailing
    empty strings);
  - Guava's splitter and joiner;
  - `endsWith` and `Files.getNameWithoutExtension`.
- `CatalogRecord`: the canonical line, how `loadCatalog` encodes it, and how
  `addCatalog` and `deleteCatalog` decode it.
- `ConnectorIds`: parsing and editing `connectorIds` as an ordered,
  duplicate-free set.
- `Announcements`: `getPrestoAnnouncement` and `updateConnectorIds` as
  functions over the announcer's announcements.
- `Lifecycle`: the calls made to the connector manager, and how many creates
  and drops each loop issues per name.
- `Diff`: the classification loop of the timer task, as a fold over the
  records.
- `Reconcile`: each private helper and each loop of the timer task, as a
  function from a state to how the call ended and the state it left.
- `TimerTask`: one whole run, and what a run that completes does to each
  name.
- `LocalLoad`: `loadCatalog` and `loadCatalogs` over a given list of files.
- `CatalogStore`: the class `StaticCatalogStore`.
  - Its fields are `catalogMap`, the two flags, the calls issued and the
    announcements.
  - Its methods do what the Java methods do, step by step.
  - Each method is proved equal to the function that specifies it, applied to
    the state it started from.

## How the system is represented

- **Connector manager.** It is the class constant `accepts`, a verdict on each
  call given the calls issued before it. A rejected call is still recorded in
  `calls`, and its exception escapes.
- **Announcer.** Its announcements are a sequence that `getPrestoAnnouncement`
  scans from the front; a new announcement goes at the end.
- **New announcement ids.** A new announcement's id is one more than every id
  present (`FreshId`), in place of a random UUID.
- **Map iteration order.** `IterationOrder` returns some order over a key set,
  chosen without further constraint. The proofs hold for every such order.
- **Outcomes.** A Java exception that escapes is a `Fail(failure)` outcome.
  - `Failures.Failure` names each kind: index out of bounds, announcement not
    found, a rejected call, a missing `connector.name`.
  - Every loop stops at the first exception, and the timer task ends with it
    (`TickOutcome.Aborted`).
  - An `IOException` from the fetch is `Fetch.TransportError`. The run then
    changes nothing (`TickOutcome.FetchFailed`).

## Behaviour of the code worth knowing

- **One error stops the run.** The timer task catches only `IOException`. Any
  other error in one add, update or delete stops the whole run. The exception
  ends the timer's thread, so no later run happens and the remaining names
  are never reconciled.
- **New names are stored early.** They are written into `catalogMap` while the
  records are classified, before `addCatalog` runs (line 115). A run that
  stops later leaves them stored.
- **Order of entries in the map.** Changed names are stored after their
  update (line 134). Removed names are deleted after their drop (line 142).
- **Duplicate names in one listing.**
  - The first record of a new name is stored.
  - A name's update entry takes the last record that differs from the stored
    line (`Diff.LastDiffering`).
  - So the stored line of a name listed twice is not always its last record.
- **UPDATE action.** The source's enum `CataLogAction` is renamed
  `CatalogAction` in the model. Its `UPDATE` is never passed. Any action other
  than DELETE acts as ADD.
- **Local loading leaves `connectorIds` alone.**
- **Empty password.** Java's `split` drops a trailing empty field. A line whose
  password is empty therefore has only three fields, and `addCatalog` fails on
  `catalogInfo[3]`.

## Model

| member | source | states |
|---|---|---|
| Strings.Split | StaticCatalogStore.java:107-109 | Java's `split` on one separator: a string without the separator is its own only piece; its other properties are `SplitJoin`, `SplitEmptyIff` and `SplitSeparatorFree` |
| Strings.SplitJoin | StaticCatalogStore.java:107-109 | `split` on a one-character separator gives back exactly the separator-free pieces that were joined, when the last piece is not empty (or there is only one) |
| Strings.SplitEmptyIff | StaticCatalogStore.java:109-110 | `split` returns no piece, so `catalogInfo[0]` is out of bounds, exactly for a non-empty string made only of separators |
| Strings.SplitSeparatorFree | StaticCatalogStore.java:107-109 | no piece of `split` contains the separator |
| Strings.LastIndexOf | StaticCatalogStore.java:208 | the result is -1 when the character is absent, and otherwise the last position holding it |
| Strings.NameWithoutExtension | StaticCatalogStore.java:208 | the catalog name is a prefix of the file name: all of it when it has no dot, and otherwise the part before its last dot |
| Strings.BaseNameOfPropertiesFile | StaticCatalogStore.java:88 | for a file name ending in ".properties", the catalog name is the name with that suffix removed, whatever dots come before it |
| CatalogRecord.Encode | StaticCatalogStore.java:219-224 | the line `loadCatalog` builds is the four fields joined by `\2`; `DecodeEncode` and `NameOfEncode` state that `addCatalog` and `deleteCatalog` read them back |
| CatalogRecord.Decode | StaticCatalogStore.java:173-179 | when a line has the four fields `addCatalog` reads, its first field is the name `deleteCatalog` reads |
| CatalogRecord.DecodeEncode | StaticCatalogStore.java:219-224 | decoding the line `loadCatalog` builds gives back the name, url, user and password, and the create properties map `connection-url`, `connection-user` and `connection-password` to them, when no field holds `\2` and the password is not empty |
| CatalogRecord.EmptyPasswordNotDecodable | StaticCatalogStore.java:173-179 | a line with an empty password cannot be decoded: `catalogInfo[3]` is out of bounds |
| CatalogRecord.NameOfEncode | StaticCatalogStore.java:219-224 | the first field of an encoded line is its catalog name, when the name is non-empty and free of `\2` |
| ConnectorIds.ParseIds | StaticCatalogStore.java:249 | Guava's splitter on ',' with `trimResults` and `omitEmptyStrings`; `ParseIdsClean` and `ParseJoinIds` state what it returns |
| ConnectorIds.TrimFacts | StaticCatalogStore.java:249 | a trimmed id keeps only characters of the original and has no whitespace at either end |
| ConnectorIds.ParseIdsClean | StaticCatalogStore.java:249 | every id parsed from the property is non-empty, trimmed and comma-free |
| ConnectorIds.Dedup | StaticCatalogStore.java:250 | the `LinkedHashSet` built from a list, as the list of first occurrences; `DedupFacts` and `DedupOfDistinct` state its contents and order |
| ConnectorIds.DedupFacts | StaticCatalogStore.java:250 | the linked set built from the list has no duplicates and holds exactly the list's elements |
| ConnectorIds.DedupOfDistinct | StaticCatalogStore.java:250 | the linked set of a duplicate-free list keeps the list as it is, order included |
| ConnectorIds.ParseJoinIds | StaticCatalogStore.java:249-263 | when every id is clean (non-empty, comma-free, no whitespace at either end), parsing the property the joiner wrote gives back the same ids, in order |
| ConnectorIds.IdsOfWritten | StaticCatalogStore.java:248-263 | when the written ids are clean and duplicate-free, reading `connectorIds` back from the rewritten properties gives them |
| ConnectorIds.EditIds | StaticCatalogStore.java:251-255 | DELETE removes the name and every other action adds it; `AddIdAppends`, `RemoveIdRemovesOnly` and `EditIdsWellFormed` state the result |
| ConnectorIds.AddIdAppends | StaticCatalogStore.java:254 | ADD keeps the existing ids in order and appends the name once if it was absent; the name then occurs exactly once and the set stays duplicate-free |
| ConnectorIds.RemoveIdRemovesOnly | StaticCatalogStore.java:251-252 | DELETE removes the name and keeps every other id; a list without the name is unchanged |
| ConnectorIds.EditIdsWellFormed | StaticCatalogStore.java:249-255 | for clean, duplicate-free ids and a clean name, the edited ids are duplicate-free and clean, and they are the old ids plus the name (ADD) or minus it (DELETE) |
| ConnectorIds.UncleanNamesBreakIds | StaticCatalogStore.java:249-263 | adding the name "" to ["a"] writes "a,", which reads back as ["a"]; adding " a" writes "a, a", which parses as ["a", "a"] |
| ConnectorIds.IdsOfWellFormed | StaticCatalogStore.java:248-250 | the ids read from any property map (an absent property is empty) are duplicate-free and clean |
| Announcements.PrestoIndex | StaticCatalogStore.java:272-276 | the search stops at the first announcement of type "presto", or past the end when there is none |
| Announcements.FindPresto | StaticCatalogStore.java:270-278 | `getPrestoAnnouncement`, with None for its exception; `PrestoIndex` and `FindPrestoIff` state which announcement it returns |
| Announcements.FindPrestoIff | StaticCatalogStore.java:270-278 | an announcement is found exactly when one has type "presto", and the one found is of that type |
| Announcements.FreshId | StaticCatalogStore.java:265 | the id of the new announcement differs from every id present |
| Announcements.CopyOtherProperties | StaticCatalogStore.java:258-262 | the builder receives every property except `connectorIds`, each with its value |
| Announcements.CopiedIsEdited | StaticCatalogStore.java:257-263 | the copied properties plus the rewritten `connectorIds` are the edited property map |
| Announcements.RemoveByIdOne | StaticCatalogStore.java:264 | removing by id removes exactly that announcement when ids are unique |
| Announcements.ReplacePresto | StaticCatalogStore.java:264-265 | with one presto announcement, removing it and adding the rebuilt one leaves the rebuilt one as the only presto announcement |
| Announcements.Republish | StaticCatalogStore.java:245-266 | `updateConnectorIds` on the announcements: the presto announcement is removed by id and its rebuilt copy is added; `RepublishFacts`, `RepublishIds` and `RepublishIdsElems` state the result |
| Announcements.RepublishFacts | StaticCatalogStore.java:245-278 | `updateConnectorIds` fails exactly when no announcement has type "presto"; otherwise the old id is gone, ids stay unique, the presto count is kept, and the new last announcement has the old type, every other property verbatim and the edited `connectorIds` |
| Announcements.RepublishIds | StaticCatalogStore.java:245-266 | with one presto announcement and a clean name, the advertised ids become exactly the edited list |
| Announcements.RepublishIdsElems | StaticCatalogStore.java:245-266 | with one presto announcement, unique ids and a clean name, the advertised ids after the edit are the old ones plus the name (ADD) or minus it (DELETE), and one presto announcement and unique ids are kept |
| Announcements.RepublishAllIds | StaticCatalogStore.java:126-143 | a sequence of edits on clean names never fails, and a name is advertised afterwards exactly as its edits, applied in order, say |
| Announcements.AdvertisedAfterAdds | StaticCatalogStore.java:126-128 | after the add loop's edits a name is advertised when it was before or was added |
| Announcements.AdvertisedAfterReplacements | StaticCatalogStore.java:132-135 | after the update loop's delete-then-add edits a name is advertised when it was before or was updated |
| Announcements.AdvertisedAfterDeletes | StaticCatalogStore.java:140-143 | after the delete loop's edits a name is advertised when it was before and was not deleted |
| Lifecycle.AddCallsCount | StaticCatalogStore.java:126-128 | the add loop creates each of its names exactly once, from that name's line, and drops nothing |
| Lifecycle.AddCallsAt | StaticCatalogStore.java:126-128 | the i-th call of the add loop creates the i-th name from its line's fields |
| Lifecycle.UpdateCallsCount | StaticCatalogStore.java:132-135 | the update loop creates and drops each of its names exactly once |
| Lifecycle.UpdateCallsAdjacent | StaticCatalogStore.java:185-189 | an updated name's drop is followed immediately by its create from the new line |
| Lifecycle.DropCallsCount | StaticCatalogStore.java:140-143 | the delete loop drops each of its names exactly once and creates nothing |
| Diff.LastDiffering | StaticCatalogStore.java:116-118 | the result is the last record of the name whose line differs from the stored one, or -1 when there is none |
| Diff.Step | StaticCatalogStore.java:109-119 | one pass of the classification loop; the `Classify*` lemmas state what the passes add up to |
| Diff.Classify | StaticCatalogStore.java:107-120 | the classification loop over all records, as a fold of `Step`; `ClassifyFailsIff`, `ClassifyRemote`, `ClassifyView` and `ClassifyUpdate` state its result |
| Diff.ClassifyFailsIff | StaticCatalogStore.java:108-110 | classification fails exactly when some record has no first field |
| Diff.ClassifyRemote | StaticCatalogStore.java:111 | `remoteCatalog` holds the first field of every record, in listing order |
| Diff.ClassifyView | StaticCatalogStore.java:112-115 | the map afterwards holds the old names plus the listed ones, keeps every old line, and `newCatalog` is exactly the listed names that were not stored, with the lines the map got |
| Diff.ClassifyFirstRecord | StaticCatalogStore.java:112-115 | the first record of a new name is the line stored for it |
| Diff.ClassifyViewNew | StaticCatalogStore.java:112-115 | a newly stored name is stored with one of its own records |
| Diff.ClassifyUpdate | StaticCatalogStore.java:116-118 | a name is in `updateCatalog` exactly when it is stored and some record of it differs from its stored line, and then its entry is the last such record |
| Diff.ClassifyListed | StaticCatalogStore.java:108-119 | a name all of whose records carry one line is new exactly when it was not stored, and to be updated exactly when it was stored with a different line; the update entry is that line |
| Diff.ClassifyUnlisted | StaticCatalogStore.java:108-119 | a name no record carries is neither remote, new nor to be updated, and the map keeps it only if it had it |
| Diff.ClassifyKeysMatch | StaticCatalogStore.java:110-118 | every line classified is stored under its own first field, and the map keeps that invariant |
| Reconcile.UpdateIds | StaticCatalogStore.java:245-266 | `updateConnectorIds` as a step of the store's state, failing when no presto announcement exists; `UpdateIdsFacts` states what it keeps |
| Reconcile.UpdateIdsFacts | StaticCatalogStore.java:245-266 | `updateConnectorIds` fails with "Presto announcement not found" exactly when none has type presto; it touches neither the map nor the calls, and keeps ids unique and the presto count |
| Reconcile.AddOne | StaticCatalogStore.java:170-183 | `addCatalog`: decode, create, then the ADD edit, stopping at the first exception; `AddOneKeeps` states what it keeps |
| Reconcile.AddOneKeeps | StaticCatalogStore.java:170-183 | `addCatalog` leaves `catalogMap` alone, only appends calls, and keeps ids unique and the presto count |
| Reconcile.DeleteOne | StaticCatalogStore.java:158-167 | `deleteCatalog`: nothing for a null line, otherwise the first field, the drop and the DELETE edit; `DeleteOneKeeps` states what it keeps |
| Reconcile.DeleteOneKeeps | StaticCatalogStore.java:158-167 | `deleteCatalog` leaves `catalogMap` alone, only appends calls, and keeps ids unique and the presto count |
| Reconcile.UpdateOne | StaticCatalogStore.java:185-189 | `updateCatalog`: `deleteCatalog` and then `addCatalog` of the same line; `UpdateOneKeeps` states what it keeps |
| Reconcile.UpdateOneKeeps | StaticCatalogStore.java:185-189 | `updateCatalog` leaves `catalogMap` alone, only appends calls, and keeps ids unique and the presto count |
| Reconcile.AddAll | StaticCatalogStore.java:126-128 | the add loop over an iteration order, stopping at the first exception; the `AddAll*` lemmas state its result |
| Reconcile.AddAllKeeps | StaticCatalogStore.java:126-128 | however the add loop ends, the map is unchanged, calls are only appended, and ids stay unique |
| Reconcile.AddAllCalls | StaticCatalogStore.java:126-128 | a completed add loop issued exactly one create per name, in loop order |
| Reconcile.AddAllAnnouncements | StaticCatalogStore.java:126-128 | a completed add loop applied exactly one ADD edit per name, in loop order |
| Reconcile.AddAllPassIff | StaticCatalogStore.java:126-128 | the add loop completes exactly when every line decodes, the manager accepts every create, and every ADD edit finds a presto announcement |
| Reconcile.AddAllUntouched | StaticCatalogStore.java:126-128 | however the add loop ends, a name it does not visit gets no create and no drop and keeps its stored line |
| Reconcile.UpdateAll | StaticCatalogStore.java:132-135 | the update loop, storing each new line after its update; the `UpdateAll*` lemmas state its result |
| Reconcile.UpdateAllKeeps | StaticCatalogStore.java:132-135 | however the update loop ends, calls are only appended and ids stay unique |
| Reconcile.UpdateAllStores | StaticCatalogStore.java:132-135 | however the update loop ends, no key is lost, every entry is its old line or its new one, and lines still name their keys |
| Reconcile.UpdateAllCalls | StaticCatalogStore.java:132-135 | a completed update loop issued, per name in loop order, a drop and then a create from the new line |
| Reconcile.UpdateAllAnnouncements | StaticCatalogStore.java:132-135 | a completed update loop applied, per name, a DELETE then an ADD edit |
| Reconcile.UpdateAllMap | StaticCatalogStore.java:132-135 | a completed update loop stores each updated name's new line and keeps every other entry |
| Reconcile.UpdateAllPassIff | StaticCatalogStore.java:132-135 | the update loop completes exactly when every line decodes, the manager accepts every call, and every edit finds a presto announcement |
| Reconcile.UpdateAllUntouched | StaticCatalogStore.java:132-135 | however the update loop ends, a name it does not visit gets no create and no drop and keeps its stored line |
| Reconcile.DeleteAll | StaticCatalogStore.java:140-143 | the delete loop, removing each name after its drop; the `DeleteAll*` lemmas state its result |
| Reconcile.DeleteAllKeeps | StaticCatalogStore.java:140-143 | however the delete loop ends, calls are only appended, entries are only removed, and ids stay unique |
| Reconcile.DeleteAllMap | StaticCatalogStore.java:140-143 | a completed delete loop removes exactly its names from the map |
| Reconcile.DeleteAllCalls | StaticCatalogStore.java:140-143 | a completed delete loop issued one drop per name, of the name its stored line carries, in loop order |
| Reconcile.DeleteAllAnnouncements | StaticCatalogStore.java:140-143 | a completed delete loop applied one DELETE edit per name |
| Reconcile.DeleteAllPassIff | StaticCatalogStore.java:140-143 | the delete loop completes exactly when the manager accepts every drop and every edit finds a presto announcement |
| Reconcile.DeleteAllUntouched | StaticCatalogStore.java:140-143 | however the delete loop ends, a name it does not visit gets no create and no drop and keeps its stored line |
| TimerTask.Reconciled | StaticCatalogStore.java:124-143 | the three loops of one run after classification, each started only when the one before completed; the `TimerTask` lemmas state its result |
| TimerTask.CompletedIff | StaticCatalogStore.java:124-143 | a run completes exactly when every line to add or update decodes, the manager accepts all the run's calls, and all its edits find a presto announcement |
| TimerTask.CompletedCalls | StaticCatalogStore.java:124-143 | a completed run appended the creates of the add loop, then the drop/create pairs of the update loop, then the drops of the delete loop |
| TimerTask.CompletedAnnouncements | StaticCatalogStore.java:124-143 | a completed run applied the add edits, then the update edits, then the delete edits |
| TimerTask.CompletedMap | StaticCatalogStore.java:124-143 | after a completed run the map holds exactly the listed names, each with its updated line or else its classified line, and every line names its key |
| TimerTask.CompletedKeys | StaticCatalogStore.java:108-143 | after a completed run the keys of `catalogMap` are exactly the names some record of the listing carries |
| TimerTask.CompletedCounts | StaticCatalogStore.java:124-143 | per name, a completed run creates once if it was new and once if it changed, and drops once if it changed and once if it was removed |
| TimerTask.CompletedIds | StaticCatalogStore.java:124-143 | with one presto announcement, unique ids and clean names, no edit fails, and a completed run advertises the old ids plus the new and changed names, minus the removed ones |
| TimerTask.RunUnchanged | StaticCatalogStore.java:112-143 | for every outcome of a run, completed or aborted by an exception, a stored name listed only with its stored line is neither created nor dropped, keeps its line, and no announcement edit names it |
| TimerTask.RunUntouched | StaticCatalogStore.java:124-143 | for every outcome of the three loops, a name that is not new, not changed and not removed gets no create and no drop, and keeps the line classification left for it |
| TimerTask.CompletedAdd | StaticCatalogStore.java:112-128 | an unstored name listed with one line is created once, from that line's fields, never dropped (so not deleted in the same run), and stored with that line |
| TimerTask.CompletedChange | StaticCatalogStore.java:116-135 | a stored name listed with one different line is dropped and then immediately created from the new line's fields, once each, and stored with the new line |
| TimerTask.CompletedDelete | StaticCatalogStore.java:137-143 | a stored name no record carries is dropped once, never created, and removed from the map |
| TimerTask.RunKeeps | StaticCatalogStore.java:99-148 | however a run ends, calls are only appended, every line still names its key, and ids stay unique with the presto count kept |
| LocalLoad.LoadCall | StaticCatalogStore.java:229 | the create issued for one file: its base name, its `connector.name` and its other properties |
| LocalLoad.LoadCalls | StaticCatalogStore.java:87-91 | the creates issued while loading the files in order; `LoadCallsSkipDisabled`, `LoadCallsCreateEach` and `LoadCallsFromFiles` state which |
| LocalLoad.LoadCallsSkipDisabled | StaticCatalogStore.java:209-212 | loading never creates a disabled catalog, and issues only creates |
| LocalLoad.LoadCallsCreateEach | StaticCatalogStore.java:227-229 | every catalog file that is not disabled and has `connector.name` gets its create |
| LocalLoad.LoadCallsFromFiles | StaticCatalogStore.java:87-91 | conversely, every create comes from a regular, not disabled `.properties` file that has `connector.name`, and is that file's create |
| LocalLoad.LoadRecords | StaticCatalogStore.java:218-224 | `catalogMap` after loading the files in order; `LoadRecordsKeys`, `LoadRecordsStoresMysql` and `LoadRecordsKeysMatch` state its contents |
| LocalLoad.LoadRecordsKeys | StaticCatalogStore.java:218-225 | after loading, `catalogMap` holds its old names plus the names of the loaded mysql catalogs, and keeps the other old lines |
| LocalLoad.LoadRecordsStoresMysql | StaticCatalogStore.java:218-224 | a loaded mysql catalog is stored under its file's base name with its encoded line |
| LocalLoad.LoadRecordsKeysMatch | StaticCatalogStore.java:219-224 | lines stored by loading name their own keys |
| CatalogStore.Listing | StaticCatalogStore.java:106-107 | the fetched text split into records on `\1`, as `Strings.Split` says |
| CatalogStore.StaticCatalogStore.constructor | StaticCatalogStore.java:64-73 | a new store has both flags clear, an empty map and no calls |
| CatalogStore.StaticCatalogStore.Invoke | StaticCatalogStore.java:180 | a call to the connector manager is recorded, and the manager's verdict on it is returned |
| CatalogStore.StaticCatalogStore.UpdateConnectorIds | StaticCatalogStore.java:245-266 | the method changes the announcements as `Reconcile.UpdateIds` says, and keeps ids unique |
| CatalogStore.StaticCatalogStore.AddCatalog | StaticCatalogStore.java:170-183 | the method does what `Reconcile.AddOne` says: decode, create, then ADD edit, stopping at the first failure |
| CatalogStore.StaticCatalogStore.DeleteCatalog | StaticCatalogStore.java:158-167 | the method does what `Reconcile.DeleteOne` says: nothing for a null line; otherwise the line's first field (failing when it has none), the drop, then the DELETE edit |
| CatalogStore.StaticCatalogStore.UpdateCatalog | StaticCatalogStore.java:185-189 | the method does what `Reconcile.UpdateOne` says: deleteCatalog and then addCatalog of the same line |
| CatalogStore.StaticCatalogStore.AddLoop | StaticCatalogStore.java:126-128 | the loop ends with the outcome and state that `Reconcile.AddAll` gives |
| CatalogStore.StaticCatalogStore.UpdateLoop | StaticCatalogStore.java:132-135 | the loop ends with the outcome and state that `Reconcile.UpdateAll` gives, storing each new line after its update |
| CatalogStore.StaticCatalogStore.DeleteLoop | StaticCatalogStore.java:140-143 | the loop ends with the outcome and state that `Reconcile.DeleteAll` gives, removing each name after its drop |
| CatalogStore.StaticCatalogStore.ClassifyLoop | StaticCatalogStore.java:108-120 | the loop computes `Diff.Classify` of the stored map and leaves the classified map in `catalogMap`; on a record without a first field it stops there, leaving the names stored before it |
| CatalogStore.StaticCatalogStore.RunLoops | StaticCatalogStore.java:124-143 | the three loops, over some iteration order of each map, end as `TimerTask.Reconciled` says |
| CatalogStore.StaticCatalogStore.Tick | StaticCatalogStore.java:99-153 | a failed fetch changes nothing; an unnamed record aborts during classification with the calls and announcements untouched; otherwise the run ends as `TimerTask.Reconciled` says |
| CatalogStore.StaticCatalogStore.LoadCatalog | StaticCatalogStore.java:205-231 | a disabled catalog is skipped; a mysql catalog's line is stored; a missing `connector.name` fails before any create; otherwise exactly one create is issued |
| CatalogStore.StaticCatalogStore.LoadCatalogs | StaticCatalogStore.java:80-93 | only the first call does anything; it issues the creates of `LocalLoad.LoadCalls` and stores the lines of `LocalLoad.LoadRecords` for every file up to and including the first one that fails, and sets the loaded flag only when all files succeed |
| CatalogStore.IterationOrder | StaticCatalogStore.java:126 | the order lists every key of the map exactly once |

## Left out

- `catalogstr()` (lines 192-203): the HTTPS request is network I/O. Its body,
  or its `IOException`, is the `Fetch` parameter of `Tick`.
- `listFiles` and `loadProperties` (lines 87, 215, 233-242): these read the
  file system. `LoadCatalogs` takes the directory's entries as a sequence of
  `CatalogFile`, each with its name, whether it is a regular file, and its
  properties.
- `java.util.Timer` (lines 95-96, 154): the delay and period are not modelled.
  One call of `Tick` is one firing of the `TimerTask`. An exception escaping the
  `TimerTask` ends the timer's thread; the model only reports it as `Aborted`.
- `AtomicBoolean` (lines 49-50, 83): the flags are plain booleans. Only the
  sequential "the first call loads" behaviour is modelled.
- `areCatalogsLoaded` (lines 75-78) is a field read: `catalogsLoaded`.
- `ConnectorManager` and `Announcer`: their internals are not modelled. The
  connector manager is the `accepts` verdict. The announcer is its sequence of
  announcements.
- The random UUID of a rebuilt announcement is modelled by `FreshId`.
- Logging and `printStackTrace` (lines 98, 125, 131, 139, 150-151).
- The injected constructor (lines 56-62) and the configuration object: the
  model has only the plain constructor.
- Clearing the three temporary collections (lines 146-148): they are locals of
  one run.
- Java's `split` takes a regular expression. The model covers only the
  one-character, non-metacharacter case that `\1` and `\2` use.
- The per-name lemmas of `TimerTask` and `CompletedIds` require `Listed`: the
  run's classification succeeded and every stored line names its key. This
  invariant holds for every line the store writes (`Diff.ClassifyKeysMatch`,
  `LocalLoad.LoadRecordsKeysMatch`), but the class does not carry it in
  `Valid()`.
- `TimerTask.CompletedIds`: requires catalog names that survive the
  `connectorIds` round trip (non-empty, comma-free, no whitespace at either
  end). For other names the Guava splitter would trim or split them, and that
  case is not stated.
- `ConnectorIds.EditIdsWellFormed`: requires a clean name (non-empty,
  comma-free, no whitespace at either end). For other names the code does not
  keep the ids clean: ADD of "" writes an empty entry that the next read drops,
  and ADD of " a" beside "a" writes an entry that reads back as a second "a"
  (`ConnectorIds.UncleanNamesBreakIds`).
- `Announcements.RepublishIdsElems`: requires a clean name, for the same
  reason; with an unclean name the advertised ids can differ from the old ones plus
  the name.
- The order of the announcer's set is not modelled. With several presto
  announcements, which one `getPrestoAnnouncement` returns depends on that
  order; the model returns the first in its sequence, and every lemma about
  the advertised ids assumes exactly one presto announcement.
- `CatalogStore.StaticCatalogStore.Tick`: its `ensures` ties a run to
  `TimerTask.Reconciled` over the iteration orders it returns. What a
  completed run does to each name is stated by the `TimerTask` lemmas, not
  in `Tick`'s own contract. `Tick` requires only `Valid()`: the model does
  not record that the timer starts only after a successful `loadCatalogs`
  (line 93), nor that an `Aborted` run ends the timer's thread, so it lets
  `Tick` be called before loading and again after an aborted run.
