/**
 `StaticCatalogStore`: the catalog map, the two loading flags, and the calls
 the store makes to its two collaborators. The connector manager is a verdict
 on each call given the calls before it (a rejected call is issued and then
 its exception escapes); the announcer is its sequence of announcements.

 Every method that the remote reconciliation uses is proved equal to the
 function of `Reconcile` or `TimerTask` that specifies it, applied to the
 state the method started from; the lemmas of those modules then say what
 the method did.
 */
module CatalogStore {
  import opened Options
  import opened Sequences
  import opened Strings
  import opened CatalogRecord
  import opened ConnectorIds
  import opened Announcements
  import opened Lifecycle
  import opened LocalLoad
  import opened Failures
  import opened Diff
  import opened Reconcile
  import opened TimerTask

  /** The body `catalogstr()` returns, or the IOException it throws. */
  datatype Fetch = Body(text: string) | TransportError

  /** How one run of the timer task ends: normally, in its IOException handler,
      or with an exception escaping it. */
  datatype TickOutcome = Completed | FetchFailed | Aborted(failure: Failure)

  /** `catalogStr.split(c_split)`. */
  function Listing(text: string): seq<string>
  {
    Split(text, RecordSep)
  }

  /** A run whose loops ended with `o`. */
  function Ended(o: Outcome): TickOutcome
  {
    match o
    case Pass => Completed
    case Fail(f) => Aborted(f)
  }

  class StaticCatalogStore {
    const disabledCatalogs: set<string>
    /** The connector manager: whether it accepts `call` after the calls it has seen. */
    const accepts: (seq<Call>, Call) -> bool
    var catalogsLoading: bool
    var catalogsLoaded: bool
    /** Catalog name to canonical line, for the catalogs under remote reconciliation. */
    var catalogMap: map<string, string>
    /** Every call issued to the connector manager, in order. */
    var calls: seq<Call>
    /** The announcer's service announcements. */
    var announcements: seq<Announcement>

    /** The loaded flag is only set once loading has started, and the announcer
        keeps one id per announcement. */
    ghost predicate Valid()
      reads this
    {
      (catalogsLoaded ==> catalogsLoading) && DistinctIds(announcements)
    }

    /** The part of the store that the remote reconciliation works on. */
    ghost function Snapshot(): State
      reads this
    {
      State(catalogMap, calls, announcements)
    }

    constructor (disabledCatalogs: set<string>, accepts: (seq<Call>, Call) -> bool, announcements: seq<Announcement>)
      requires DistinctIds(announcements)
      ensures Valid()
      ensures this.disabledCatalogs == disabledCatalogs && this.accepts == accepts
      ensures this.announcements == announcements
      ensures !catalogsLoading && !catalogsLoaded && catalogMap == map[] && calls == []
    {
      this.disabledCatalogs := disabledCatalogs;
      this.accepts := accepts;
      this.announcements := announcements;
      catalogsLoading, catalogsLoaded := false, false;
      catalogMap, calls := map[], [];
    }

    /** One call to the connector manager. */
    method Invoke(call: Call) returns (accepted: bool)
      modifies this`calls
      ensures calls == old(calls) + [call]
      ensures accepted == accepts(old(calls), call)
    {
      accepted := accepts(calls, call);
      calls := calls + [call];
    }

    /** `updateConnectorIds`: rewrite the `connectorIds` property of the presto
        announcement by removing it and adding a rebuilt copy. */
    method UpdateConnectorIds(catalogName: string, action: CatalogAction) returns (outcome: Outcome)
      requires Valid()
      modifies this`announcements
      ensures Valid()
      ensures After(outcome, Snapshot()) == UpdateIds(old(Snapshot()), catalogName, action)
    {
      var found := FindPresto(announcements);
      if found.None? {
        return Fail(PrestoAnnouncementNotFound);
      }
      var announcement := found.value;
      var property := if ConnectorIdsKey in announcement.properties then announcement.properties[ConnectorIdsKey] else "";
      var connectorIds := Dedup(ParseIds(property));
      if action == DELETE {
        connectorIds := RemoveId(connectorIds, catalogName);
      } else {
        connectorIds := AddId(connectorIds, catalogName);
      }
      assert connectorIds == EditIds(IdsOf(announcement.properties), catalogName, action);
      var copied := CopyOtherProperties(announcement.properties);
      var properties := copied[ConnectorIdsKey := JoinIds(connectorIds)];
      CopiedIsEdited(announcement.properties, copied, catalogName, action);
      var rebuilt := Announcement(FreshId(announcements), announcement.serviceType, properties);
      ghost var before := announcements;
      announcements := RemoveById(announcements, announcement.id);
      announcements := announcements + [rebuilt];
      assert announcements == Republish(before, catalogName, action).value;
      RepublishFacts(before, catalogName, action);
      outcome := Pass;
    }

    /** `addCatalog`: create a mysql connection from the fields of the line, then
        add the name to the announcement. */
    method AddCatalog(catalogLine: string) returns (outcome: Outcome)
      requires Valid()
      modifies this`calls, this`announcements
      ensures Valid()
      ensures After(outcome, Snapshot()) == AddOne(accepts, old(Snapshot()), catalogLine)
    {
      var catalogInfo := Fields(catalogLine);
      if |catalogInfo| < 4 {
        return Fail(IndexOutOfBounds);
      }
      var catalogName := catalogInfo[0];
      var properties := map[UrlKey := catalogInfo[1], UserKey := catalogInfo[2], PasswordKey := catalogInfo[3]];
      var call := Create(catalogName, MysqlConnector, properties);
      assert call == CreateFor(Decode(catalogLine).value);
      var accepted := Invoke(call);
      if !accepted {
        return Fail(Rejected(call));
      }
      outcome := UpdateConnectorIds(catalogName, ADD);
    }

    /** `deleteCatalog`: skip a null line; otherwise drop the connection named
        by the line's first field, then remove that name from the announcement. */
    method DeleteCatalog(catalogLine: Option<string>) returns (outcome: Outcome)
      requires Valid()
      modifies this`calls, this`announcements
      ensures Valid()
      ensures After(outcome, Snapshot()) == DeleteOne(accepts, old(Snapshot()), catalogLine)
    {
      if catalogLine.None? {
        return Pass;
      }
      var catalogInfo := Fields(catalogLine.value);
      if |catalogInfo| == 0 {
        return Fail(IndexOutOfBounds);
      }
      var catalogName := catalogInfo[0];
      var accepted := Invoke(Drop(catalogName));
      if !accepted {
        return Fail(Rejected(Drop(catalogName)));
      }
      outcome := UpdateConnectorIds(catalogName, DELETE);
    }

    /** `updateCatalog`: `deleteCatalog` then `addCatalog` of the same line. */
    method UpdateCatalog(catalogLine: string) returns (outcome: Outcome)
      requires Valid()
      modifies this`calls, this`announcements
      ensures Valid()
      ensures After(outcome, Snapshot()) == UpdateOne(accepts, old(Snapshot()), catalogLine)
    {
      outcome := DeleteCatalog(Some(catalogLine));
      if outcome.Fail? {
        return;
      }
      outcome := AddCatalog(catalogLine);
    }

    /** The loop of lines 126-128: `addCatalog` of the line of every new name,
        in the order the map hands its keys out. */
    method AddLoop(newCatalog: map<string, string>, names: seq<string>) returns (outcome: Outcome)
      requires Valid()
      requires AllKeys(names, newCatalog)
      modifies this`calls, this`announcements
      ensures Valid()
      ensures After(outcome, Snapshot()) == AddAll(accepts, old(Snapshot()), newCatalog, names)
    {
      ghost var s0 := Snapshot();
      var i := 0;
      while i < |names|
        invariant 0 <= i <= |names|
        invariant Valid() && catalogMap == s0.catalogMap
        invariant AllKeys(names[i..], newCatalog)
        invariant AddAll(accepts, s0, newCatalog, names) == AddAll(accepts, Snapshot(), newCatalog, names[i..])
      {
        assert names[i..][1..] == names[i + 1..];
        var added := AddCatalog(newCatalog[names[i]]);
        if added.Fail? {
          return added;
        }
        i := i + 1;
      }
      outcome := Pass;
    }

    /** The loop of lines 132-135: `updateCatalog` of the line of every changed
        name, each followed by storing that line in `catalogMap`. */
    method UpdateLoop(updateCatalog: map<string, string>, names: seq<string>) returns (outcome: Outcome)
      requires Valid()
      requires AllKeys(names, updateCatalog)
      modifies this`calls, this`announcements, this`catalogMap
      ensures Valid()
      ensures After(outcome, Snapshot()) == UpdateAll(accepts, old(Snapshot()), updateCatalog, names)
    {
      ghost var s0 := Snapshot();
      var i := 0;
      while i < |names|
        invariant 0 <= i <= |names|
        invariant Valid()
        invariant AllKeys(names[i..], updateCatalog)
        invariant UpdateAll(accepts, s0, updateCatalog, names) == UpdateAll(accepts, Snapshot(), updateCatalog, names[i..])
      {
        assert names[i..][1..] == names[i + 1..];
        var catalogname := names[i];
        var updated := UpdateCatalog(updateCatalog[catalogname]);
        if updated.Fail? {
          return updated;
        }
        catalogMap := catalogMap[catalogname := updateCatalog[catalogname]];
        i := i + 1;
      }
      outcome := Pass;
    }

    /** The loop of lines 140-143: `deleteCatalog` of the stored line of every
        name to delete, each followed by removing the name from `catalogMap`. */
    method DeleteLoop(names: seq<string>) returns (outcome: Outcome)
      requires Valid()
      modifies this`calls, this`announcements, this`catalogMap
      ensures Valid()
      ensures After(outcome, Snapshot()) == DeleteAll(accepts, old(Snapshot()), names)
    {
      ghost var s0 := Snapshot();
      var i := 0;
      while i < |names|
        invariant 0 <= i <= |names|
        invariant Valid()
        invariant DeleteAll(accepts, s0, names) == DeleteAll(accepts, Snapshot(), names[i..])
      {
        assert names[i..][1..] == names[i + 1..];
        var catalogname := names[i];
        var line := if catalogname in catalogMap then Some(catalogMap[catalogname]) else None;
        var deleted := DeleteCatalog(line);
        if deleted.Fail? {
          return deleted;
        }
        catalogMap := catalogMap - {catalogname};
        i := i + 1;
      }
      outcome := Pass;
    }

    /** The classification loop of lines 108-120, writing new names into
        `catalogMap` as it goes and stopping at the first record without a
        first field. */
    method ClassifyLoop(records: seq<string>) returns (result: Option<Classification>, ghost failedAt: nat)
      modifies this`catalogMap
      ensures result == Classify(old(catalogMap), records)
      ensures result.Some? ==> catalogMap == result.value.view
      ensures result.None? ==>
        && failedAt < |records| && NameOf(records[failedAt]).None?
        && Classify(old(catalogMap), records[..failedAt]).Some?
        && catalogMap == Classify(old(catalogMap), records[..failedAt]).value.view
    {
      ghost var view0 := catalogMap;
      failedAt := 0;
      var newCatalog: map<string, string> := map[];
      var updateCatalog: map<string, string> := map[];
      var remote: seq<string> := [];
      var i := 0;
      while i < |records|
        invariant 0 <= i <= |records|
        invariant Classify(view0, records[..i]) == Some(Classification(newCatalog, updateCatalog, remote, catalogMap))
      {
        var catalogLine := records[i];
        assert records[..i + 1][..i] == records[..i];
        var catalogInfo := Fields(catalogLine);
        if |catalogInfo| == 0 {
          failedAt := i;
          ClassifyFailsIff(view0, records);
          assert NameOf(records[i]).None?;
          return None, failedAt;
        }
        var catalogName := catalogInfo[0];
        remote := remote + [catalogName];
        if catalogName !in catalogMap {
          newCatalog := newCatalog[catalogName := catalogLine];
          catalogMap := catalogMap[catalogName := catalogLine];
        } else if catalogMap[catalogName] != catalogLine {
          updateCatalog := updateCatalog[catalogName := catalogLine];
        }
        i := i + 1;
      }
      assert records[..i] == records;
      result := Some(Classification(newCatalog, updateCatalog, remote, catalogMap));
    }

    /** Lines 124-143: the add, the update and the delete loop, each in some
        iteration order of its key set, from the state the classification
        loop left. A loop the run does not reach still gets an order, so that
        `Reconciled` can be stated for every run. */
    method RunLoops(c: Classification) returns (outcome: Outcome, addOrder: seq<string>, updateOrder: seq<string>,
                                               deleteOrder: seq<string>)
      requires Valid()
      requires catalogMap == c.view
      requires forall n :: n in c.updateCatalog ==> n in c.view
      modifies this`catalogMap, this`calls, this`announcements
      ensures Valid()
      ensures Orders(c, addOrder, updateOrder, deleteOrder)
      ensures After(outcome, Snapshot()) == Reconciled(accepts, old(Snapshot()), c, addOrder, updateOrder, deleteOrder)
    {
      addOrder := IterationOrder(c.newCatalog.Keys);
      EnumeratesAllKeys(addOrder, c.newCatalog);
      updateOrder := IterationOrder(c.updateCatalog.Keys);
      EnumeratesAllKeys(updateOrder, c.updateCatalog);
      outcome := AddLoop(c.newCatalog, addOrder);
      if outcome.Fail? {
        deleteOrder := IterationOrder(Removed(c));
        return;
      }
      ghost var s1 := Snapshot();
      outcome := UpdateLoop(c.updateCatalog, updateOrder);
      if outcome.Fail? {
        deleteOrder := IterationOrder(Removed(c));
        return;
      }
      UpdateAllStores(accepts, s1, c.updateCatalog, updateOrder);
      assert forall n :: n in catalogMap <==> n in c.view;
      var removed := set k | k in catalogMap && k !in c.remote;
      RemovedFrom(c, catalogMap);
      deleteOrder := IterationOrder(removed);
      outcome := DeleteLoop(deleteOrder);
    }

    /** One run of the timer task (lines 99-152): fetch the listing, classify
        its records, then run the three loops. A failed fetch changes
        nothing; a record without a first field stops the run in the
        classification loop; otherwise the run does what `Reconciled` says. */
    method Tick(fetched: Fetch) returns (outcome: TickOutcome, addOrder: seq<string>, updateOrder: seq<string>,
                                         deleteOrder: seq<string>, ghost failedAt: nat)
      requires Valid()
      modifies this`catalogMap, this`calls, this`announcements
      ensures Valid()
      ensures fetched.TransportError? ==> outcome == FetchFailed && Snapshot() == old(Snapshot())
      ensures fetched.Body? ==>
        var records := Listing(fetched.text);
        match Classify(old(catalogMap), records)
        case None =>
          && outcome == Aborted(IndexOutOfBounds)
          && failedAt < |records| && NameOf(records[failedAt]).None?
          && Classify(old(catalogMap), records[..failedAt]).Some?
          && catalogMap == Classify(old(catalogMap), records[..failedAt]).value.view
          && calls == old(calls) && announcements == old(announcements)
        case Some(c) =>
          && Orders(c, addOrder, updateOrder, deleteOrder)
          && var r := Reconciled(accepts, old(Snapshot()), c, addOrder, updateOrder, deleteOrder);
             Snapshot() == r.state && outcome == Ended(r.outcome)
    {
      addOrder, updateOrder, deleteOrder, failedAt := [], [], [], 0;
      if fetched.TransportError? {
        return FetchFailed, addOrder, updateOrder, deleteOrder, failedAt;
      }
      var records := Listing(fetched.text);
      ghost var s0 := Snapshot();
      var classified;
      classified, failedAt := ClassifyLoop(records);
      if classified.None? {
        return Aborted(IndexOutOfBounds), addOrder, updateOrder, deleteOrder, failedAt;
      }
      ClassifyUpdate(s0.catalogMap, records);
      var ended;
      ended, addOrder, updateOrder, deleteOrder := RunLoops(classified.value);
      outcome := Ended(ended);
    }

    /** `loadCatalog`: skip a disabled catalog; store the line of a mysql
        catalog; fail without `connector.name`; otherwise create the connection. */
    method LoadCatalog(file: CatalogFile) returns (outcome: Outcome)
      requires Valid()
      modifies this`catalogMap, this`calls
      ensures Valid()
      ensures CatalogName(file) in disabledCatalogs ==>
        outcome == Pass && catalogMap == old(catalogMap) && calls == old(calls)
      ensures CatalogName(file) !in disabledCatalogs && ConnectorNameKey !in file.properties ==>
        outcome == Fail(MissingConnectorName(CatalogName(file)))
        && catalogMap == old(catalogMap) && calls == old(calls)
      ensures CatalogName(file) !in disabledCatalogs && ConnectorNameKey in file.properties ==>
        && calls == old(calls) + [LoadCall(file)]
        && outcome == (if accepts(old(calls), LoadCall(file)) then Pass else Fail(Rejected(LoadCall(file))))
        && catalogMap == if file.properties[ConnectorNameKey] == MysqlConnector
                         then old(catalogMap)[CatalogName(file) := LocalLine(CatalogName(file), ConnectorProperties(file))]
                         else old(catalogMap)
    {
      var catalogName := NameWithoutExtension(file.fileName);
      if catalogName in disabledCatalogs {
        return Pass;
      }
      var properties := file.properties - {ConnectorNameKey};
      var connectorName: Option<string> := if ConnectorNameKey in file.properties then Some(file.properties[ConnectorNameKey]) else None;
      if connectorName == Some(MysqlConnector) {
        var line := catalogName + [FieldSep] + JavaGet(properties, UrlKey) + [FieldSep]
                    + JavaGet(properties, UserKey) + [FieldSep] + JavaGet(properties, PasswordKey);
        catalogMap := catalogMap[catalogName := line];
      }
      if connectorName.None? {
        return Fail(MissingConnectorName(catalogName));
      }
      var accepted := Invoke(Create(catalogName, connectorName.value, properties));
      outcome := if accepted then Pass else Fail(Rejected(Create(catalogName, connectorName.value, properties)));
    }

    /** `loadCatalogs`: the first call loads every catalog file in order and
        stops at the first exception; any later call returns at once. */
    method LoadCatalogs(files: seq<CatalogFile>) returns (outcome: Outcome, ghost failedAt: nat)
      requires Valid()
      modifies this`catalogsLoading, this`catalogsLoaded, this`catalogMap, this`calls
      ensures Valid()
      ensures old(catalogsLoading) ==>
        && outcome == Pass && catalogsLoading && catalogsLoaded == old(catalogsLoaded)
        && catalogMap == old(catalogMap) && calls == old(calls)
      ensures !old(catalogsLoading) && outcome == Pass ==>
        && catalogsLoading && catalogsLoaded
        && calls == old(calls) + LoadCalls(files, disabledCatalogs)
        && catalogMap == LoadRecords(old(catalogMap), files, disabledCatalogs)
      ensures !old(catalogsLoading) && outcome.Fail? ==>
        && catalogsLoading && !catalogsLoaded
        && failedAt < |files| && Loaded(files[failedAt], disabledCatalogs)
        && calls == old(calls) + LoadCalls(files[..failedAt + 1], disabledCatalogs)
        && catalogMap == LoadRecords(old(catalogMap), files[..failedAt + 1], disabledCatalogs)
        && (if ConnectorNameKey in files[failedAt].properties
            then outcome.failure == Rejected(LoadCall(files[failedAt]))
            else outcome.failure == MissingConnectorName(CatalogName(files[failedAt])))
    {
      failedAt := 0;
      if catalogsLoading {
        return Pass, failedAt;
      }
      catalogsLoading := true;
      var i := 0;
      while i < |files|
        invariant 0 <= i <= |files|
        invariant Valid() && catalogsLoading && !catalogsLoaded
        invariant calls == old(calls) + LoadCalls(files[..i], disabledCatalogs)
        invariant catalogMap == LoadRecords(old(catalogMap), files[..i], disabledCatalogs)
      {
        var file := files[i];
        LoadStep(old(calls), old(catalogMap), files, i, disabledCatalogs);
        if file.isFile && EndsWith(file.fileName, PropertiesSuffix) {
          var loaded := LoadCatalog(file);
          if loaded.Fail? {
            return loaded, i;
          }
        }
        i := i + 1;
      }
      assert files[..i] == files;
      catalogsLoaded := true;
      outcome := Pass;
    }
  }

  /** The filter of line 137 over a map with the keys of the view. */
  lemma RemovedFrom(c: Classification, m: map<string, string>)
    requires forall n :: n in m <==> n in c.view
    ensures (set k | k in m && k !in c.remote) == Removed(c)
  {
  }

  /** Loading one more file appends its create, if any, and stores its line, if any. */
  lemma LoadStep(calls0: seq<Call>, map0: map<string, string>, files: seq<CatalogFile>, i: nat, disabled: set<string>)
    requires i < |files|
    ensures var f := files[i];
      && calls0 + LoadCalls(files[..i + 1], disabled)
         == calls0 + LoadCalls(files[..i], disabled)
            + (if Loaded(f, disabled) && ConnectorNameKey in f.properties then [LoadCall(f)] else [])
      && LoadRecords(map0, files[..i + 1], disabled)
         == (var before := LoadRecords(map0, files[..i], disabled);
             if Tracked(f, disabled) then before[CatalogName(f) := LocalLine(CatalogName(f), ConnectorProperties(f))]
             else before)
  {
    assert files[..i + 1][..i] == files[..i];
    AppendAssoc(calls0, LoadCalls(files[..i], disabled),
                if Loaded(files[i], disabled) && ConnectorNameKey in files[i].properties then [LoadCall(files[i])] else []);
  }

  /** Some order in which a `HashMap` or `HashSet` hands out its elements; the
      model leaves the order open. */
  method IterationOrder<K(==)>(keys: set<K>) returns (order: seq<K>)
    ensures Enumerates(order, keys)
  {
    order := [];
    var pending := keys;
    while pending != {}
      invariant pending <= keys
      invariant Distinct(order)
      invariant forall k :: k in order <==> k in keys && k !in pending
      decreases pending
    {
      var k :| k in pending;
      DistinctSnoc(order, k);
      order := order + [k];
      pending := pending - {k};
    }
  }
}
