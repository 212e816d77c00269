/**
 One run of the timer task of `loadCatalogs` after the listing has been
 fetched and split into records: the classification loop, then the add, the
 update and the delete loop, each over one iteration order of its key set.
 The lemmas say what a completed run did (the calls issued, the connector ids
 advertised, the new `catalogMap`), exactly when a run completes, and what any
 run, completed or not, preserves.
 */
module TimerTask {
  import opened Options
  import opened Sequences
  import opened Strings
  import opened CatalogRecord
  import opened ConnectorIds
  import opened Announcements
  import opened Lifecycle
  import opened Failures
  import opened Diff
  import opened Reconcile

  /** The names the delete loop visits: stored after the update loop, but not
      in the listing. */
  function Removed(c: Classification): set<string>
  {
    set k | k in c.view && k !in c.remote
  }

  /** One iteration order for each of the three loops. */
  ghost predicate Orders(c: Classification, addOrder: seq<string>, updateOrder: seq<string>, deleteOrder: seq<string>)
  {
    && Enumerates(addOrder, c.newCatalog.Keys)
    && Enumerates(updateOrder, c.updateCatalog.Keys)
    && Enumerates(deleteOrder, Removed(c))
  }

  lemma OrdersAllKeys(c: Classification, addOrder: seq<string>, updateOrder: seq<string>, deleteOrder: seq<string>)
    requires Orders(c, addOrder, updateOrder, deleteOrder)
    ensures AllKeys(addOrder, c.newCatalog) && AllKeys(updateOrder, c.updateCatalog)
  {
    EnumeratesAllKeys(addOrder, c.newCatalog);
    EnumeratesAllKeys(updateOrder, c.updateCatalog);
  }

  /** Lines 124-143, started from the state the classification loop left:
      `catalogMap` is the classification's view, and each loop runs only when
      the one before it completed. */
  ghost function Reconciled(accepts: (seq<Call>, Call) -> bool, s: State, c: Classification,
                            addOrder: seq<string>, updateOrder: seq<string>, deleteOrder: seq<string>): After
    requires Orders(c, addOrder, updateOrder, deleteOrder)
  {
    OrdersAllKeys(c, addOrder, updateOrder, deleteOrder);
    var added := AddAll(accepts, s.(catalogMap := c.view), c.newCatalog, addOrder);
    if added.outcome.Fail? then added
    else
      var updated := UpdateAll(accepts, added.state, c.updateCatalog, updateOrder);
      if updated.outcome.Fail? then updated
      else DeleteAll(accepts, updated.state, deleteOrder)
  }

  /** The calls of a completed run, in the order they are issued. */
  ghost function RunCalls(c: Classification, addOrder: seq<string>, updateOrder: seq<string>, deleteOrder: seq<string>): seq<Call>
    requires DecodableUnder(addOrder, c.newCatalog) && DecodableUnder(updateOrder, c.updateCatalog)
  {
    AddCalls(addOrder, c.newCatalog) + UpdateCalls(updateOrder, c.updateCatalog) + DropCalls(deleteOrder)
  }

  /** The `updateConnectorIds` calls of a completed run, in order. */
  function RunEdits(addOrder: seq<string>, updateOrder: seq<string>, deleteOrder: seq<string>): seq<Edit>
  {
    Edits(addOrder, ADD) + Replacements(updateOrder) + Edits(deleteOrder, DELETE)
  }

  /** What a run may assume of a listing that classified without error, when
      `catalogMap` lines name their keys. */
  ghost predicate Listed(s: State, records: seq<string>, c: Classification,
                         addOrder: seq<string>, updateOrder: seq<string>, deleteOrder: seq<string>)
  {
    Classify(s.catalogMap, records) == Some(c) && KeysMatch(s.catalogMap) && Orders(c, addOrder, updateOrder, deleteOrder)
  }

  /** The facts about the classification the three loops rely on. */
  lemma ListedFacts(s: State, records: seq<string>, c: Classification,
                    addOrder: seq<string>, updateOrder: seq<string>, deleteOrder: seq<string>)
    requires Listed(s, records, c, addOrder, updateOrder, deleteOrder)
    ensures KeysMatch(c.newCatalog) && KeysMatch(c.updateCatalog) && KeysMatch(c.view)
    ensures AllKeys(addOrder, c.newCatalog) && AllKeys(updateOrder, c.updateCatalog)
    ensures forall n :: n in c.updateCatalog ==> n in c.view
    ensures forall n :: n in c.view <==> n in s.catalogMap || n in c.remote
    ensures forall n :: n in c.newCatalog <==> n in c.remote && n !in s.catalogMap
  {
    ClassifyKeysMatch(s.catalogMap, records);
    ClassifyView(s.catalogMap, records);
    ClassifyUpdate(s.catalogMap, records);
    OrdersAllKeys(c, addOrder, updateOrder, deleteOrder);
  }

  /** The state each loop starts from, whichever loops before it completed:
      the add loop leaves `catalogMap` as the classification's view, and the
      update loop keeps its keys and lines that name their keys, so every name
      of the delete order is stored once. */
  lemma PhaseStates(accepts: (seq<Call>, Call) -> bool, s: State, records: seq<string>, c: Classification,
                    addOrder: seq<string>, updateOrder: seq<string>, deleteOrder: seq<string>)
    requires Listed(s, records, c, addOrder, updateOrder, deleteOrder)
    ensures AllKeys(addOrder, c.newCatalog) && AllKeys(updateOrder, c.updateCatalog)
    ensures var added := AddAll(accepts, s.(catalogMap := c.view), c.newCatalog, addOrder);
      var updated := UpdateAll(accepts, added.state, c.updateCatalog, updateOrder);
      && added.state.catalogMap == c.view
      && KeysMatch(updated.state.catalogMap)
      && (forall n :: n in updated.state.catalogMap <==> n in c.view)
      && StoredOnce(deleteOrder, updated.state.catalogMap)
  {
    ListedFacts(s, records, c, addOrder, updateOrder, deleteOrder);
    var added := AddAll(accepts, s.(catalogMap := c.view), c.newCatalog, addOrder);
    AddAllKeeps(accepts, s.(catalogMap := c.view), c.newCatalog, addOrder);
    var updated := UpdateAll(accepts, added.state, c.updateCatalog, updateOrder);
    UpdateAllStores(accepts, added.state, c.updateCatalog, updateOrder);
    var m := updated.state.catalogMap;
    forall i | 0 <= i < |deleteOrder| ensures deleteOrder[i] in m {
      assert deleteOrder[i] in deleteOrder;
    }
    StoredOnceOf(deleteOrder, m);
  }

  /** A completed run issues the creates of the add loop, then a drop and a
      create per changed name, then a drop per removed name, and nothing else. */
  lemma CompletedCalls(accepts: (seq<Call>, Call) -> bool, s: State, records: seq<string>, c: Classification,
                       addOrder: seq<string>, updateOrder: seq<string>, deleteOrder: seq<string>)
    requires Listed(s, records, c, addOrder, updateOrder, deleteOrder)
    ensures var r := Reconciled(accepts, s, c, addOrder, updateOrder, deleteOrder);
      r.outcome == Pass ==>
        && DecodableUnder(addOrder, c.newCatalog) && DecodableUnder(updateOrder, c.updateCatalog)
        && r.state.calls == s.calls + RunCalls(c, addOrder, updateOrder, deleteOrder)
  {
    var r := Reconciled(accepts, s, c, addOrder, updateOrder, deleteOrder);
    if r.outcome == Pass {
      ListedFacts(s, records, c, addOrder, updateOrder, deleteOrder);
      PhaseStates(accepts, s, records, c, addOrder, updateOrder, deleteOrder);
      var s0 := s.(catalogMap := c.view);
      var added := AddAll(accepts, s0, c.newCatalog, addOrder);
      var updated := UpdateAll(accepts, added.state, c.updateCatalog, updateOrder);
      AddAllCalls(accepts, s0, c.newCatalog, addOrder);
      UpdateAllCalls(accepts, added.state, c.updateCatalog, updateOrder);
      DeleteAllCalls(accepts, updated.state, deleteOrder);
      var a := AddCalls(addOrder, c.newCatalog);
      var u := UpdateCalls(updateOrder, c.updateCatalog);
      AppendAssoc(s.calls + a, u, DropCalls(deleteOrder));
      AppendAssoc(s.calls, a, u);
      AppendAssoc(s.calls, a + u, DropCalls(deleteOrder));
    }
  }

  /** A completed run applies one ADD edit per new name, a DELETE and an ADD
      per changed name and one DELETE per removed name, in that order. */
  lemma CompletedAnnouncements(accepts: (seq<Call>, Call) -> bool, s: State, records: seq<string>, c: Classification,
                               addOrder: seq<string>, updateOrder: seq<string>, deleteOrder: seq<string>)
    requires Listed(s, records, c, addOrder, updateOrder, deleteOrder)
    ensures var r := Reconciled(accepts, s, c, addOrder, updateOrder, deleteOrder);
      r.outcome == Pass ==>
        Some(r.state.announcements) == RepublishAll(s.announcements, RunEdits(addOrder, updateOrder, deleteOrder))
  {
    var r := Reconciled(accepts, s, c, addOrder, updateOrder, deleteOrder);
    if r.outcome == Pass {
      ListedFacts(s, records, c, addOrder, updateOrder, deleteOrder);
      PhaseStates(accepts, s, records, c, addOrder, updateOrder, deleteOrder);
      var s0 := s.(catalogMap := c.view);
      var added := AddAll(accepts, s0, c.newCatalog, addOrder);
      var updated := UpdateAll(accepts, added.state, c.updateCatalog, updateOrder);
      AddAllAnnouncements(accepts, s0, c.newCatalog, addOrder);
      UpdateAllAnnouncements(accepts, added.state, c.updateCatalog, updateOrder);
      DeleteAllAnnouncements(accepts, updated.state, deleteOrder);
      RepublishAllAppend(s.announcements, Edits(addOrder, ADD) + Replacements(updateOrder), Edits(deleteOrder, DELETE));
      RepublishAllAppend(s.announcements, Edits(addOrder, ADD), Replacements(updateOrder));
    }
  }

  /** After a completed run `catalogMap` holds exactly the listed names, each
      with its changed line if it had one and otherwise with the line the
      classification left, and every line still names its key. */
  lemma CompletedMap(accepts: (seq<Call>, Call) -> bool, s: State, records: seq<string>, c: Classification,
                     addOrder: seq<string>, updateOrder: seq<string>, deleteOrder: seq<string>)
    requires Listed(s, records, c, addOrder, updateOrder, deleteOrder)
    ensures var r := Reconciled(accepts, s, c, addOrder, updateOrder, deleteOrder);
      r.outcome == Pass ==>
        && (forall n :: n in r.state.catalogMap <==> n in c.remote)
        && (forall n :: n in r.state.catalogMap ==>
              n in c.view && r.state.catalogMap[n] == if n in c.updateCatalog then c.updateCatalog[n] else c.view[n])
        && KeysMatch(r.state.catalogMap)
  {
    var r := Reconciled(accepts, s, c, addOrder, updateOrder, deleteOrder);
    if r.outcome == Pass {
      ListedFacts(s, records, c, addOrder, updateOrder, deleteOrder);
      PhaseStates(accepts, s, records, c, addOrder, updateOrder, deleteOrder);
      var s0 := s.(catalogMap := c.view);
      var added := AddAll(accepts, s0, c.newCatalog, addOrder);
      var updated := UpdateAll(accepts, added.state, c.updateCatalog, updateOrder);
      UpdateAllMap(accepts, added.state, c.updateCatalog, updateOrder);
      DeleteAllMap(accepts, updated.state, deleteOrder);
      DeleteAllKeeps(accepts, updated.state, deleteOrder);
    }
  }

  /** A run completes exactly when every new and every changed line has four
      fields, the connector manager accepts every call of the run, and every
      edit finds the presto announcement. */
  lemma CompletedIff(accepts: (seq<Call>, Call) -> bool, s: State, records: seq<string>, c: Classification,
                     addOrder: seq<string>, updateOrder: seq<string>, deleteOrder: seq<string>)
    requires Listed(s, records, c, addOrder, updateOrder, deleteOrder)
    ensures Reconciled(accepts, s, c, addOrder, updateOrder, deleteOrder).outcome == Pass <==>
      && DecodableUnder(addOrder, c.newCatalog) && DecodableUnder(updateOrder, c.updateCatalog)
      && AllAccepted(accepts, s.calls, RunCalls(c, addOrder, updateOrder, deleteOrder))
      && RepublishAll(s.announcements, RunEdits(addOrder, updateOrder, deleteOrder)).Some?
  {
    ListedFacts(s, records, c, addOrder, updateOrder, deleteOrder);
    PhaseStates(accepts, s, records, c, addOrder, updateOrder, deleteOrder);
    var s0 := s.(catalogMap := c.view);
    var added := AddAll(accepts, s0, c.newCatalog, addOrder);
    var updated := UpdateAll(accepts, added.state, c.updateCatalog, updateOrder);
    var ea := Edits(addOrder, ADD);
    var er := Replacements(updateOrder);
    var ed := Edits(deleteOrder, DELETE);
    RepublishAllAppend(s.announcements, ea + er, ed);
    RepublishAllAppend(s.announcements, ea, er);
    AddAllPassIff(accepts, s0, c.newCatalog, addOrder);
    AddAllCalls(accepts, s0, c.newCatalog, addOrder);
    AddAllAnnouncements(accepts, s0, c.newCatalog, addOrder);
    UpdateAllPassIff(accepts, added.state, c.updateCatalog, updateOrder);
    UpdateAllCalls(accepts, added.state, c.updateCatalog, updateOrder);
    UpdateAllAnnouncements(accepts, added.state, c.updateCatalog, updateOrder);
    DeleteAllPassIff(accepts, updated.state, deleteOrder);
    if DecodableUnder(addOrder, c.newCatalog) && DecodableUnder(updateOrder, c.updateCatalog) {
      var a := AddCalls(addOrder, c.newCatalog);
      var u := UpdateCalls(updateOrder, c.updateCatalog);
      var d := DropCalls(deleteOrder);
      AllAcceptedAppend(accepts, s.calls, a + u, d);
      AllAcceptedAppend(accepts, s.calls, a, u);
      AppendAssoc(s.calls, a, u);
    }
  }

  /** Every edit of a run names an entry of the classification's view. */
  lemma RunEditsNames(s: State, records: seq<string>, c: Classification,
                      addOrder: seq<string>, updateOrder: seq<string>, deleteOrder: seq<string>)
    requires Listed(s, records, c, addOrder, updateOrder, deleteOrder)
    ensures forall e :: e in RunEdits(addOrder, updateOrder, deleteOrder) ==> e.name in c.view
  {
    ListedFacts(s, records, c, addOrder, updateOrder, deleteOrder);
    EditsNames(addOrder, ADD);
    ReplacementsNames(updateOrder);
    EditsNames(deleteOrder, DELETE);
  }

  /** With exactly one presto announcement, unique ids and names that survive
      the `connectorIds` round trip, no edit of a run can fail, and a completed
      run advertises the ids advertised before plus the new and the changed
      names, less the removed ones. */
  lemma CompletedIds(accepts: (seq<Call>, Call) -> bool, s: State, records: seq<string>, c: Classification,
                     addOrder: seq<string>, updateOrder: seq<string>, deleteOrder: seq<string>)
    requires Listed(s, records, c, addOrder, updateOrder, deleteOrder)
    requires DistinctIds(s.announcements) && PrestoCount(s.announcements) == 1
    requires forall n :: n in c.view ==> Clean(n)
    ensures RepublishAll(s.announcements, RunEdits(addOrder, updateOrder, deleteOrder)).Some?
    ensures var r := Reconciled(accepts, s, c, addOrder, updateOrder, deleteOrder);
      r.outcome == Pass ==>
        forall x :: x in PrestoIds(r.state.announcements) <==>
          (x in PrestoIds(s.announcements) || x in c.newCatalog || x in c.updateCatalog) && x !in Removed(c)
  {
    var edits := RunEdits(addOrder, updateOrder, deleteOrder);
    RunEditsNames(s, records, c, addOrder, updateOrder, deleteOrder);
    forall i | 0 <= i < |edits| ensures Clean(edits[i].name) {
      assert edits[i] in edits;
    }
    RepublishAllIds(s.announcements, edits);
    CompletedAnnouncements(accepts, s, records, c, addOrder, updateOrder, deleteOrder);
    var ea := Edits(addOrder, ADD);
    var er := Replacements(updateOrder);
    var ed := Edits(deleteOrder, DELETE);
    forall x ensures AdvertisedAfter(x in PrestoIds(s.announcements), x, edits) <==>
      (x in PrestoIds(s.announcements) || x in c.newCatalog || x in c.updateCatalog) && x !in Removed(c)
    {
      var before := x in PrestoIds(s.announcements);
      AdvertisedAfterAppend(before, x, ea + er, ed);
      AdvertisedAfterAppend(before, x, ea, er);
      AdvertisedAfterAdds(before, x, addOrder);
      AdvertisedAfterReplacements(AdvertisedAfter(before, x, ea), x, updateOrder);
      AdvertisedAfterDeletes(AdvertisedAfter(before, x, ea + er), x, deleteOrder);
    }
  }

  /** Per catalog name, a completed run creates it once if it was new and
      once more if it changed, and drops it once if it changed and once if it
      was removed. */
  lemma CompletedCounts(accepts: (seq<Call>, Call) -> bool, s: State, records: seq<string>, c: Classification,
                        addOrder: seq<string>, updateOrder: seq<string>, deleteOrder: seq<string>, name: string)
    requires Listed(s, records, c, addOrder, updateOrder, deleteOrder)
    ensures var r := Reconciled(accepts, s, c, addOrder, updateOrder, deleteOrder);
      r.outcome == Pass ==>
        && CreatesOf(r.state.calls, name) == CreatesOf(s.calls, name)
             + (if name in c.newCatalog then 1 else 0) + (if name in c.updateCatalog then 1 else 0)
        && DropsOf(r.state.calls, name) == DropsOf(s.calls, name)
             + (if name in c.updateCatalog then 1 else 0) + (if name in Removed(c) then 1 else 0)
  {
    var r := Reconciled(accepts, s, c, addOrder, updateOrder, deleteOrder);
    CompletedCalls(accepts, s, records, c, addOrder, updateOrder, deleteOrder);
    if r.outcome == Pass {
      var a := AddCalls(addOrder, c.newCatalog);
      var u := UpdateCalls(updateOrder, c.updateCatalog);
      var d := DropCalls(deleteOrder);
      CountsAppend(s.calls, a + u + d, name);
      CountsAppend(a + u, d, name);
      CountsAppend(a, u, name);
      AddCallsCount(addOrder, c.newCatalog, name);
      UpdateCallsCount(updateOrder, c.updateCatalog, name);
      DropCallsCount(deleteOrder, name);
    }
  }

  /** After a completed run `catalogMap` holds exactly the names the listing's
      records carry. */
  lemma CompletedKeys(accepts: (seq<Call>, Call) -> bool, s: State, records: seq<string>, c: Classification,
                      addOrder: seq<string>, updateOrder: seq<string>, deleteOrder: seq<string>)
    requires Listed(s, records, c, addOrder, updateOrder, deleteOrder)
    ensures var r := Reconciled(accepts, s, c, addOrder, updateOrder, deleteOrder);
      r.outcome == Pass ==>
        forall n :: n in r.state.catalogMap <==> exists i :: 0 <= i < |records| && NameOf(records[i]) == Some(n)
  {
    CompletedMap(accepts, s, records, c, addOrder, updateOrder, deleteOrder);
    ClassifyRemote(s.catalogMap, records);
    forall n | n in c.remote ensures exists i :: 0 <= i < |records| && NameOf(records[i]) == Some(n) {
      var i :| 0 <= i < |c.remote| && c.remote[i] == n;
      assert NameOf(records[i]) == Some(n);
    }
  }

  /** However a run ends, a name that is neither new, changed nor removed is
      neither created nor dropped, and keeps the line the classification left. */
  lemma RunUntouched(accepts: (seq<Call>, Call) -> bool, s: State, records: seq<string>, c: Classification,
                     addOrder: seq<string>, updateOrder: seq<string>, deleteOrder: seq<string>, n: string)
    requires Listed(s, records, c, addOrder, updateOrder, deleteOrder)
    requires n !in c.newCatalog && n !in c.updateCatalog && n !in Removed(c)
    ensures Untouched(s.(catalogMap := c.view), Reconciled(accepts, s, c, addOrder, updateOrder, deleteOrder).state, n)
  {
    ListedFacts(s, records, c, addOrder, updateOrder, deleteOrder);
    PhaseStates(accepts, s, records, c, addOrder, updateOrder, deleteOrder);
    var s0 := s.(catalogMap := c.view);
    var added := AddAll(accepts, s0, c.newCatalog, addOrder);
    AddAllUntouched(accepts, s0, c.newCatalog, addOrder, n);
    if added.outcome.Pass? {
      var updated := UpdateAll(accepts, added.state, c.updateCatalog, updateOrder);
      UpdateAllUntouched(accepts, added.state, c.updateCatalog, updateOrder, n);
      if updated.outcome.Pass? {
        DeleteAllUntouched(accepts, updated.state, deleteOrder, n);
      }
    }
  }

  /** Idempotence: a name listed only with the line stored for it is neither
      created nor dropped and keeps its line, whether the run completes or an
      exception ends it, and no edit of the run names it. */
  lemma RunUnchanged(accepts: (seq<Call>, Call) -> bool, s: State, records: seq<string>, c: Classification,
                           addOrder: seq<string>, updateOrder: seq<string>, deleteOrder: seq<string>, n: string)
    requires Listed(s, records, c, addOrder, updateOrder, deleteOrder)
    requires n in s.catalogMap && ListedAs(records, n, s.catalogMap[n])
    ensures var r := Reconciled(accepts, s, c, addOrder, updateOrder, deleteOrder);
      && CreatesOf(r.state.calls, n) == CreatesOf(s.calls, n)
      && DropsOf(r.state.calls, n) == DropsOf(s.calls, n)
      && n in r.state.catalogMap && r.state.catalogMap[n] == s.catalogMap[n]
      && (forall e :: e in RunEdits(addOrder, updateOrder, deleteOrder) ==> e.name != n)
  {
    ClassifyListed(s.catalogMap, records, n, s.catalogMap[n]);
    RunUntouched(accepts, s, records, c, addOrder, updateOrder, deleteOrder, n);
    EditsNames(addOrder, ADD);
    ReplacementsNames(updateOrder);
    EditsNames(deleteOrder, DELETE);
  }

  /** Add: a name missing from `catalogMap` and listed with one line is
      created once, from that line's fields, never dropped, and stored with
      that line. */
  lemma CompletedAdd(accepts: (seq<Call>, Call) -> bool, s: State, records: seq<string>, c: Classification,
                     addOrder: seq<string>, updateOrder: seq<string>, deleteOrder: seq<string>, n: string, line: string)
    requires Listed(s, records, c, addOrder, updateOrder, deleteOrder)
    requires n !in s.catalogMap && ListedAs(records, n, line)
    ensures var r := Reconciled(accepts, s, c, addOrder, updateOrder, deleteOrder);
      r.outcome == Pass ==>
        && Decode(line).Some?
        && CreatesOf(r.state.calls, n) == CreatesOf(s.calls, n) + 1
        && DropsOf(r.state.calls, n) == DropsOf(s.calls, n)
        && (exists j :: |s.calls| <= j < |r.state.calls| && r.state.calls[j] == CreateFor(Decode(line).value))
        && n in r.state.catalogMap && r.state.catalogMap[n] == line
  {
    var r := Reconciled(accepts, s, c, addOrder, updateOrder, deleteOrder);
    ClassifyListed(s.catalogMap, records, n, line);
    ClassifyView(s.catalogMap, records);
    CompletedCounts(accepts, s, records, c, addOrder, updateOrder, deleteOrder, n);
    CompletedMap(accepts, s, records, c, addOrder, updateOrder, deleteOrder);
    CompletedCalls(accepts, s, records, c, addOrder, updateOrder, deleteOrder);
    if r.outcome == Pass {
      assert n in addOrder;
      var i :| 0 <= i < |addOrder| && addOrder[i] == n;
      DecodableUnderEach(addOrder, c.newCatalog);
      AddCallsAt(addOrder, c.newCatalog, i);
      IndexInFirst(s.calls, AddCalls(addOrder, c.newCatalog), UpdateCalls(updateOrder, c.updateCatalog),
                   DropCalls(deleteOrder), i);
    }
  }

  /** Change: a stored name listed with one different line is dropped and
      then at once created from the new line's fields, and stored with it. */
  lemma CompletedChange(accepts: (seq<Call>, Call) -> bool, s: State, records: seq<string>, c: Classification,
                        addOrder: seq<string>, updateOrder: seq<string>, deleteOrder: seq<string>, n: string, line: string)
    requires Listed(s, records, c, addOrder, updateOrder, deleteOrder)
    requires n in s.catalogMap && s.catalogMap[n] != line && ListedAs(records, n, line)
    ensures var r := Reconciled(accepts, s, c, addOrder, updateOrder, deleteOrder);
      r.outcome == Pass ==>
        && Decode(line).Some?
        && CreatesOf(r.state.calls, n) == CreatesOf(s.calls, n) + 1
        && DropsOf(r.state.calls, n) == DropsOf(s.calls, n) + 1
        && (exists j :: |s.calls| <= j < |r.state.calls| - 1 &&
              r.state.calls[j] == Drop(n) && r.state.calls[j + 1] == CreateFor(Decode(line).value))
        && n in r.state.catalogMap && r.state.catalogMap[n] == line
  {
    ClassifyListed(s.catalogMap, records, n, line);
    CompletedCounts(accepts, s, records, c, addOrder, updateOrder, deleteOrder, n);
    CompletedMap(accepts, s, records, c, addOrder, updateOrder, deleteOrder);
    ChangeAdjacent(accepts, s, records, c, addOrder, updateOrder, deleteOrder, n);
  }

  /** A name the run updates is dropped and at once re-created from its new line. */
  lemma ChangeAdjacent(accepts: (seq<Call>, Call) -> bool, s: State, records: seq<string>, c: Classification,
                       addOrder: seq<string>, updateOrder: seq<string>, deleteOrder: seq<string>, n: string)
    requires Listed(s, records, c, addOrder, updateOrder, deleteOrder)
    requires n in c.updateCatalog
    ensures var r := Reconciled(accepts, s, c, addOrder, updateOrder, deleteOrder);
      r.outcome == Pass ==>
        && Decode(c.updateCatalog[n]).Some?
        && (exists j :: |s.calls| <= j < |r.state.calls| - 1 &&
              r.state.calls[j] == Drop(n) && r.state.calls[j + 1] == CreateFor(Decode(c.updateCatalog[n]).value))
  {
    var r := Reconciled(accepts, s, c, addOrder, updateOrder, deleteOrder);
    CompletedCalls(accepts, s, records, c, addOrder, updateOrder, deleteOrder);
    if r.outcome == Pass {
      ListedFacts(s, records, c, addOrder, updateOrder, deleteOrder);
      assert n in updateOrder;
      UpdatePhaseAdjacent(s.calls, AddCalls(addOrder, c.newCatalog), updateOrder, c.updateCatalog,
                          DropCalls(deleteOrder), n);
    }
  }

  /** The drop and re-create of an updated name stay neighbours among all the calls. */
  lemma UpdatePhaseAdjacent(pre: seq<Call>, a: seq<Call>, order: seq<string>, lines: map<string, string>,
                            d: seq<Call>, n: string)
    requires DecodableUnder(order, lines) && n in order
    ensures n in lines && Decode(lines[n]).Some?
    ensures var calls := pre + (a + UpdateCalls(order, lines) + d);
      exists j :: |pre| <= j < |calls| - 1 && calls[j] == Drop(n) && calls[j + 1] == CreateFor(Decode(lines[n]).value)
  {
    UpdateCallsAdjacent(order, lines, n);
    var u := UpdateCalls(order, lines);
    var j, conn :| 0 <= j < |u| - 1 && u[j] == Drop(n) && n in lines && Decode(lines[n]) == Some(conn) && u[j + 1] == CreateFor(conn);
    IndexInSecond(pre, a, u, d, j);
    IndexInSecond(pre, a, u, d, j + 1);
    CompletedCallsAt(pre, a, u, d, pre + (a + u + d), j, Drop(n), CreateFor(conn));
  }

  /** Two neighbours of the middle part of a run's calls stay neighbours in the whole. */
  lemma CompletedCallsAt(pre: seq<Call>, a: seq<Call>, u: seq<Call>, d: seq<Call>, calls: seq<Call>,
                         j: nat, x: Call, y: Call)
    requires calls == pre + (a + u + d) && j + 1 < |u|
    requires calls[|pre| + |a| + j] == x && calls[|pre| + |a| + j + 1] == y
    ensures exists k :: |pre| <= k < |calls| - 1 && calls[k] == x && calls[k + 1] == y
  {
    var k := |pre| + |a| + j;
    assert calls[k] == x && calls[k + 1] == y;
  }

  /** Delete: a stored name that no record carries is dropped once, never
      created, and removed from `catalogMap`. */
  lemma CompletedDelete(accepts: (seq<Call>, Call) -> bool, s: State, records: seq<string>, c: Classification,
                        addOrder: seq<string>, updateOrder: seq<string>, deleteOrder: seq<string>, n: string)
    requires Listed(s, records, c, addOrder, updateOrder, deleteOrder)
    requires n in s.catalogMap && Unlisted(records, n)
    ensures var r := Reconciled(accepts, s, c, addOrder, updateOrder, deleteOrder);
      r.outcome == Pass ==>
        && CreatesOf(r.state.calls, n) == CreatesOf(s.calls, n)
        && DropsOf(r.state.calls, n) == DropsOf(s.calls, n) + 1
        && n !in r.state.catalogMap
  {
    ClassifyUnlisted(s.catalogMap, records, n);
    CompletedCounts(accepts, s, records, c, addOrder, updateOrder, deleteOrder, n);
    CompletedMap(accepts, s, records, c, addOrder, updateOrder, deleteOrder);
  }

  /** However a run ends, it only adds calls, keeps every line of `catalogMap`
      naming its key, and on unique ids keeps them unique and keeps the number
      of presto announcements. */
  lemma RunKeeps(accepts: (seq<Call>, Call) -> bool, s: State, records: seq<string>, c: Classification,
                 addOrder: seq<string>, updateOrder: seq<string>, deleteOrder: seq<string>)
    requires Listed(s, records, c, addOrder, updateOrder, deleteOrder)
    ensures var r := Reconciled(accepts, s, c, addOrder, updateOrder, deleteOrder).state;
      && s.calls <= r.calls
      && KeysMatch(r.catalogMap)
      && (DistinctIds(s.announcements) ==>
            DistinctIds(r.announcements) && PrestoCount(r.announcements) == PrestoCount(s.announcements))
  {
    ListedFacts(s, records, c, addOrder, updateOrder, deleteOrder);
    PhaseStates(accepts, s, records, c, addOrder, updateOrder, deleteOrder);
    var s0 := s.(catalogMap := c.view);
    var added := AddAll(accepts, s0, c.newCatalog, addOrder);
    var updated := UpdateAll(accepts, added.state, c.updateCatalog, updateOrder);
    AddAllKeeps(accepts, s0, c.newCatalog, addOrder);
    UpdateAllKeeps(accepts, added.state, c.updateCatalog, updateOrder);
    var r := Reconciled(accepts, s, c, addOrder, updateOrder, deleteOrder);
    if added.outcome.Pass? {
      PrefixTrans(s.calls, added.state.calls, updated.state.calls);
      if updated.outcome.Pass? {
        var deleted := DeleteAll(accepts, updated.state, deleteOrder);
        DeleteAllKeeps(accepts, updated.state, deleteOrder);
        assert r == deleted;
        PrefixTrans(s.calls, updated.state.calls, deleted.state.calls);
      }
    }
  }
}
