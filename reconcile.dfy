/**
 What one run of the timer task does after its classification loop, as
 functions of the state the store's calls change: `catalogMap`, the calls
 issued to the connector manager, and the announcer's announcements. Each
 private helper of the store (`updateConnectorIds`, `addCatalog`,
 `deleteCatalog`, `updateCatalog`) and each of the three loops of the `TimerTask`
 is a function from a state to an `After`: how it ended and the state it
 left. A call that throws leaves the state it had reached, and every loop
 stops at the first exception, which then escapes the `TimerTask`.

 The connector manager is `accepts`: whether it takes a call, given the
 calls it was given before. A rejected call has still been issued.
 */
module Reconcile {
  import opened Options
  import opened Sequences
  import opened Strings
  import opened CatalogRecord
  import opened ConnectorIds
  import opened Announcements
  import opened Lifecycle
  import opened Failures
  import opened Diff

  /** The part of the store that the remote reconciliation changes. */
  datatype State = State(catalogMap: map<string, string>, calls: seq<Call>, announcements: seq<Announcement>)

  /** How a call ended, and the state it left behind. */
  datatype After = After(outcome: Outcome, state: State)

  /** Every call of `issued` is accepted, given `before` and the calls of
      `issued` ahead of it. */
  predicate AllAccepted(accepts: (seq<Call>, Call) -> bool, before: seq<Call>, issued: seq<Call>)
    decreases |issued|
  {
    issued == [] || (accepts(before, issued[0]) && AllAccepted(accepts, before + [issued[0]], issued[1..]))
  }

  /** The verdicts on two calls followed by more, one call at a time. */
  lemma AllAcceptedPair(accepts: (seq<Call>, Call) -> bool, before: seq<Call>, x: Call, y: Call, rest: seq<Call>)
    ensures AllAccepted(accepts, before, [x, y] + rest) <==>
      accepts(before, x) && accepts(before + [x], y) && AllAccepted(accepts, before + [x] + [y], rest)
  {
    PairParts(x, y, rest);
    ConsParts(y, rest);
  }

  /** Every name is a key of `lines`. */
  predicate AllKeys(names: seq<string>, lines: map<string, string>)
    decreases |names|
  {
    names == [] || (names[0] in lines && AllKeys(names[1..], lines))
  }

  lemma {:induction false} AllKeysOf(names: seq<string>, lines: map<string, string>)
    requires forall i :: 0 <= i < |names| ==> names[i] in lines
    ensures AllKeys(names, lines)
    decreases |names|
  {
    if names != [] {
      assert forall i :: 0 <= i < |names[1..]| ==> names[1..][i] == names[i + 1];
      AllKeysOf(names[1..], lines);
    }
  }

  /** An iteration order of a map's key set visits keys of the map only. */
  lemma EnumeratesAllKeys(order: seq<string>, lines: map<string, string>)
    requires Enumerates(order, lines.Keys)
    ensures AllKeys(order, lines)
  {
    forall i | 0 <= i < |order| ensures order[i] in lines {
      assert order[i] in order;
    }
    AllKeysOf(order, lines);
  }

  /** `updateConnectorIds(name, action)`. */
  function UpdateIds(s: State, name: string, action: CatalogAction): After
  {
    match Republish(s.announcements, name, action)
    case None => After(Fail(PrestoAnnouncementNotFound), s)
    case Some(anns) => After(Pass, s.(announcements := anns))
  }

  /** `addCatalog(line)`: the four fields, the create, then the ADD edit. */
  function AddOne(accepts: (seq<Call>, Call) -> bool, s: State, line: string): After
  {
    match Decode(line)
    case None => After(Fail(IndexOutOfBounds), s)
    case Some(c) =>
      var issued := s.(calls := s.calls + [CreateFor(c)]);
      if accepts(s.calls, CreateFor(c)) then UpdateIds(issued, c.name, ADD)
      else After(Fail(Rejected(CreateFor(c))), issued)
  }

  /** `deleteCatalog(line)`, where None is a null line, which it skips. */
  function DeleteOne(accepts: (seq<Call>, Call) -> bool, s: State, line: Option<string>): After
  {
    match line
    case None => After(Pass, s)
    case Some(l) =>
      match NameOf(l)
      case None => After(Fail(IndexOutOfBounds), s)
      case Some(name) =>
        var issued := s.(calls := s.calls + [Drop(name)]);
        if accepts(s.calls, Drop(name)) then UpdateIds(issued, name, DELETE)
        else After(Fail(Rejected(Drop(name))), issued)
  }

  /** `updateCatalog(line)`: `deleteCatalog(line)`, then `addCatalog(line)`. */
  function UpdateOne(accepts: (seq<Call>, Call) -> bool, s: State, line: string): After
  {
    var deleted := DeleteOne(accepts, s, Some(line));
    if deleted.outcome.Fail? then deleted else AddOne(accepts, deleted.state, line)
  }

  /** The loop of lines 126-128: `addCatalog(newCatalog.get(n))` for each key, in `names` order. */
  function AddAll(accepts: (seq<Call>, Call) -> bool, s: State, lines: map<string, string>, names: seq<string>): After
    requires AllKeys(names, lines)
    decreases |names|
  {
    if names == [] then After(Pass, s)
    else
      var added := AddOne(accepts, s, lines[names[0]]);
      if added.outcome.Fail? then added else AddAll(accepts, added.state, lines, names[1..])
  }

  /** The loop of lines 132-135: `updateCatalog(updateCatalog.get(n))` for each key,
      each followed by `catalogMap.put(n, updateCatalog.get(n))`. */
  function UpdateAll(accepts: (seq<Call>, Call) -> bool, s: State, lines: map<string, string>, names: seq<string>): After
    requires AllKeys(names, lines)
    decreases |names|
  {
    if names == [] then After(Pass, s)
    else
      var n := names[0];
      var updated := UpdateOne(accepts, s, lines[n]);
      if updated.outcome.Fail? then updated
      else
        var stored := updated.state.(catalogMap := updated.state.catalogMap[n := lines[n]]);
        UpdateAll(accepts, stored, lines, names[1..])
  }

  /** The loop of lines 140-143: `deleteCatalog(catalogMap.get(n))` for each name,
      each followed by `catalogMap.remove(n)`. */
  function DeleteAll(accepts: (seq<Call>, Call) -> bool, s: State, names: seq<string>): After
    decreases |names|
  {
    if names == [] then After(Pass, s)
    else
      var n := names[0];
      var line := if n in s.catalogMap then Some(s.catalogMap[n]) else None;
      var deleted := DeleteOne(accepts, s, line);
      if deleted.outcome.Fail? then deleted
      else DeleteAll(accepts, deleted.state.(catalogMap := deleted.state.catalogMap - {n}), names[1..])
  }

  /** How the connector manager's verdicts split over two batches of calls. */
  lemma {:induction false} AllAcceptedAppend(accepts: (seq<Call>, Call) -> bool, before: seq<Call>, x: seq<Call>, y: seq<Call>)
    ensures AllAccepted(accepts, before, x + y) <==>
      AllAccepted(accepts, before, x) && AllAccepted(accepts, before + x, y)
    decreases |x|
  {
    if x == [] {
      assert x + y == y && before + x == before;
    } else {
      assert (x + y)[0] == x[0] && (x + y)[1..] == x[1..] + y;
      AppendAssoc(before, [x[0]], x[1..]);
      assert [x[0]] + x[1..] == x;
      AllAcceptedAppend(accepts, before + [x[0]], x[1..], y);
    }
  }

  /** Each name, in turn, is a key of `m` whose line names it, and no later name
      repeats it: what the delete loop needs of the names it is given. */
  ghost predicate StoredOnce(names: seq<string>, m: map<string, string>)
    decreases |names|
  {
    names == [] ||
    (&& names[0] in m && NameOf(m[names[0]]) == Some(names[0]) && names[0] !in names[1..]
     && StoredOnce(names[1..], m - {names[0]}))
  }

  /** Distinct keys of a map whose lines name their keys are stored once. */
  lemma {:induction false} StoredOnceOf(names: seq<string>, m: map<string, string>)
    requires KeysMatch(m) && Distinct(names)
    requires forall i :: 0 <= i < |names| ==> names[i] in m
    ensures StoredOnce(names, m)
    decreases |names|
  {
    if names != [] {
      var n := names[0];
      var rest := names[1..];
      assert forall i :: 0 <= i < |rest| ==> rest[i] == names[i + 1];
      assert n !in rest;
      assert KeysMatch(m - {n});
      StoredOnceOf(rest, m - {n});
    }
  }

  /** `updateConnectorIds` leaves the map and the calls alone, keeps ids unique
      and the number of presto announcements, and fails exactly when no
      "presto" announcement exists. */
  lemma UpdateIdsFacts(s: State, name: string, action: CatalogAction)
    requires DistinctIds(s.announcements)
    ensures var r := UpdateIds(s, name, action);
      && r.state.catalogMap == s.catalogMap && r.state.calls == s.calls
      && DistinctIds(r.state.announcements)
      && PrestoCount(r.state.announcements) == PrestoCount(s.announcements)
      && (r.outcome.Fail? <==> r.outcome == Fail(PrestoAnnouncementNotFound))
      && (r.outcome.Fail? <==> forall i :: 0 <= i < |s.announcements| ==> s.announcements[i].serviceType != PrestoType)
  {
    RepublishFacts(s.announcements, name, action);
  }

  /** `addCatalog` never touches `catalogMap` and only adds calls; on unique
      ids it keeps them unique and keeps the number of presto announcements. */
  lemma AddOneKeeps(accepts: (seq<Call>, Call) -> bool, s: State, line: string)
    ensures var r := AddOne(accepts, s, line).state;
      && r.catalogMap == s.catalogMap && s.calls <= r.calls
      && (DistinctIds(s.announcements) ==>
            DistinctIds(r.announcements) && PrestoCount(r.announcements) == PrestoCount(s.announcements))
  {
    if Decode(line).Some? && DistinctIds(s.announcements) {
      var c := Decode(line).value;
      UpdateIdsFacts(s.(calls := s.calls + [CreateFor(c)]), c.name, ADD);
    }
  }

  /** The same for `deleteCatalog`. */
  lemma DeleteOneKeeps(accepts: (seq<Call>, Call) -> bool, s: State, line: Option<string>)
    ensures var r := DeleteOne(accepts, s, line).state;
      && r.catalogMap == s.catalogMap && s.calls <= r.calls
      && (DistinctIds(s.announcements) ==>
            DistinctIds(r.announcements) && PrestoCount(r.announcements) == PrestoCount(s.announcements))
  {
    if line.Some? && NameOf(line.value).Some? && DistinctIds(s.announcements) {
      var name := NameOf(line.value).value;
      UpdateIdsFacts(s.(calls := s.calls + [Drop(name)]), name, DELETE);
    }
  }

  /** The same for `updateCatalog`. */
  lemma UpdateOneKeeps(accepts: (seq<Call>, Call) -> bool, s: State, line: string)
    ensures var r := UpdateOne(accepts, s, line).state;
      && r.catalogMap == s.catalogMap && s.calls <= r.calls
      && (DistinctIds(s.announcements) ==>
            DistinctIds(r.announcements) && PrestoCount(r.announcements) == PrestoCount(s.announcements))
  {
    DeleteOneKeeps(accepts, s, Some(line));
    var deleted := DeleteOne(accepts, s, Some(line));
    if deleted.outcome.Pass? {
      AddOneKeeps(accepts, deleted.state, line);
    }
  }

  // The add loop.

  /** One turn of the add loop: it goes on to the next name exactly when the
      line decodes, the create is accepted and the ADD edit finds the presto
      announcement. */
  lemma AddAllStep(accepts: (seq<Call>, Call) -> bool, s: State, lines: map<string, string>, names: seq<string>)
    requires names != [] && AllKeys(names, lines)
    ensures var line := lines[names[0]];
      var r := AddAll(accepts, s, lines, names);
      var ok := && Decode(line).Some? && accepts(s.calls, CreateFor(Decode(line).value))
                && Republish(s.announcements, Decode(line).value.name, ADD).Some?;
      && (!ok ==> r.outcome.Fail?)
      && (ok ==> r == AddAll(accepts,
                             State(s.catalogMap, s.calls + [CreateFor(Decode(line).value)],
                                   Republish(s.announcements, Decode(line).value.name, ADD).value),
                             lines, names[1..]))
  {
  }

  /** However the add loop ends it leaves `catalogMap` alone and only adds
      calls; on unique ids it keeps them unique and keeps the number of presto
      announcements. */
  lemma {:induction false} AddAllKeeps(accepts: (seq<Call>, Call) -> bool, s: State, lines: map<string, string>, names: seq<string>)
    requires AllKeys(names, lines)
    ensures var r := AddAll(accepts, s, lines, names).state;
      && r.catalogMap == s.catalogMap && s.calls <= r.calls
      && (DistinctIds(s.announcements) ==>
            DistinctIds(r.announcements) && PrestoCount(r.announcements) == PrestoCount(s.announcements))
    decreases |names|
  {
    if names != [] {
      var line := lines[names[0]];
      AddOneKeeps(accepts, s, line);
      var added := AddOne(accepts, s, line);
      if added.outcome.Pass? {
        AddAllKeeps(accepts, added.state, lines, names[1..]);
      }
    }
  }

  /** A completed add loop creates one mysql connection per name, from the
      fields of that name's line, in `names` order, and nothing else. */
  lemma {:induction false} AddAllCalls(accepts: (seq<Call>, Call) -> bool, s: State, lines: map<string, string>, names: seq<string>)
    requires AllKeys(names, lines) && KeysMatch(lines)
    ensures var r := AddAll(accepts, s, lines, names);
      r.outcome == Pass ==> DecodableUnder(names, lines) && r.state.calls == s.calls + AddCalls(names, lines)
    decreases |names|
  {
    var r := AddAll(accepts, s, lines, names);
    if names != [] && r.outcome == Pass {
      var n := names[0];
      AddAllStep(accepts, s, lines, names);
      var c := Decode(lines[n]).value;
      assert NameOf(lines[n]) == Some(n);
      var next := State(s.catalogMap, s.calls + [CreateFor(c)], Republish(s.announcements, n, ADD).value);
      AddAllCalls(accepts, next, lines, names[1..]);
      AppendAssoc(s.calls, [CreateFor(c)], AddCalls(names[1..], lines));
    }
  }

  /** A completed add loop applies one ADD edit per name, in `names` order. */
  lemma {:induction false} AddAllAnnouncements(accepts: (seq<Call>, Call) -> bool, s: State, lines: map<string, string>, names: seq<string>)
    requires AllKeys(names, lines) && KeysMatch(lines)
    ensures var r := AddAll(accepts, s, lines, names);
      r.outcome == Pass ==> Some(r.state.announcements) == RepublishAll(s.announcements, Edits(names, ADD))
    decreases |names|
  {
    var r := AddAll(accepts, s, lines, names);
    if names != [] && r.outcome == Pass {
      var n := names[0];
      AddAllStep(accepts, s, lines, names);
      var c := Decode(lines[n]).value;
      assert NameOf(lines[n]) == Some(n);
      var next := State(s.catalogMap, s.calls + [CreateFor(c)], Republish(s.announcements, n, ADD).value);
      AddAllAnnouncements(accepts, next, lines, names[1..]);
      assert Edits(names, ADD)[0] == Edit(n, ADD) && Edits(names, ADD)[1..] == Edits(names[1..], ADD);
    }
  }

  /** The add loop completes exactly when every line has four fields, the
      connector manager accepts every create, and every ADD edit finds the
      presto announcement. */
  lemma {:induction false} AddAllPassIff(accepts: (seq<Call>, Call) -> bool, s: State, lines: map<string, string>, names: seq<string>)
    requires AllKeys(names, lines) && KeysMatch(lines)
    ensures AddAll(accepts, s, lines, names).outcome == Pass <==>
        && DecodableUnder(names, lines)
        && AllAccepted(accepts, s.calls, AddCalls(names, lines))
        && RepublishAll(s.announcements, Edits(names, ADD)).Some?
    decreases |names|
  {
    if names != [] {
      var n := names[0];
      var line := lines[n];
      AddAllStep(accepts, s, lines, names);
      assert NameOf(line) == Some(n);
      assert Edits(names, ADD)[0] == Edit(n, ADD) && Edits(names, ADD)[1..] == Edits(names[1..], ADD);
      if Decode(line).Some? {
        var call := CreateFor(Decode(line).value);
        if DecodableUnder(names, lines) {
          var issued := AddCalls(names, lines);
          assert issued[0] == call && issued[1..] == AddCalls(names[1..], lines);
        }
        if accepts(s.calls, call) && Republish(s.announcements, n, ADD).Some? {
          AddAllPassIff(accepts, State(s.catalogMap, s.calls + [call], Republish(s.announcements, n, ADD).value), lines, names[1..]);
        }
      }
    }
  }

  // The update loop.

  /** One turn of the update loop on a line that names its key: it goes on to
      the next name exactly when the drop is accepted, the DELETE edit goes
      through, the line decodes, the create is accepted and the ADD edit goes
      through; the line is then stored under its name. */
  lemma UpdateAllStep(accepts: (seq<Call>, Call) -> bool, s: State, lines: map<string, string>, names: seq<string>)
    requires names != [] && AllKeys(names, lines) && NameOf(lines[names[0]]) == Some(names[0])
    ensures var n := names[0];
      var line := lines[n];
      var r := UpdateAll(accepts, s, lines, names);
      var deleted := Republish(s.announcements, n, DELETE);
      var ok := && accepts(s.calls, Drop(n)) && deleted.Some? && Decode(line).Some?
                && accepts(s.calls + [Drop(n)], CreateFor(Decode(line).value))
                && Republish(deleted.value, n, ADD).Some?;
      && (!ok ==> r.outcome.Fail?)
      && (ok ==> r == UpdateAll(accepts,
                                State(s.catalogMap[n := line], s.calls + [Drop(n)] + [CreateFor(Decode(line).value)],
                                      Republish(deleted.value, n, ADD).value),
                                lines, names[1..]))
  {
  }

  /** However the update loop ends it only adds calls; on unique ids it keeps
      them unique and keeps the number of presto announcements. */
  lemma {:induction false} UpdateAllKeeps(accepts: (seq<Call>, Call) -> bool, s: State, lines: map<string, string>, names: seq<string>)
    requires AllKeys(names, lines)
    ensures var r := UpdateAll(accepts, s, lines, names).state;
      && s.calls <= r.calls
      && (DistinctIds(s.announcements) ==>
            DistinctIds(r.announcements) && PrestoCount(r.announcements) == PrestoCount(s.announcements))
    decreases |names|
  {
    if names != [] {
      var n := names[0];
      UpdateOneKeeps(accepts, s, lines[n]);
      var updated := UpdateOne(accepts, s, lines[n]);
      if updated.outcome.Pass? {
        UpdateAllKeeps(accepts, updated.state.(catalogMap := updated.state.catalogMap[n := lines[n]]), lines, names[1..]);
      }
    }
  }

  /** However the update loop ends, `catalogMap` keeps every key, and every
      entry holds its old line or the line `lines` gives its key; so lines that
      name their keys keep doing so. */
  lemma {:induction false} UpdateAllStores(accepts: (seq<Call>, Call) -> bool, s: State, lines: map<string, string>, names: seq<string>)
    requires AllKeys(names, lines)
    ensures var r := UpdateAll(accepts, s, lines, names).state;
      && s.catalogMap.Keys <= r.catalogMap.Keys
      && (forall n :: n in r.catalogMap ==>
            (n in s.catalogMap && r.catalogMap[n] == s.catalogMap[n]) || (n in lines && r.catalogMap[n] == lines[n]))
      && (KeysMatch(s.catalogMap) && KeysMatch(lines) ==> KeysMatch(r.catalogMap))
    decreases |names|
  {
    if names != [] {
      var n := names[0];
      UpdateOneKeeps(accepts, s, lines[n]);
      var updated := UpdateOne(accepts, s, lines[n]);
      if updated.outcome.Pass? {
        UpdateAllStores(accepts, updated.state.(catalogMap := s.catalogMap[n := lines[n]]), lines, names[1..]);
      }
    }
  }

  /** A completed update loop drops and re-creates each name in turn, the
      create taking the fields of that name's line, and nothing else. */
  lemma {:induction false} UpdateAllCalls(accepts: (seq<Call>, Call) -> bool, s: State, lines: map<string, string>, names: seq<string>)
    requires AllKeys(names, lines) && KeysMatch(lines)
    ensures var r := UpdateAll(accepts, s, lines, names);
      r.outcome == Pass ==> DecodableUnder(names, lines) && r.state.calls == s.calls + UpdateCalls(names, lines)
    decreases |names|
  {
    var r := UpdateAll(accepts, s, lines, names);
    if names != [] && r.outcome == Pass {
      var n := names[0];
      var line := lines[n];
      assert NameOf(line) == Some(n);
      UpdateAllStep(accepts, s, lines, names);
      var c := Decode(line).value;
      var a := Republish(Republish(s.announcements, n, DELETE).value, n, ADD).value;
      UpdateAllCalls(accepts, State(s.catalogMap[n := line], s.calls + [Drop(n)] + [CreateFor(c)], a), lines, names[1..]);
      AppendPair(s.calls, Drop(n), CreateFor(c), UpdateCalls(names[1..], lines));
    }
  }

  /** A completed update loop applies a DELETE and then an ADD edit per name,
      in `names` order. */
  lemma {:induction false} UpdateAllAnnouncements(accepts: (seq<Call>, Call) -> bool, s: State, lines: map<string, string>, names: seq<string>)
    requires AllKeys(names, lines) && KeysMatch(lines)
    ensures var r := UpdateAll(accepts, s, lines, names);
      r.outcome == Pass ==> Some(r.state.announcements) == RepublishAll(s.announcements, Replacements(names))
    decreases |names|
  {
    var r := UpdateAll(accepts, s, lines, names);
    if names != [] && r.outcome == Pass {
      var n := names[0];
      var line := lines[n];
      assert NameOf(line) == Some(n);
      UpdateAllStep(accepts, s, lines, names);
      var c := Decode(line).value;
      var a := Republish(Republish(s.announcements, n, DELETE).value, n, ADD).value;
      UpdateAllAnnouncements(accepts, State(s.catalogMap[n := line], s.calls + [Drop(n)] + [CreateFor(c)], a), lines, names[1..]);
      var edits := Replacements(names);
      assert edits[0] == Edit(n, DELETE) && edits[1..][0] == Edit(n, ADD);
      assert edits[1..][1..] == Replacements(names[1..]);
    }
  }

  /** A completed update loop leaves every changed name in `catalogMap` with
      its new line and every other entry as it was. */
  lemma {:induction false} UpdateAllMap(accepts: (seq<Call>, Call) -> bool, s: State, lines: map<string, string>, names: seq<string>)
    requires AllKeys(names, lines) && KeysMatch(lines)
    ensures var r := UpdateAll(accepts, s, lines, names).state;
      UpdateAll(accepts, s, lines, names).outcome == Pass ==>
        && (forall n :: n in r.catalogMap <==> n in s.catalogMap || n in names)
        && (forall n :: n in names ==> n in lines && r.catalogMap[n] == lines[n])
        && (forall n :: n in s.catalogMap && n !in names ==> r.catalogMap[n] == s.catalogMap[n])
    decreases |names|
  {
    var r := UpdateAll(accepts, s, lines, names);
    if names != [] && r.outcome == Pass {
      var n := names[0];
      var line := lines[n];
      assert NameOf(line) == Some(n);
      UpdateAllStep(accepts, s, lines, names);
      var c := Decode(line).value;
      var a := Republish(Republish(s.announcements, n, DELETE).value, n, ADD).value;
      UpdateAllMap(accepts, State(s.catalogMap[n := line], s.calls + [Drop(n)] + [CreateFor(c)], a), lines, names[1..]);
      assert forall m :: m in names <==> m == n || m in names[1..];
    }
  }

  /** The update loop completes exactly when every line has four fields, the
      connector manager accepts every drop and every create, and every edit
      finds the presto announcement. */
  lemma {:induction false} UpdateAllPassIff(accepts: (seq<Call>, Call) -> bool, s: State, lines: map<string, string>, names: seq<string>)
    requires AllKeys(names, lines) && KeysMatch(lines)
    ensures UpdateAll(accepts, s, lines, names).outcome == Pass <==>
        && DecodableUnder(names, lines)
        && AllAccepted(accepts, s.calls, UpdateCalls(names, lines))
        && RepublishAll(s.announcements, Replacements(names)).Some?
    decreases |names|
  {
    if names != [] {
      var n := names[0];
      var line := lines[n];
      assert NameOf(line) == Some(n);
      UpdateAllStep(accepts, s, lines, names);
      RepublishAllReplacements(s.announcements, names);
      if Decode(line).Some? {
        var c := Decode(line).value;
        if DecodableUnder(names, lines) {
          AllAcceptedPair(accepts, s.calls, Drop(n), CreateFor(c), UpdateCalls(names[1..], lines));
        }
        var a1 := Republish(s.announcements, n, DELETE);
        if accepts(s.calls, Drop(n)) && a1.Some? && accepts(s.calls + [Drop(n)], CreateFor(c)) {
          var a2 := Republish(a1.value, n, ADD);
          if a2.Some? {
            UpdateAllPassIff(accepts, State(s.catalogMap[n := line], s.calls + [Drop(n)] + [CreateFor(c)], a2.value), lines, names[1..]);
          }
        }
      }
    }
  }

  // The delete loop.

  /** One turn of the delete loop on a stored line that names its key: it goes
      on to the next name exactly when the drop is accepted and the DELETE edit
      goes through; the key is then removed. */
  lemma DeleteAllStep(accepts: (seq<Call>, Call) -> bool, s: State, names: seq<string>)
    requires names != [] && names[0] in s.catalogMap && NameOf(s.catalogMap[names[0]]) == Some(names[0])
    ensures var n := names[0];
      var r := DeleteAll(accepts, s, names);
      var deleted := Republish(s.announcements, n, DELETE);
      var ok := accepts(s.calls, Drop(n)) && deleted.Some?;
      && (!ok ==> r.outcome.Fail?)
      && (ok ==> r == DeleteAll(accepts, State(s.catalogMap - {n}, s.calls + [Drop(n)], deleted.value), names[1..]))
  {
  }

  /** However the delete loop ends it only adds calls and only removes entries
      from `catalogMap`; on unique ids it keeps them unique and keeps the
      number of presto announcements. */
  lemma {:induction false} DeleteAllKeeps(accepts: (seq<Call>, Call) -> bool, s: State, names: seq<string>)
    ensures var r := DeleteAll(accepts, s, names).state;
      && s.calls <= r.calls
      && r.catalogMap.Keys <= s.catalogMap.Keys
      && (forall n :: n in r.catalogMap ==> r.catalogMap[n] == s.catalogMap[n])
      && (KeysMatch(s.catalogMap) ==> KeysMatch(r.catalogMap))
      && (DistinctIds(s.announcements) ==>
            DistinctIds(r.announcements) && PrestoCount(r.announcements) == PrestoCount(s.announcements))
    decreases |names|
  {
    if names != [] {
      var n := names[0];
      var line := if n in s.catalogMap then Some(s.catalogMap[n]) else None;
      DeleteOneKeeps(accepts, s, line);
      var deleted := DeleteOne(accepts, s, line);
      if deleted.outcome.Pass? {
        DeleteAllKeeps(accepts, deleted.state.(catalogMap := s.catalogMap - {n}), names[1..]);
      }
    }
  }

  /** A completed delete loop has removed every name from `catalogMap`. */
  lemma {:induction false} DeleteAllMap(accepts: (seq<Call>, Call) -> bool, s: State, names: seq<string>)
    ensures var r := DeleteAll(accepts, s, names);
      r.outcome == Pass ==> forall n :: n in r.state.catalogMap <==> n in s.catalogMap && n !in names
    decreases |names|
  {
    var r := DeleteAll(accepts, s, names);
    if names != [] && r.outcome == Pass {
      var n := names[0];
      var line := if n in s.catalogMap then Some(s.catalogMap[n]) else None;
      DeleteOneKeeps(accepts, s, line);
      var deleted := DeleteOne(accepts, s, line);
      DeleteAllMap(accepts, deleted.state.(catalogMap := s.catalogMap - {n}), names[1..]);
      assert forall m :: m in names <==> m == n || m in names[1..];
    }
  }

  /** A completed delete loop over names stored once drops each of them once,
      in `names` order, and nothing else. */
  lemma {:induction false} DeleteAllCalls(accepts: (seq<Call>, Call) -> bool, s: State, names: seq<string>)
    requires StoredOnce(names, s.catalogMap)
    ensures var r := DeleteAll(accepts, s, names);
      r.outcome == Pass ==> r.state.calls == s.calls + DropCalls(names)
    decreases |names|
  {
    var r := DeleteAll(accepts, s, names);
    if names != [] && r.outcome == Pass {
      var n := names[0];
      DeleteAllStep(accepts, s, names);
      var next := State(s.catalogMap - {n}, s.calls + [Drop(n)], Republish(s.announcements, n, DELETE).value);
      DeleteAllCalls(accepts, next, names[1..]);
      AppendAssoc(s.calls, [Drop(n)], DropCalls(names[1..]));
    }
  }

  /** It applies one DELETE edit per name, in `names` order. */
  lemma {:induction false} DeleteAllAnnouncements(accepts: (seq<Call>, Call) -> bool, s: State, names: seq<string>)
    requires StoredOnce(names, s.catalogMap)
    ensures var r := DeleteAll(accepts, s, names);
      r.outcome == Pass ==> Some(r.state.announcements) == RepublishAll(s.announcements, Edits(names, DELETE))
    decreases |names|
  {
    var r := DeleteAll(accepts, s, names);
    if names != [] && r.outcome == Pass {
      var n := names[0];
      DeleteAllStep(accepts, s, names);
      var next := State(s.catalogMap - {n}, s.calls + [Drop(n)], Republish(s.announcements, n, DELETE).value);
      DeleteAllAnnouncements(accepts, next, names[1..]);
      assert Edits(names, DELETE)[0] == Edit(n, DELETE) && Edits(names, DELETE)[1..] == Edits(names[1..], DELETE);
    }
  }

  /** The delete loop over names stored once completes exactly when the
      connector manager accepts every drop and every edit finds the presto
      announcement. */
  lemma {:induction false} DeleteAllPassIff(accepts: (seq<Call>, Call) -> bool, s: State, names: seq<string>)
    requires StoredOnce(names, s.catalogMap)
    ensures DeleteAll(accepts, s, names).outcome == Pass <==>
      && AllAccepted(accepts, s.calls, DropCalls(names))
      && RepublishAll(s.announcements, Edits(names, DELETE)).Some?
    decreases |names|
  {
    if names != [] {
      var n := names[0];
      DeleteAllStep(accepts, s, names);
      assert Edits(names, DELETE)[0] == Edit(n, DELETE) && Edits(names, DELETE)[1..] == Edits(names[1..], DELETE);
      assert DropCalls(names)[0] == Drop(n) && DropCalls(names)[1..] == DropCalls(names[1..]);
      var a1 := Republish(s.announcements, n, DELETE);
      if accepts(s.calls, Drop(n)) && a1.Some? {
        DeleteAllPassIff(accepts, State(s.catalogMap - {n}, s.calls + [Drop(n)], a1.value), names[1..]);
      }
    }
  }

  // Names a loop does not visit.

  /** Between two states, nothing was created or dropped for `n`, and its
      entry in `catalogMap`, if it had one, is still there. */
  ghost predicate Untouched(s: State, r: State, n: string)
  {
    && CreatesOf(r.calls, n) == CreatesOf(s.calls, n)
    && DropsOf(r.calls, n) == DropsOf(s.calls, n)
    && (n in s.catalogMap ==> n in r.catalogMap && r.catalogMap[n] == s.catalogMap[n])
  }

  /** `addCatalog` of a line naming another catalog leaves `n` alone, however it ends. */
  lemma AddOneUntouched(accepts: (seq<Call>, Call) -> bool, s: State, line: string, n: string)
    requires NameOf(line) != Some(n)
    ensures Untouched(s, AddOne(accepts, s, line).state, n)
  {
    if Decode(line).Some? {
      CountsSnocOther(s.calls, CreateFor(Decode(line).value), n);
    }
  }

  /** `deleteCatalog` of a line naming another catalog leaves `n` alone, however it ends. */
  lemma DeleteOneUntouched(accepts: (seq<Call>, Call) -> bool, s: State, line: Option<string>, n: string)
    requires line.Some? ==> NameOf(line.value) != Some(n)
    ensures Untouched(s, DeleteOne(accepts, s, line).state, n)
  {
    if line.Some? && NameOf(line.value).Some? {
      CountsSnocOther(s.calls, Drop(NameOf(line.value).value), n);
    }
  }

  /** `updateCatalog` of a line naming another catalog leaves `n` alone, however it ends. */
  lemma UpdateOneUntouched(accepts: (seq<Call>, Call) -> bool, s: State, line: string, n: string)
    requires NameOf(line) != Some(n)
    ensures Untouched(s, UpdateOne(accepts, s, line).state, n)
  {
    DeleteOneUntouched(accepts, s, Some(line), n);
    var deleted := DeleteOne(accepts, s, Some(line));
    if deleted.outcome.Pass? {
      AddOneUntouched(accepts, deleted.state, line, n);
    }
  }

  /** However the add loop ends, a name it does not visit is left alone. */
  lemma {:induction false} AddAllUntouched(accepts: (seq<Call>, Call) -> bool, s: State, lines: map<string, string>,
                                           names: seq<string>, n: string)
    requires AllKeys(names, lines) && KeysMatch(lines) && n !in names
    ensures Untouched(s, AddAll(accepts, s, lines, names).state, n)
    decreases |names|
  {
    if names != [] {
      var line := lines[names[0]];
      AddOneUntouched(accepts, s, line, n);
      var added := AddOne(accepts, s, line);
      if added.outcome.Pass? {
        assert n !in names[1..];
        AddAllUntouched(accepts, added.state, lines, names[1..], n);
      }
    }
  }

  /** However the update loop ends, a name it does not visit is left alone. */
  lemma {:induction false} UpdateAllUntouched(accepts: (seq<Call>, Call) -> bool, s: State, lines: map<string, string>,
                                              names: seq<string>, n: string)
    requires AllKeys(names, lines) && KeysMatch(lines) && n !in names
    ensures Untouched(s, UpdateAll(accepts, s, lines, names).state, n)
    decreases |names|
  {
    if names != [] {
      var k := names[0];
      UpdateOneUntouched(accepts, s, lines[k], n);
      UpdateOneKeeps(accepts, s, lines[k]);
      var updated := UpdateOne(accepts, s, lines[k]);
      if updated.outcome.Pass? {
        var stored := updated.state.(catalogMap := updated.state.catalogMap[k := lines[k]]);
        assert Untouched(s, stored, n);
        assert n !in names[1..];
        UpdateAllUntouched(accepts, stored, lines, names[1..], n);
      }
    }
  }

  /** However the delete loop ends, a name it does not visit is left alone,
      when every stored line names its key. */
  lemma {:induction false} DeleteAllUntouched(accepts: (seq<Call>, Call) -> bool, s: State, names: seq<string>, n: string)
    requires KeysMatch(s.catalogMap) && n !in names
    ensures Untouched(s, DeleteAll(accepts, s, names).state, n)
    decreases |names|
  {
    if names != [] {
      var k := names[0];
      var line := if k in s.catalogMap then Some(s.catalogMap[k]) else None;
      DeleteOneUntouched(accepts, s, line, n);
      DeleteOneKeeps(accepts, s, line);
      var deleted := DeleteOne(accepts, s, line);
      if deleted.outcome.Pass? {
        var removed := deleted.state.(catalogMap := s.catalogMap - {k});
        assert KeysMatch(removed.catalogMap);
        assert Untouched(s, removed, n);
        assert n !in names[1..];
        DeleteAllUntouched(accepts, removed, names[1..], n);
      }
    }
  }
}
