/**
 The discovery announcer's service announcements, as `updateConnectorIds` and
 `getPrestoAnnouncement` see them. The announcer keeps them in a set; this
 model keeps them in a sequence that `getPrestoAnnouncement` scans from the
 front, and a new announcement goes at the end.
 */
module Announcements {
  import opened Options
  import opened Sequences
  import opened ConnectorIds

  const PrestoType: string := "presto"

  /** A service announcement: its id (a UUID in the announcer), its type and properties. */
  datatype Announcement = Announcement(id: nat, serviceType: string, properties: map<string, string>)

  /** The announcer holds at most one announcement per id. */
  ghost predicate DistinctIds(anns: seq<Announcement>)
  {
    forall i, j :: 0 <= i < j < |anns| ==> anns[i].id != anns[j].id
  }

  /** Where the loop of `getPrestoAnnouncement` stops: the first announcement of
      type "presto", or the length when there is none. */
  function PrestoIndex(anns: seq<Announcement>): (k: nat)
    ensures k <= |anns|
    ensures k < |anns| ==> anns[k].serviceType == PrestoType
    ensures forall j :: 0 <= j < k ==> anns[j].serviceType != PrestoType
  {
    if anns == [] then 0
    else if anns[0].serviceType == PrestoType then 0
    else 1 + PrestoIndex(anns[1..])
  }

  /** `getPrestoAnnouncement`; None stands for its IllegalArgumentException. */
  function FindPresto(anns: seq<Announcement>): Option<Announcement>
  {
    var k := PrestoIndex(anns);
    if k < |anns| then Some(anns[k]) else None
  }

  /** The number of announcements of type "presto". */
  function PrestoCount(anns: seq<Announcement>): nat
  {
    if anns == [] then 0
    else (if anns[0].serviceType == PrestoType then 1 else 0) + PrestoCount(anns[1..])
  }

  /** `removeServiceAnnouncement(id)`. */
  function RemoveById(anns: seq<Announcement>, id: nat): seq<Announcement>
  {
    if anns == [] then []
    else (if anns[0].id == id then [] else [anns[0]]) + RemoveById(anns[1..], id)
  }

  /** An id no current announcement holds: the model's stand-in for a random UUID. */
  function FreshId(anns: seq<Announcement>): (r: nat)
    ensures forall i :: 0 <= i < |anns| ==> anns[i].id < r
  {
    if anns == [] then 0
    else
      var rest := FreshId(anns[1..]);
      if anns[0].id < rest then rest else anns[0].id + 1
  }

  /** The properties of the rebuilt announcement: every other property verbatim,
      `connectorIds` replaced by the edited list. */
  function EditedProperties(properties: map<string, string>, name: string, action: CatalogAction): map<string, string>
  {
    (properties - {ConnectorIdsKey})[ConnectorIdsKey := JoinIds(EditIds(IdsOf(properties), name, action))]
  }

  /** The builder loop of lines 258-262: copy every property except `connectorIds`. */
  method CopyOtherProperties(properties: map<string, string>) returns (copied: map<string, string>)
    ensures forall k :: k in copied <==> k in properties && k != ConnectorIdsKey
    ensures forall k :: k in copied ==> copied[k] == properties[k]
  {
    copied := map[];
    var rest := properties.Keys;
    while rest != {}
      invariant rest <= properties.Keys
      invariant forall k :: k in copied <==> k in properties && k !in rest && k != ConnectorIdsKey
      invariant forall k :: k in copied ==> copied[k] == properties[k]
      decreases rest
    {
      var k :| k in rest;
      if k != ConnectorIdsKey {
        copied := copied[k := properties[k]];
      }
      rest := rest - {k};
    }
  }

  /** A copy of every other property plus the edited ids is the edited announcement's properties. */
  lemma CopiedIsEdited(properties: map<string, string>, copied: map<string, string>, name: string, action: CatalogAction)
    requires forall k :: k in copied <==> k in properties && k != ConnectorIdsKey
    requires forall k :: k in copied ==> copied[k] == properties[k]
    ensures copied[ConnectorIdsKey := JoinIds(EditIds(IdsOf(properties), name, action))]
         == EditedProperties(properties, name, action)
  {
    assert copied == properties - {ConnectorIdsKey};
  }

  /** The search finds something exactly when a "presto" announcement exists. */
  lemma FindPrestoIff(anns: seq<Announcement>)
    ensures FindPresto(anns).Some? <==> exists i :: 0 <= i < |anns| && anns[i].serviceType == PrestoType
    ensures FindPresto(anns).Some? ==> FindPresto(anns).value in anns
    ensures FindPresto(anns).Some? ==> FindPresto(anns).value.serviceType == PrestoType
  {
  }

  lemma {:induction false} PrestoCountAppend(s: seq<Announcement>, t: seq<Announcement>)
    ensures PrestoCount(s + t) == PrestoCount(s) + PrestoCount(t)
  {
    if s != [] {
      assert (s + t)[1..] == s[1..] + t;
      PrestoCountAppend(s[1..], t);
    } else {
      assert s + t == t;
    }
  }

  /** The search walks past a prefix without "presto" announcements. */
  lemma {:induction false} PrestoIndexAfter(s: seq<Announcement>, t: seq<Announcement>)
    requires forall i :: 0 <= i < |s| ==> s[i].serviceType != PrestoType
    ensures PrestoIndex(s + t) == |s| + PrestoIndex(t)
  {
    if s != [] {
      assert (s + t)[1..] == s[1..] + t;
      PrestoIndexAfter(s[1..], t);
    } else {
      assert s + t == t;
    }
  }

  /** No "presto" announcement is counted exactly when there is none. */
  lemma {:induction false} PrestoCountZero(anns: seq<Announcement>)
    ensures PrestoCount(anns) == 0 <==> forall i :: 0 <= i < |anns| ==> anns[i].serviceType != PrestoType
  {
    if anns != [] {
      PrestoCountZero(anns[1..]);
      assert forall i :: 1 <= i < |anns| ==> anns[i] == anns[1..][i - 1];
    }
  }

  /** Removing an id that one announcement holds removes that one and keeps the
      others in order; the presto count drops by one when it was a presto. */
  lemma {:induction false} RemoveByIdOne(anns: seq<Announcement>, k: nat)
    requires DistinctIds(anns) && k < |anns|
    ensures RemoveById(anns, anns[k].id) == anns[..k] + anns[k + 1..]
    ensures PrestoCount(RemoveById(anns, anns[k].id))
         == PrestoCount(anns) - (if anns[k].serviceType == PrestoType then 1 else 0)
  {
    var id := anns[k].id;
    if k == 0 {
      RemoveByIdAbsent(anns[1..], id);
      assert RemoveById(anns, id) == anns[1..];
      assert anns[..0] + anns[1..] == anns[1..];
    } else {
      CutTail(anns, k);
      RemoveByIdOne(anns[1..], k - 1);
    }
  }

  /** Removing an id nobody holds changes nothing. */
  lemma {:induction false} RemoveByIdAbsent(anns: seq<Announcement>, id: nat)
    requires forall i :: 0 <= i < |anns| ==> anns[i].id != id
    ensures RemoveById(anns, id) == anns
  {
    if anns != [] {
      RemoveByIdAbsent(anns[1..], id);
      assert anns == [anns[0]] + anns[1..];
    }
  }

  /** Removing the only "presto" announcement and appending a new one makes the
      new one the announcement the next search finds. */
  lemma ReplacePresto(anns: seq<Announcement>, next: Announcement)
    requires DistinctIds(anns) && PrestoCount(anns) == 1
    requires next.serviceType == PrestoType
    ensures FindPresto(anns).Some?
    ensures FindPresto(RemoveById(anns, FindPresto(anns).value.id) + [next]) == Some(next)
    ensures PrestoCount(RemoveById(anns, FindPresto(anns).value.id) + [next]) == 1
  {
    PrestoCountZero(anns);
    var k := PrestoIndex(anns);
    var rest := RemoveById(anns, anns[k].id);
    RemoveByIdOne(anns, k);
    PrestoCountZero(rest);
    PrestoCountAppend(rest, [next]);
    assert PrestoCount([next]) == 1;
    PrestoIndexAfter(rest, [next]);
  }

  /** The announcements after `updateConnectorIds(name, action)`: the presto
      announcement removed by id and its rebuilt copy, with a new id, added;
      None when no announcement has type "presto". */
  function Republish(anns: seq<Announcement>, name: string, action: CatalogAction): Option<seq<Announcement>>
  {
    match FindPresto(anns)
    case None => None
    case Some(a) =>
      var rebuilt := Announcement(FreshId(anns), a.serviceType, EditedProperties(a.properties, name, action));
      Some(RemoveById(anns, a.id) + [rebuilt])
  }

  /** The connector ids the announcer currently advertises for this node. */
  function PrestoIds(anns: seq<Announcement>): seq<string>
  {
    match FindPresto(anns)
    case None => []
    case Some(a) => IdsOf(a.properties)
  }

  /** `updateConnectorIds` fails exactly when no announcement has type "presto";
      otherwise the old id is gone, the rebuilt announcement keeps the type and
      every other property verbatim, ids stay unique and the number of presto
      announcements does not change. */
  lemma RepublishFacts(anns: seq<Announcement>, name: string, action: CatalogAction)
    requires DistinctIds(anns)
    ensures Republish(anns, name, action).None? <==>
      forall i :: 0 <= i < |anns| ==> anns[i].serviceType != PrestoType
    ensures Republish(anns, name, action).Some? ==>
      var s := Republish(anns, name, action).value;
      var a := FindPresto(anns).value;
      var b := s[|s| - 1];
      && DistinctIds(s)
      && PrestoCount(s) == PrestoCount(anns)
      && (forall i :: 0 <= i < |s| ==> s[i].id != a.id)
      && b.serviceType == a.serviceType
      && (forall k :: k != ConnectorIdsKey ==>
            (k in b.properties <==> k in a.properties) && (k in a.properties ==> b.properties[k] == a.properties[k]))
      && b.properties[ConnectorIdsKey] == JoinIds(EditIds(IdsOf(a.properties), name, action))
  {
    FindPrestoIff(anns);
    if FindPresto(anns).Some? {
      var k := PrestoIndex(anns);
      var a := anns[k];
      var rest := RemoveById(anns, a.id);
      RemoveByIdOne(anns, k);
      assert rest == anns[..k] + anns[k + 1..];
      var s := Republish(anns, name, action).value;
      var b := s[|s| - 1];
      assert s == rest + [b];
      PrestoCountAppend(rest, [b]);
      assert PrestoCount([b]) == 1;
      forall i, j | 0 <= i < j < |s| ensures s[i].id != s[j].id {
        if j < |rest| {
          CutIndex(anns, k, i);
          CutIndex(anns, k, j);
        } else {
          assert s[i] in anns;
        }
      }
      forall i | 0 <= i < |rest| ensures s[i].id != a.id {
        CutIndex(anns, k, i);
      }
    }
  }

  /** With exactly one presto announcement and a clean name, the ids advertised
      afterwards are the edited ids: ADD appends the name once, DELETE removes it. */
  lemma RepublishIds(anns: seq<Announcement>, name: string, action: CatalogAction)
    requires DistinctIds(anns) && PrestoCount(anns) == 1 && Clean(name)
    ensures Republish(anns, name, action).Some?
    ensures PrestoIds(Republish(anns, name, action).value) == EditIds(PrestoIds(anns), name, action)
  {
    PrestoCountZero(anns);
    var a := FindPresto(anns).value;
    var rebuilt := Announcement(FreshId(anns), a.serviceType, EditedProperties(a.properties, name, action));
    ReplacePresto(anns, rebuilt);
    IdsOfWellFormed(a.properties);
    EditIdsWellFormed(IdsOf(a.properties), name, action);
    IdsOfWritten(a.properties - {ConnectorIdsKey}, EditIds(IdsOf(a.properties), name, action));
  }

  /** The same, as sets: ADD adds the name to the advertised ids, DELETE takes it out. */
  lemma RepublishIdsElems(anns: seq<Announcement>, name: string, action: CatalogAction)
    requires DistinctIds(anns) && PrestoCount(anns) == 1 && Clean(name)
    ensures Republish(anns, name, action).Some?
    ensures PrestoCount(Republish(anns, name, action).value) == 1
    ensures DistinctIds(Republish(anns, name, action).value)
    ensures forall x :: x in PrestoIds(Republish(anns, name, action).value) <==>
      if action == DELETE then x in PrestoIds(anns) && x != name else x in PrestoIds(anns) || x == name
  {
    RepublishIds(anns, name, action);
    RepublishFacts(anns, name, action);
    PrestoCountZero(anns);
    IdsOfWellFormed(FindPresto(anns).value.properties);
    EditIdsWellFormed(PrestoIds(anns), name, action);
  }

  /** One `updateConnectorIds(name, action)` call. */
  datatype Edit = Edit(name: string, action: CatalogAction)

  /** The same action for each name, in order. */
  function Edits(names: seq<string>, action: CatalogAction): (r: seq<Edit>)
    ensures |r| == |names|
  {
    if names == [] then [] else [Edit(names[0], action)] + Edits(names[1..], action)
  }

  /** A DELETE then an ADD for each name, in order: what `updateCatalog` does. */
  function Replacements(names: seq<string>): (r: seq<Edit>)
    ensures |r| == 2 * |names|
  {
    if names == [] then [] else [Edit(names[0], DELETE), Edit(names[0], ADD)] + Replacements(names[1..])
  }

  /** The announcements after the edits one after another; None as soon as one fails. */
  function RepublishAll(anns: seq<Announcement>, edits: seq<Edit>): Option<seq<Announcement>>
    decreases |edits|
  {
    if edits == [] then Some(anns)
    else
      match Republish(anns, edits[0].name, edits[0].action)
      case None => None
      case Some(next) => RepublishAll(next, edits[1..])
  }

  /** The replacements of a first name, then those of the rest. */
  lemma RepublishAllReplacements(anns: seq<Announcement>, names: seq<string>)
    requires names != []
    ensures var deleted := Republish(anns, names[0], DELETE);
      RepublishAll(anns, Replacements(names)) ==
        if deleted.None? then None
        else if Republish(deleted.value, names[0], ADD).None? then None
        else RepublishAll(Republish(deleted.value, names[0], ADD).value, Replacements(names[1..]))
  {
    var rest := Replacements(names[1..]);
    PairParts(Edit(names[0], DELETE), Edit(names[0], ADD), rest);
    ConsParts(Edit(names[0], ADD), rest);
  }

  /** Whether `x` is advertised after the edits, given whether it was before:
      the last edit naming `x` decides. */
  predicate AdvertisedAfter(before: bool, x: string, edits: seq<Edit>)
    decreases |edits|
  {
    if edits == [] then before
    else AdvertisedAfter(if edits[0].name == x then edits[0].action != DELETE else before, x, edits[1..])
  }

  /** Running two lists of edits is running the first and then the second. */
  lemma {:induction false} RepublishAllAppend(anns: seq<Announcement>, e1: seq<Edit>, e2: seq<Edit>)
    ensures RepublishAll(anns, e1 + e2) ==
      if RepublishAll(anns, e1).None? then None else RepublishAll(RepublishAll(anns, e1).value, e2)
    decreases |e1|
  {
    if e1 == [] {
      assert e1 + e2 == e2;
    } else {
      assert (e1 + e2)[0] == e1[0] && (e1 + e2)[1..] == e1[1..] + e2;
      var next := Republish(anns, e1[0].name, e1[0].action);
      if next.Some? {
        RepublishAllAppend(next.value, e1[1..], e2);
      }
    }
  }

  /** The same for the advertised-after predicate. */
  lemma {:induction false} AdvertisedAfterAppend(before: bool, x: string, e1: seq<Edit>, e2: seq<Edit>)
    ensures AdvertisedAfter(before, x, e1 + e2) == AdvertisedAfter(AdvertisedAfter(before, x, e1), x, e2)
    decreases |e1|
  {
    if e1 == [] {
      assert e1 + e2 == e2;
    } else {
      assert (e1 + e2)[0] == e1[0] && (e1 + e2)[1..] == e1[1..] + e2;
      AdvertisedAfterAppend(if e1[0].name == x then e1[0].action != DELETE else before, x, e1[1..], e2);
    }
  }

  /** With one presto announcement and clean names, every edit goes through,
      the announcement stays the only presto one, ids stay unique, and an id is
      advertised afterwards exactly as the last edit naming it says. */
  lemma {:induction false} RepublishAllIds(anns: seq<Announcement>, edits: seq<Edit>)
    requires DistinctIds(anns) && PrestoCount(anns) == 1
    requires forall i :: 0 <= i < |edits| ==> Clean(edits[i].name)
    ensures RepublishAll(anns, edits).Some?
    ensures DistinctIds(RepublishAll(anns, edits).value) && PrestoCount(RepublishAll(anns, edits).value) == 1
    ensures forall x :: x in PrestoIds(RepublishAll(anns, edits).value) <==> AdvertisedAfter(x in PrestoIds(anns), x, edits)
    decreases |edits|
  {
    if edits != [] {
      var e := edits[0];
      RepublishIdsElems(anns, e.name, e.action);
      var next := Republish(anns, e.name, e.action).value;
      assert forall i :: 0 <= i < |edits[1..]| ==> edits[1..][i] == edits[i + 1];
      RepublishAllIds(next, edits[1..]);
    }
  }

  /** Adding names in some order advertises exactly the ids before and those names. */
  lemma {:induction false} AdvertisedAfterAdds(before: bool, x: string, names: seq<string>)
    ensures AdvertisedAfter(before, x, Edits(names, ADD)) <==> before || x in names
    decreases |names|
  {
    if names != [] {
      AdvertisedAfterAdds(before || names[0] == x, x, names[1..]);
      assert names == [names[0]] + names[1..];
    }
  }

  /** Deleting names in some order advertises exactly the ids before less those names. */
  lemma {:induction false} AdvertisedAfterDeletes(before: bool, x: string, names: seq<string>)
    ensures AdvertisedAfter(before, x, Edits(names, DELETE)) <==> before && x !in names
    decreases |names|
  {
    if names != [] {
      AdvertisedAfterDeletes(before && names[0] != x, x, names[1..]);
      assert names == [names[0]] + names[1..];
    }
  }

  /** Replacing names (DELETE then ADD each) leaves every one of them advertised. */
  lemma {:induction false} AdvertisedAfterReplacements(before: bool, x: string, names: seq<string>)
    ensures AdvertisedAfter(before, x, Replacements(names)) <==> before || x in names
    decreases |names|
  {
    if names != [] {
      var r := Replacements(names);
      assert r[1..][1..] == Replacements(names[1..]);
      AdvertisedAfterReplacements(before || names[0] == x, x, names[1..]);
      assert names == [names[0]] + names[1..];
    }
  }

  /** Every edit of `Edits(names, action)` names one of `names`. */
  lemma {:induction false} EditsNames(names: seq<string>, action: CatalogAction)
    ensures forall e :: e in Edits(names, action) ==> e.name in names && e.action == action
    decreases |names|
  {
    if names != [] {
      EditsNames(names[1..], action);
      assert names == [names[0]] + names[1..];
    }
  }

  /** Every edit of `Replacements(names)` names one of `names`. */
  lemma {:induction false} ReplacementsNames(names: seq<string>)
    ensures forall e :: e in Replacements(names) ==> e.name in names
    decreases |names|
  {
    if names != [] {
      ReplacementsNames(names[1..]);
      assert names == [names[0]] + names[1..];
    }
  }
}
