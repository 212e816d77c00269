/**
 The calls the store issues to the connector manager. A completed tick issues
 the creates of its add phase, then one drop-and-create pair per changed name,
 then one drop per removed name; the functions below give each phase for a
 given iteration order, and the lemmas count the calls per catalog name.
 */
module Lifecycle {
  import opened Options
  import opened Sequences
  import opened Strings
  import opened CatalogRecord

  /** `createConnection(name, kind, properties)` or `dropConnection(name)`. */
  datatype Call = Create(name: string, kind: string, properties: map<string, string>) | Drop(name: string)

  /** The create `addCatalog` issues for a decoded line. */
  function CreateFor(c: Connection): Call
  {
    Create(c.name, MysqlConnector, Properties(c))
  }

  /** Every name of `order` has a line in `lines` that decodes and names it. */
  ghost predicate DecodableUnder(order: seq<string>, lines: map<string, string>)
  {
    order == [] ||
    (&& order[0] in lines && Decode(lines[order[0]]).Some? && Decode(lines[order[0]]).value.name == order[0]
     && DecodableUnder(order[1..], lines))
  }

  /** The add phase: one `addCatalog` per name, in `order`. */
  ghost function AddCalls(order: seq<string>, lines: map<string, string>): seq<Call>
    requires DecodableUnder(order, lines)
  {
    if order == [] then []
    else [CreateFor(Decode(lines[order[0]]).value)] + AddCalls(order[1..], lines)
  }

  /** The update phase: `deleteCatalog` then `addCatalog` per name, in `order`. */
  ghost function UpdateCalls(order: seq<string>, lines: map<string, string>): seq<Call>
    requires DecodableUnder(order, lines)
  {
    if order == [] then []
    else [Drop(order[0]), CreateFor(Decode(lines[order[0]]).value)] + UpdateCalls(order[1..], lines)
  }

  /** The delete phase: one drop per name, in `order`. */
  ghost function DropCalls(order: seq<string>): seq<Call>
  {
    if order == [] then [] else [Drop(order[0])] + DropCalls(order[1..])
  }

  /** How many creates for catalog `name` the calls hold. */
  function CreatesOf(calls: seq<Call>, name: string): nat
  {
    if calls == [] then 0
    else (if calls[0].Create? && calls[0].name == name then 1 else 0) + CreatesOf(calls[1..], name)
  }

  /** How many drops of catalog `name` the calls hold. */
  function DropsOf(calls: seq<Call>, name: string): nat
  {
    if calls == [] then 0
    else (if calls[0].Drop? && calls[0].name == name then 1 else 0) + DropsOf(calls[1..], name)
  }

  /** Counting is additive over concatenation. */
  lemma {:induction false} CountsAppend(a: seq<Call>, b: seq<Call>, name: string)
    ensures CreatesOf(a + b, name) == CreatesOf(a, name) + CreatesOf(b, name)
    ensures DropsOf(a + b, name) == DropsOf(a, name) + DropsOf(b, name)
  {
    if a == [] {
      assert a + b == b;
    } else {
      assert (a + b)[0] == a[0] && (a + b)[1..] == a[1..] + b;
      CountsAppend(a[1..], b, name);
    }
  }

  /** A call for another catalog changes neither count of `name`. */
  lemma CountsSnocOther(calls: seq<Call>, x: Call, name: string)
    requires x.name != name
    ensures CreatesOf(calls + [x], name) == CreatesOf(calls, name)
    ensures DropsOf(calls + [x], name) == DropsOf(calls, name)
  {
    CountsAppend(calls, [x], name);
    assert [x][1..] == [];
  }

  /** Every name of a decodable order, one at a time. */
  lemma {:induction false} DecodableUnderEach(order: seq<string>, lines: map<string, string>)
    requires DecodableUnder(order, lines)
    ensures forall i :: 0 <= i < |order| ==>
      order[i] in lines && Decode(lines[order[i]]).Some? && Decode(lines[order[i]]).value.name == order[i]
  {
    if order != [] {
      DecodableUnderEach(order[1..], lines);
      assert forall i :: 1 <= i < |order| ==> order[i] == order[1..][i - 1];
    }
  }

  /** The add phase issues one create per name, at the name's position. */
  lemma {:induction false} AddCallsAt(order: seq<string>, lines: map<string, string>, i: nat)
    requires DecodableUnder(order, lines) && i < |order|
    requires order[i] in lines && Decode(lines[order[i]]).Some?
    ensures i < |AddCalls(order, lines)|
    ensures AddCalls(order, lines)[i] == CreateFor(Decode(lines[order[i]]).value)
  {
    if i > 0 {
      AddCallsAt(order[1..], lines, i - 1);
    }
  }

  /** In the add phase each listed name is created exactly once, with the
      properties decoded from its own line, and nothing is dropped. */
  lemma {:induction false} AddCallsCount(order: seq<string>, lines: map<string, string>, name: string)
    requires DecodableUnder(order, lines) && Distinct(order)
    ensures CreatesOf(AddCalls(order, lines), name) == if name in order then 1 else 0
    ensures DropsOf(AddCalls(order, lines), name) == 0
    ensures forall c :: c in AddCalls(order, lines) ==>
      c.name in lines && Decode(lines[c.name]).Some? && c == CreateFor(Decode(lines[c.name]).value)
  {
    if order != [] {
      var rest := order[1..];
      var first := [CreateFor(Decode(lines[order[0]]).value)];
      DistinctTail(order);
      AddCallsCount(rest, lines, name);
      CountsAppend(first, AddCalls(rest, lines), name);
      assert first[1..] == [];
      assert order == [order[0]] + rest;
      assert name in order <==> name == order[0] || name in rest;
    }
  }

  /** In the update phase each changed name is dropped once and created once. */
  lemma {:induction false} UpdateCallsCount(order: seq<string>, lines: map<string, string>, name: string)
    requires DecodableUnder(order, lines) && Distinct(order)
    ensures CreatesOf(UpdateCalls(order, lines), name) == if name in order then 1 else 0
    ensures DropsOf(UpdateCalls(order, lines), name) == if name in order then 1 else 0
  {
    if order != [] {
      var n := order[0];
      var rest := order[1..];
      var create := CreateFor(Decode(lines[n]).value);
      var after := UpdateCalls(rest, lines);
      DistinctTail(order);
      UpdateCallsCount(rest, lines, name);
      PairParts(Drop(n), create, after);
      ConsParts(create, after);
      assert CreatesOf([create] + after, name) == (if n == name then 1 else 0) + CreatesOf(after, name);
      assert DropsOf([create] + after, name) == DropsOf(after, name);
      assert order == [n] + rest;
      assert name in order <==> name == n || name in rest;
    }
  }

  /** In the update phase the drop of each changed name comes immediately
      before its create, which takes the fields of its line. */
  lemma {:induction false} UpdateCallsAdjacent(order: seq<string>, lines: map<string, string>, name: string)
    requires DecodableUnder(order, lines) && name in order
    ensures exists j, c :: 0 <= j < |UpdateCalls(order, lines)| - 1 &&
                           UpdateCalls(order, lines)[j] == Drop(name) &&
                           name in lines && Decode(lines[name]) == Some(c) &&
                           UpdateCalls(order, lines)[j + 1] == CreateFor(c)
  {
    var n := order[0];
    var rest := order[1..];
    var after := UpdateCalls(rest, lines);
    var all := UpdateCalls(order, lines);
    assert all == [Drop(n), CreateFor(Decode(lines[n]).value)] + after;
    if name == n {
      assert all[0] == Drop(name) && all[1] == CreateFor(Decode(lines[n]).value);
    } else {
      assert order == [n] + rest;
      UpdateCallsAdjacent(rest, lines, name);
      var j, c :| 0 <= j < |after| - 1 && after[j] == Drop(name) &&
        name in lines && Decode(lines[name]) == Some(c) && after[j + 1] == CreateFor(c);
      assert all[j + 2] == after[j] && all[j + 3] == after[j + 1];
    }
  }

  /** In the delete phase each removed name is dropped exactly once and nothing is created. */
  lemma {:induction false} DropCallsCount(order: seq<string>, name: string)
    requires Distinct(order)
    ensures DropsOf(DropCalls(order), name) == if name in order then 1 else 0
    ensures CreatesOf(DropCalls(order), name) == 0
    ensures forall c :: c in DropCalls(order) ==> c.Drop? && c.name in order
  {
    if order != [] {
      var n := order[0];
      var rest := order[1..];
      DistinctTail(order);
      DropCallsCount(rest, name);
      CountsAppend([Drop(n)], DropCalls(rest), name);
      assert [Drop(n)][1..] == [];
      assert order == [n] + rest;
      assert name in order <==> name == n || name in rest;
      forall c | c in DropCalls(order) ensures c.Drop? && c.name in order {
        if c in DropCalls(rest) {
          assert c.name in rest;
        }
      }
    }
  }
}
