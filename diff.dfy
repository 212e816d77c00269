/**
 The classification loop of the timer task (lines 108-120): each record of
 the listing is split into fields, its first field is its name, and the name
 is recorded as remote, then as new (absent from `catalogMap`, which is
 written at once), as changed (present with a different line), or left alone.
 `Classify` is that loop over the records; None stands for the
 ArrayIndexOutOfBounds a record without fields raises at `catalogInfo[0]`.
 */
module Diff {
  import opened Options
  import opened Strings
  import opened CatalogRecord

  /** `newCatalog`, `updateCatalog`, `remoteCatalog`, and `catalogMap` as the loop leaves them. */
  datatype Classification = Classification(
    newCatalog: map<string, string>,
    updateCatalog: map<string, string>,
    remote: seq<string>,
    view: map<string, string>)

  /** One pass of the loop body. */
  function Step(c: Classification, line: string): Option<Classification>
  {
    match NameOf(line)
    case None => None
    case Some(name) =>
      var seen := c.remote + [name];
      if name !in c.view then
        Some(Classification(c.newCatalog[name := line], c.updateCatalog, seen, c.view[name := line]))
      else if c.view[name] != line then
        Some(Classification(c.newCatalog, c.updateCatalog[name := line], seen, c.view))
      else
        Some(Classification(c.newCatalog, c.updateCatalog, seen, c.view))
  }

  /** The whole loop over the records, starting from `catalogMap == view`. */
  function Classify(view: map<string, string>, lines: seq<string>): Option<Classification>
  {
    if lines == [] then Some(Classification(map[], map[], [], view))
    else
      match Classify(view, lines[..|lines| - 1])
      case None => None
      case Some(c) => Step(c, lines[|lines| - 1])
  }

  /** The last record named `name` whose line differs from `base`, or -1. */
  function LastDiffering(lines: seq<string>, names: seq<string>, name: string, base: string): (i: int)
    requires |lines| == |names|
    ensures -1 <= i < |lines|
    ensures i >= 0 ==> names[i] == name && lines[i] != base
    ensures forall j :: i < j < |lines| ==> !(names[j] == name && lines[j] != base)
  {
    if lines == [] then -1
    else if names[|names| - 1] == name && lines[|lines| - 1] != base then |lines| - 1
    else LastDiffering(lines[..|lines| - 1], names[..|names| - 1], name, base)
  }

  /** The loop completes exactly when every record has a first field. */
  lemma {:induction false} ClassifyFailsIff(view: map<string, string>, lines: seq<string>)
    ensures Classify(view, lines).None? <==> exists i :: 0 <= i < |lines| && NameOf(lines[i]).None?
  {
    if lines != [] {
      var prefix := lines[..|lines| - 1];
      ClassifyFailsIff(view, prefix);
      assert forall i :: 0 <= i < |prefix| ==> prefix[i] == lines[i];
    }
  }

  /** `remoteCatalog` is the first field of every record, in order. */
  lemma {:induction false} ClassifyRemote(view: map<string, string>, lines: seq<string>)
    requires Classify(view, lines).Some?
    ensures |Classify(view, lines).value.remote| == |lines|
    ensures forall i :: 0 <= i < |lines| ==> NameOf(lines[i]) == Some(Classify(view, lines).value.remote[i])
  {
    if lines != [] {
      var prefix := lines[..|lines| - 1];
      ClassifyRemote(view, prefix);
      assert forall i :: 0 <= i < |prefix| ==> prefix[i] == lines[i];
    }
  }

  /** What one pass of the body does to the four collections. */
  lemma StepFacts(c: Classification, line: string)
    requires Step(c, line).Some?
    ensures var d := Step(c, line).value; var name := NameOf(line).value;
      && NameOf(line).Some?
      && d.remote == c.remote + [name]
      && (name !in c.view ==>
            d.view == c.view[name := line] && d.newCatalog == c.newCatalog[name := line]
            && d.updateCatalog == c.updateCatalog)
      && (name in c.view && c.view[name] != line ==>
            d.view == c.view && d.newCatalog == c.newCatalog
            && d.updateCatalog == c.updateCatalog[name := line])
      && (name in c.view && c.view[name] == line ==>
            d.view == c.view && d.newCatalog == c.newCatalog && d.updateCatalog == c.updateCatalog)
  {
  }

  /** Peeling the last record off a completed loop. */
  lemma ClassifyLast(view: map<string, string>, lines: seq<string>)
    requires lines != [] && Classify(view, lines).Some?
    ensures Classify(view, lines[..|lines| - 1]).Some?
    ensures Step(Classify(view, lines[..|lines| - 1]).value, lines[|lines| - 1]) == Classify(view, lines)
  {
  }

  /** After the loop, `catalogMap` holds every old entry unchanged plus every
      listed name that was absent; `newCatalog` holds exactly those new names,
      with the line `catalogMap` got for them. */
  lemma {:induction false} ClassifyView(view: map<string, string>, lines: seq<string>)
    requires Classify(view, lines).Some?
    ensures var c := Classify(view, lines).value;
      && (forall n :: n in c.view <==> n in view || n in c.remote)
      && (forall n :: n in view ==> c.view[n] == view[n])
      && (forall n :: n in c.newCatalog <==> n in c.remote && n !in view)
      && (forall n :: n in c.newCatalog ==> c.newCatalog[n] == c.view[n])
  {
    if lines != [] {
      var prefix := lines[..|lines| - 1];
      ClassifyLast(view, lines);
      ClassifyView(view, prefix);
      StepFacts(Classify(view, prefix).value, lines[|lines| - 1]);
    }
  }

  /** A new name enters `catalogMap` with its FIRST record. */
  lemma {:induction false} ClassifyFirstRecord(view: map<string, string>, lines: seq<string>, i: nat)
    requires Classify(view, lines).Some?
    requires i < |lines|
    ensures |Classify(view, lines).value.remote| == |lines|
    ensures Classify(view, lines).value.remote[i] in Classify(view, lines).value.view
    ensures var c := Classify(view, lines).value;
      c.remote[i] !in view && c.remote[i] !in c.remote[..i] ==> c.view[c.remote[i]] == lines[i]
  {
    ClassifyRemote(view, lines);
    var c := Classify(view, lines).value;
    var k := |lines| - 1;
    var prefix := lines[..k];
    ClassifyLast(view, lines);
    var p := Classify(view, prefix).value;
    StepFacts(p, lines[k]);
    ClassifyRemote(view, prefix);
    ClassifyView(view, prefix);
    if c.remote[i] !in view && c.remote[i] !in c.remote[..i] {
      if i < k {
        ClassifyFirstRecord(view, prefix, i);
        assert c.remote[..i] == p.remote[..i];
        assert p.remote[i] == c.remote[i] && prefix[i] == lines[i];
      } else {
        assert c.remote[..i] == p.remote;
      }
    }
  }

  /** The loop's treatment of one name: it is in `updateCatalog` exactly when
      some record of it differs from its line in `catalogMap`, with the last
      such record. */
  lemma {:induction false} ClassifyUpdateOf(view: map<string, string>, lines: seq<string>, n: string)
    requires Classify(view, lines).Some?
    ensures |Classify(view, lines).value.remote| == |lines|
    ensures var c := Classify(view, lines).value;
      && (n in c.updateCatalog ==> n in c.view)
      && (n in c.view ==> (n in c.updateCatalog <==> LastDiffering(lines, c.remote, n, c.view[n]) >= 0))
      && (n in c.updateCatalog ==> c.updateCatalog[n] == lines[LastDiffering(lines, c.remote, n, c.view[n])])
  {
    ClassifyRemote(view, lines);
    if lines != [] {
      var k := |lines| - 1;
      var prefix := lines[..k];
      ClassifyLast(view, lines);
      ClassifyUpdateOf(view, prefix, n);
      ClassifyView(view, prefix);
      var p := Classify(view, prefix).value;
      var c := Classify(view, lines).value;
      StepFacts(p, lines[k]);
      var m := c.remote[k];
      assert c.remote[..k] == p.remote;
      if n in c.view {
        var b := c.view[n];
        assert LastDiffering(lines, c.remote, n, b)
            == if m == n && lines[k] != b then k else LastDiffering(prefix, p.remote, n, b);
        if n !in p.view {
          assert n == m && b == lines[k];
          assert n !in p.remote;
          assert LastDiffering(prefix, p.remote, n, b) == -1;
        }
      }
    }
  }

  /** `updateCatalog` holds exactly the names with a record that differs from
      their line in `catalogMap` (the old line, or the first record of a new
      name), each with the LAST such record. */
  lemma ClassifyUpdate(view: map<string, string>, lines: seq<string>)
    requires Classify(view, lines).Some?
    ensures |Classify(view, lines).value.remote| == |lines|
    ensures var c := Classify(view, lines).value;
      && (forall n :: n in c.updateCatalog ==> n in c.view)
      && (forall n :: n in c.view ==>
            (n in c.updateCatalog <==> LastDiffering(lines, c.remote, n, c.view[n]) >= 0))
      && (forall n :: n in c.updateCatalog ==>
            c.updateCatalog[n] == lines[LastDiffering(lines, c.remote, n, c.view[n])])
  {
    ClassifyRemote(view, lines);
    var c := Classify(view, lines).value;
    forall n
      ensures n in c.updateCatalog ==> n in c.view
      ensures n in c.view ==> (n in c.updateCatalog <==> LastDiffering(lines, c.remote, n, c.view[n]) >= 0)
      ensures n in c.updateCatalog ==> c.updateCatalog[n] == lines[LastDiffering(lines, c.remote, n, c.view[n])]
    {
      ClassifyUpdateOf(view, lines, n);
    }
  }

  /** At least one record is named `n`, and every record named `n` is `line`. */
  predicate ListedAs(lines: seq<string>, n: string, line: string)
  {
    && (exists i :: 0 <= i < |lines| && NameOf(lines[i]) == Some(n))
    && (forall i :: 0 <= i < |lines| && NameOf(lines[i]) == Some(n) ==> lines[i] == line)
  }

  /** No record is named `n`. */
  predicate Unlisted(lines: seq<string>, n: string)
  {
    forall i :: 0 <= i < |lines| ==> NameOf(lines[i]) != Some(n)
  }

  /** A name the loop adds to `catalogMap` comes with one of its own records. */
  lemma {:induction false} ClassifyViewNew(view: map<string, string>, lines: seq<string>, n: string)
    requires Classify(view, lines).Some?
    ensures var c := Classify(view, lines).value;
      n in c.view && n !in view ==>
        exists i :: 0 <= i < |lines| && NameOf(lines[i]) == Some(n) && c.view[n] == lines[i]
  {
    if lines != [] {
      var k := |lines| - 1;
      var prefix := lines[..k];
      ClassifyLast(view, lines);
      ClassifyViewNew(view, prefix, n);
      var p := Classify(view, prefix).value;
      var c := Classify(view, lines).value;
      StepFacts(p, lines[k]);
      if n in c.view && n !in view && n in p.view {
        var i :| 0 <= i < |prefix| && NameOf(prefix[i]) == Some(n) && p.view[n] == prefix[i];
        assert prefix[i] == lines[i];
      }
    }
  }

  /** A name listed with one line only: it is new exactly when `catalogMap`
      lacks it, and changed exactly when `catalogMap` holds a different line. */
  lemma ClassifyListed(view: map<string, string>, lines: seq<string>, n: string, line: string)
    requires Classify(view, lines).Some? && ListedAs(lines, n, line)
    ensures var c := Classify(view, lines).value;
      && n in c.remote && n in c.view
      && c.view[n] == (if n in view then view[n] else line)
      && (n in c.newCatalog <==> n !in view)
      && (n in c.updateCatalog <==> n in view && view[n] != line)
      && (n in c.updateCatalog ==> c.updateCatalog[n] == line)
  {
    var c := Classify(view, lines).value;
    ClassifyRemote(view, lines);
    ClassifyView(view, lines);
    ClassifyUpdateOf(view, lines, n);
    ClassifyViewNew(view, lines, n);
    var i :| 0 <= i < |lines| && NameOf(lines[i]) == Some(n);
    assert c.remote[i] == n;
    var base := c.view[n];
    var last := LastDiffering(lines, c.remote, n, base);
    if last >= 0 {
      assert NameOf(lines[last]) == Some(n);
    } else {
      assert !(c.remote[i] == n && lines[i] != base);
    }
  }

  /** A name without records is neither remote, new nor changed, and stays
      in `catalogMap` exactly when it was there. */
  lemma ClassifyUnlisted(view: map<string, string>, lines: seq<string>, n: string)
    requires Classify(view, lines).Some? && Unlisted(lines, n)
    ensures var c := Classify(view, lines).value;
      && n !in c.remote && n !in c.newCatalog && n !in c.updateCatalog
      && (n in c.view <==> n in view)
  {
    var c := Classify(view, lines).value;
    ClassifyRemote(view, lines);
    ClassifyView(view, lines);
    ClassifyUpdateOf(view, lines, n);
  }

  /** Every line the loop writes names its own key, so the key invariant of
      `catalogMap` survives it, and the three maps satisfy it too. */
  lemma {:induction false} ClassifyKeysMatch(view: map<string, string>, lines: seq<string>)
    requires Classify(view, lines).Some?
    ensures KeysMatch(Classify(view, lines).value.newCatalog)
    ensures KeysMatch(Classify(view, lines).value.updateCatalog)
    ensures KeysMatch(view) ==> KeysMatch(Classify(view, lines).value.view)
  {
    if lines != [] {
      ClassifyKeysMatch(view, lines[..|lines| - 1]);
    }
  }
}
