/**
 The `connectorIds` property of the presto announcement: a comma-separated
 list that `updateConnectorIds` reads with Guava's
 `Splitter.on(',').trimResults().omitEmptyStrings()`, puts into a
 `LinkedHashSet`, edits by one name and writes back with `Joiner.on(',')`.
 */
module ConnectorIds {
  import opened Sequences
  import opened Strings

  const ConnectorIdsKey: string := "connectorIds"
  const Comma: char := ','

  /** The action passed to `updateConnectorIds` (the source's `CataLogAction`). */
  datatype CatalogAction = ADD | DELETE | UPDATE

  /** Guava's `CharMatcher.whitespace()`: the Unicode White_Space characters. */
  predicate IsWhitespace(c: char)
  {
    || c == '\t' || c == '\n' || c == '\U{B}' || c == '\U{C}' || c == '\r' || c == ' '
    || c == '\U{85}' || c == '\U{A0}' || c == '\U{1680}'
    || ('\U{2000}' <= c <= '\U{200A}')
    || c == '\U{2028}' || c == '\U{2029}' || c == '\U{202F}' || c == '\U{205F}' || c == '\U{3000}'
  }

  function TrimStart(s: string): string
  {
    if |s| > 0 && IsWhitespace(s[0]) then TrimStart(s[1..]) else s
  }

  function TrimEnd(s: string): string
  {
    if |s| > 0 && IsWhitespace(s[|s| - 1]) then TrimEnd(s[..|s| - 1]) else s
  }

  /** `trimResults()`: leading and trailing whitespace removed. */
  function Trim(s: string): string
  {
    TrimEnd(TrimStart(s))
  }

  lemma {:induction false} TrimStartFacts(s: string)
    ensures forall c :: c in TrimStart(s) ==> c in s
    ensures TrimStart(s) == "" || !IsWhitespace(TrimStart(s)[0])
    ensures |TrimStart(s)| <= |s| && TrimStart(s) == s[|s| - |TrimStart(s)|..]
  {
    if |s| > 0 && IsWhitespace(s[0]) {
      TrimStartFacts(s[1..]);
    }
  }

  lemma {:induction false} TrimEndFacts(s: string)
    ensures forall c :: c in TrimEnd(s) ==> c in s
    ensures TrimEnd(s) == "" || !IsWhitespace(TrimEnd(s)[|TrimEnd(s)| - 1])
    ensures TrimEnd(s) <= s
  {
    if |s| > 0 && IsWhitespace(s[|s| - 1]) {
      TrimEndFacts(s[..|s| - 1]);
    }
  }

  /** The trimmed string keeps only characters of `s` and starts and ends
      with a character that is not whitespace. */
  lemma TrimFacts(s: string)
    ensures forall c :: c in Trim(s) ==> c in s
    ensures Trim(s) == "" || (!IsWhitespace(Trim(s)[0]) && !IsWhitespace(Trim(s)[|Trim(s)| - 1]))
  {
    var t := TrimStart(s);
    TrimStartFacts(s);
    TrimEndFacts(t);
    var r := TrimEnd(t);
    if r != "" {
      assert r[0] == t[0];
    }
  }

  /** An id that survives a write and a re-read unchanged. */
  predicate Clean(id: string)
  {
    id != "" && Comma !in id && !IsWhitespace(id[0]) && !IsWhitespace(id[|id| - 1])
  }

  predicate AllClean(ids: seq<string>)
  {
    forall i :: 0 <= i < |ids| ==> Clean(ids[i])
  }

  /** The trimmed, non-empty pieces, in order. */
  function TrimmedPieces(pieces: seq<string>): seq<string>
  {
    if pieces == [] then []
    else
      var t := Trim(pieces[0]);
      (if t == "" then [] else [t]) + TrimmedPieces(pieces[1..])
  }

  /** `Splitter.on(',').trimResults().omitEmptyStrings().splitToList(property)`. */
  function ParseIds(property: string): seq<string>
  {
    TrimmedPieces(SplitAll(property, Comma))
  }

  /** `new LinkedHashSet<>(values)`, in iteration order: first occurrences kept. */
  function Dedup(values: seq<string>): seq<string>
  {
    if values == [] then []
    else
      var prefix := Dedup(values[..|values| - 1]);
      var last := values[|values| - 1];
      if last in prefix then prefix else prefix + [last]
  }

  /** The set keeps one copy of every value and nothing else. */
  lemma {:induction false} DedupFacts(values: seq<string>)
    ensures Distinct(Dedup(values))
    ensures forall x :: x in Dedup(values) <==> x in values
  {
    if values != [] {
      var front := values[..|values| - 1];
      DedupFacts(front);
      assert values == front + [values[|values| - 1]];
    }
  }

  /** `LinkedHashSet.add`: appended when absent. */
  function AddId(ids: seq<string>, name: string): seq<string>
  {
    if name in ids then ids else ids + [name]
  }

  /** `LinkedHashSet.remove`. */
  function RemoveId(ids: seq<string>, name: string): seq<string>
  {
    if ids == [] then []
    else (if ids[0] == name then [] else [ids[0]]) + RemoveId(ids[1..], name)
  }

  /** The edit of lines 251-255: DELETE removes, every other action adds. */
  function EditIds(ids: seq<string>, name: string, action: CatalogAction): seq<string>
  {
    if action == DELETE then RemoveId(ids, name) else AddId(ids, name)
  }

  /** `Joiner.on(',').join(connectorIds)`. */
  function JoinIds(ids: seq<string>): string
  {
    Join(ids, Comma)
  }

  /** The ids an announcement currently advertises; a missing property reads as "". */
  function IdsOf(properties: map<string, string>): seq<string>
  {
    Dedup(ParseIds(if ConnectorIdsKey in properties then properties[ConnectorIdsKey] else ""))
  }

  lemma TrimOfClean(id: string)
    requires id != "" && !IsWhitespace(id[0]) && !IsWhitespace(id[|id| - 1])
    ensures Trim(id) == id
  {
  }

  /** Every parsed id is clean: trimmed, non-empty and without a comma. */
  lemma {:induction false} TrimmedPiecesClean(pieces: seq<string>)
    requires forall i :: 0 <= i < |pieces| ==> Comma !in pieces[i]
    ensures AllClean(TrimmedPieces(pieces))
  {
    if pieces != [] {
      TrimFacts(pieces[0]);
      TrimmedPiecesClean(pieces[1..]);
    }
  }

  lemma ParseIdsClean(property: string)
    ensures AllClean(ParseIds(property))
  {
    SplitAllSeparatorFree(property, Comma);
    TrimmedPiecesClean(SplitAll(property, Comma));
  }

  /** Clean pieces pass the trimming and the empty-string filter untouched. */
  lemma {:induction false} TrimmedPiecesOfClean(ids: seq<string>)
    requires AllClean(ids)
    ensures TrimmedPieces(ids) == ids
  {
    if ids != [] {
      TrimOfClean(ids[0]);
      TrimmedPiecesOfClean(ids[1..]);
      assert [ids[0]] + ids[1..] == ids;
    }
  }

  /** Writing clean ids and reading them back gives the same list. */
  lemma ParseJoinIds(ids: seq<string>)
    requires AllClean(ids)
    ensures ParseIds(JoinIds(ids)) == ids
  {
    if ids == [] {
      assert JoinIds(ids) == "";
      assert SplitAll("", Comma) == [""];
      assert Trim("") == "";
      assert TrimmedPieces([""]) == [] + TrimmedPieces([]);
    } else {
      SplitAllJoin(ids, Comma);
      TrimmedPiecesOfClean(ids);
    }
  }

  /** A list without duplicates is its own `LinkedHashSet`. */
  lemma {:induction false} DedupOfDistinct(ids: seq<string>)
    requires Distinct(ids)
    ensures Dedup(ids) == ids
  {
    if ids != [] {
      var prefix := ids[..|ids| - 1];
      DedupOfDistinct(prefix);
      assert ids[|ids| - 1] !in prefix;
      assert prefix + [ids[|ids| - 1]] == ids;
    }
  }

  /** The ids a clean, duplicate-free list advertises after being written back. */
  lemma IdsOfWritten(properties: map<string, string>, ids: seq<string>)
    requires AllClean(ids) && Distinct(ids)
    ensures IdsOf(properties[ConnectorIdsKey := JoinIds(ids)]) == ids
  {
    ParseJoinIds(ids);
    DedupOfDistinct(ids);
  }

  /** ADD: the name ends up exactly once, the existing ids keep their order and
      a new name goes at the end. */
  lemma AddIdAppends(ids: seq<string>, name: string)
    requires Distinct(ids)
    ensures Distinct(AddId(ids, name))
    ensures ids <= AddId(ids, name)
    ensures name in ids ==> AddId(ids, name) == ids
    ensures name !in ids ==> AddId(ids, name) == ids + [name]
    ensures forall x :: x in AddId(ids, name) <==> x in ids || x == name
    ensures |set i | 0 <= i < |AddId(ids, name)| && AddId(ids, name)[i] == name| == 1
  {
    var r := AddId(ids, name);
    var k :| 0 <= k < |r| && r[k] == name;
    assert (set i | 0 <= i < |r| && r[i] == name) == {k};
  }

  /** DELETE: exactly the name disappears; every other id stays. */
  lemma {:induction false} RemoveIdRemovesOnly(ids: seq<string>, name: string)
    ensures name !in RemoveId(ids, name)
    ensures forall x :: x != name ==> (x in RemoveId(ids, name) <==> x in ids)
    ensures name !in ids ==> RemoveId(ids, name) == ids
    ensures Distinct(ids) ==> Distinct(RemoveId(ids, name))
  {
    if ids != [] {
      RemoveIdRemovesOnly(ids[1..], name);
      assert ids == [ids[0]] + ids[1..];
      var rest := RemoveId(ids[1..], name);
      if Distinct(ids) && ids[0] != name {
        assert ids[0] !in ids[1..];
        assert ids[0] !in rest;
        assert Distinct(ids[1..]);
        var r := [ids[0]] + rest;
        forall i, j | 0 <= i < j < |r| ensures r[i] != r[j] {
          if i > 0 {
            assert r[i] == rest[i - 1] && r[j] == rest[j - 1];
          } else {
            assert r[j] in rest;
          }
        }
      }
    }
  }

  /** With a clean name, the edited list is clean and free of duplicates. */
  lemma EditIdsWellFormed(ids: seq<string>, name: string, action: CatalogAction)
    requires Distinct(ids) && AllClean(ids) && Clean(name)
    ensures Distinct(EditIds(ids, name, action)) && AllClean(EditIds(ids, name, action))
    ensures forall x :: x in EditIds(ids, name, action) <==>
      if action == DELETE then x in ids && x != name else x in ids || x == name
  {
    if action == DELETE {
      RemoveIdRemovesOnly(ids, name);
      var r := RemoveId(ids, name);
      forall i | 0 <= i < |r| ensures Clean(r[i]) {
        assert r[i] in ids;
      }
    } else {
      AddIdAppends(ids, name);
    }
  }

  /** Names that are not clean break the promise of a clean, duplicate-free
      list: adding "" writes an empty entry that is lost on the next read, and
      adding " a" beside "a" writes an entry that reads back as a second "a". */
  lemma UncleanNamesBreakIds()
    ensures JoinIds(EditIds(["a"], "", ADD)) == "a," && ParseIds("a,") == ["a"]
    ensures JoinIds(EditIds(["a"], " a", ADD)) == "a, a" && ParseIds("a, a") == ["a", "a"]
  {
    assert EditIds(["a"], "", ADD) == ["a", ""];
    assert EditIds(["a"], " a", ADD) == ["a", " a"];
    assert "a," == "a" + [Comma] + "";
    SplitAllAfterPiece("a", Comma, "");
    SplitAllNoSeparator(" a", Comma);
    assert "a, a" == "a" + [Comma] + " a";
    SplitAllAfterPiece("a", Comma, " a");
    assert TrimStart(" a") == "a";
    assert Trim(" a") == "a";
  }

  /** The ids read from any announcement are clean and free of duplicates. */
  lemma IdsOfWellFormed(properties: map<string, string>)
    ensures Distinct(IdsOf(properties)) && AllClean(IdsOf(properties))
  {
    var text := if ConnectorIdsKey in properties then properties[ConnectorIdsKey] else "";
    ParseIdsClean(text);
    var parsed := ParseIds(text);
    DedupFacts(parsed);
    var r := IdsOf(properties);
    forall i | 0 <= i < |r| ensures Clean(r[i]) {
      assert r[i] in parsed;
    }
  }
}
