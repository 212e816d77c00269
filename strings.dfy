/**
 The few pieces of the Java and Guava string libraries that the catalog store
 relies on, stated over `string` (a `seq<char>`):
 - `String.split(regex)` when the regex is one ordinary character (Java's fast
   path): it splits on every occurrence and then drops TRAILING empty strings,
   and a string without the separator comes back whole, even when it is empty;
 - Guava's `Splitter.on(c)` and `Joiner.on(c)`, which keep every piece;
 - `String.endsWith` and Guava's `Files.getNameWithoutExtension`.
 */
module Strings {

  /** Every piece of `s` between occurrences of `sep`, empty pieces included
      (what `Splitter.on(sep)` yields, and `String.split` before it trims). */
  function SplitAll(s: string, sep: char): (parts: seq<string>)
    ensures |parts| >= 1
  {
    if |s| == 0 then [""]
    else
      var rest := SplitAll(s[1..], sep);
      if s[0] == sep then [""] + rest
      else [[s[0]] + rest[0]] + rest[1..]
  }

  /** The pieces glued back together with `sep` between neighbours. */
  function Join(parts: seq<string>, sep: char): string
  {
    if |parts| == 0 then ""
    else if |parts| == 1 then parts[0]
    else parts[0] + [sep] + Join(parts[1..], sep)
  }

  /** The longest prefix of `parts` that does not end in an empty string. */
  function DropTrailingEmpty(parts: seq<string>): (r: seq<string>)
    ensures r <= parts
    ensures |r| > 0 ==> r[|r| - 1] != ""
  {
    if |parts| == 0 then []
    else if parts[|parts| - 1] == "" then DropTrailingEmpty(parts[..|parts| - 1])
    else parts
  }

  /** Java's `s.split(String.valueOf(sep))` for a separator that is not a regex
      metacharacter. */
  function Split(s: string, sep: char): (r: seq<string>)
    ensures sep !in s ==> r == [s]
  {
    if sep !in s then [s] else DropTrailingEmpty(SplitAll(s, sep))
  }

  /** No piece holds the separator. */
  lemma {:induction false} SplitAllSeparatorFree(s: string, sep: char)
    ensures forall i :: 0 <= i < |SplitAll(s, sep)| ==> sep !in SplitAll(s, sep)[i]
  {
    if |s| > 0 {
      SplitAllSeparatorFree(s[1..], sep);
    }
  }

  /** What `DropTrailingEmpty` drops is empty strings only. */
  lemma {:induction false} DropTrailingEmptyDropsEmpty(parts: seq<string>)
    ensures forall i :: |DropTrailingEmpty(parts)| <= i < |parts| ==> parts[i] == ""
  {
    if |parts| > 0 && parts[|parts| - 1] == "" {
      DropTrailingEmptyDropsEmpty(parts[..|parts| - 1]);
    }
  }

  /** No piece of Java's `split` holds the separator. */
  lemma SplitSeparatorFree(s: string, sep: char)
    ensures forall i :: 0 <= i < |Split(s, sep)| ==> sep !in Split(s, sep)[i]
  {
    SplitAllSeparatorFree(s, sep);
  }

  /** Splitting undoes nothing and loses nothing: gluing the pieces back gives `s`. */
  lemma {:induction false} JoinSplitAll(s: string, sep: char)
    ensures Join(SplitAll(s, sep), sep) == s
  {
    if |s| > 0 {
      var rest := SplitAll(s[1..], sep);
      JoinSplitAll(s[1..], sep);
      if s[0] == sep {
        assert SplitAll(s, sep) == [""] + rest;
        assert s == [sep] + s[1..];
      } else {
        var parts := SplitAll(s, sep);
        assert parts == [[s[0]] + rest[0]] + rest[1..];
        if |rest| == 1 {
          assert s == [s[0]] + s[1..];
        } else {
          assert parts[1..] == rest[1..];
          assert Join(rest, sep) == rest[0] + [sep] + Join(rest[1..], sep);
          assert s == [s[0]] + s[1..];
        }
      }
    }
  }

  /** A piece free of the separator, followed by the separator, splits off as one piece. */
  lemma {:induction false} SplitAllAfterPiece(a: string, sep: char, rest: string)
    requires sep !in a
    ensures SplitAll(a + [sep] + rest, sep) == [a] + SplitAll(rest, sep)
  {
    if |a| == 0 {
      assert a + [sep] + rest == [sep] + rest;
      assert ([sep] + rest)[1..] == rest;
    } else {
      var s := a + [sep] + rest;
      assert s[0] == a[0] && s[1..] == a[1..] + [sep] + rest;
      SplitAllAfterPiece(a[1..], sep, rest);
      assert [a[0]] + a[1..] == a;
    }
  }

  /** A string without the separator is a single piece. */
  lemma {:induction false} SplitAllNoSeparator(a: string, sep: char)
    requires sep !in a
    ensures SplitAll(a, sep) == [a]
  {
    if |a| > 0 {
      SplitAllNoSeparator(a[1..], sep);
      assert [a[0]] + a[1..] == a;
    }
  }

  /** Joining separator-free pieces and splitting again gives the same pieces. */
  lemma {:induction false} SplitAllJoin(parts: seq<string>, sep: char)
    requires |parts| >= 1
    requires forall i :: 0 <= i < |parts| ==> sep !in parts[i]
    ensures SplitAll(Join(parts, sep), sep) == parts
  {
    if |parts| == 1 {
      SplitAllNoSeparator(parts[0], sep);
    } else {
      SplitAllJoin(parts[1..], sep);
      SplitAllAfterPiece(parts[0], sep, Join(parts[1..], sep));
      assert parts == [parts[0]] + parts[1..];
    }
  }

  /** Java's `split` inverts the join of separator-free pieces exactly when the
      last piece is not empty (or there is only one piece). */
  lemma SplitJoin(parts: seq<string>, sep: char)
    requires |parts| >= 1
    requires forall i :: 0 <= i < |parts| ==> sep !in parts[i]
    requires |parts| == 1 || parts[|parts| - 1] != ""
    ensures Split(Join(parts, sep), sep) == parts
  {
    if |parts| == 1 {
      assert Join(parts, sep) == parts[0];
    } else {
      var s := Join(parts, sep);
      assert s == parts[0] + [sep] + Join(parts[1..], sep);
      assert s[|parts[0]|] == sep;
      SplitAllJoin(parts, sep);
    }
  }

  /** Gluing only empty pieces leaves nothing but separators. */
  lemma {:induction false} JoinOfEmpties(parts: seq<string>, sep: char)
    requires forall i :: 0 <= i < |parts| ==> parts[i] == ""
    ensures forall k :: 0 <= k < |Join(parts, sep)| ==> Join(parts, sep)[k] == sep
  {
    if |parts| > 1 {
      JoinOfEmpties(parts[1..], sep);
      assert Join(parts, sep) == [sep] + Join(parts[1..], sep);
    }
  }

  /** A non-empty run of separators splits into empty pieces only. */
  lemma {:induction false} SplitAllOfSeparators(s: string, sep: char)
    requires forall k :: 0 <= k < |s| ==> s[k] == sep
    ensures forall i :: 0 <= i < |SplitAll(s, sep)| ==> SplitAll(s, sep)[i] == ""
  {
    if |s| > 0 {
      SplitAllOfSeparators(s[1..], sep);
    }
  }

  /** Java's `split` returns no piece at all exactly for a non-empty string made
      only of separators; indexing its first element then fails. */
  lemma SplitEmptyIff(s: string, sep: char)
    ensures Split(s, sep) == [] <==> (s != "" && forall k :: 0 <= k < |s| ==> s[k] == sep)
  {
    if Split(s, sep) == [] {
      assert sep in s;
      var parts := SplitAll(s, sep);
      DropTrailingEmptyDropsEmpty(parts);
      assert forall i :: 0 <= i < |parts| ==> parts[i] == "";
      JoinOfEmpties(parts, sep);
      JoinSplitAll(s, sep);
    }
    if s != "" && forall k :: 0 <= k < |s| ==> s[k] == sep {
      assert s[0] == sep;
      SplitAllOfSeparators(s, sep);
    }
  }

  /** `s.endsWith(suffix)`. */
  predicate EndsWith(s: string, suffix: string)
  {
    |suffix| <= |s| && s[|s| - |suffix|..] == suffix
  }

  /** `s.lastIndexOf(c)`: the last position holding `c`, or -1. */
  function LastIndexOf(s: string, c: char): (r: int)
    ensures -1 <= r < |s|
    ensures r >= 0 ==> s[r] == c
    ensures r == -1 ==> c !in s
    ensures forall i :: r < i < |s| ==> s[i] != c
  {
    if |s| == 0 then -1
    else if s[|s| - 1] == c then |s| - 1
    else LastIndexOf(s[..|s| - 1], c)
  }

  /** Guava's `Files.getNameWithoutExtension`: the file name up to its last dot. */
  function NameWithoutExtension(fileName: string): (r: string)
    ensures r <= fileName
    ensures '.' !in fileName ==> r == fileName
    ensures '.' in fileName ==> |r| < |fileName| && fileName[|r|] == '.'
    ensures forall i :: |r| < i < |fileName| ==> fileName[i] != '.'
  {
    var dot := LastIndexOf(fileName, '.');
    if dot == -1 then fileName else fileName[..dot]
  }

  const PropertiesSuffix: string := ".properties"

  /** For a ".properties" file the catalog name is the file name without that
      suffix, whatever dots the name holds before it. */
  lemma BaseNameOfPropertiesFile(fileName: string)
    requires EndsWith(fileName, PropertiesSuffix)
    ensures NameWithoutExtension(fileName) + PropertiesSuffix == fileName
  {
    var n := |fileName|;
    var start := n - |PropertiesSuffix|;
    assert fileName[start..] == PropertiesSuffix;
    assert fileName[start] == '.';
    forall i | start < i < n ensures fileName[i] != '.' {
      assert fileName[i] == PropertiesSuffix[i - start];
    }
    var dot := LastIndexOf(fileName, '.');
    assert dot == start;
    assert fileName == fileName[..start] + fileName[start..];
  }
}
