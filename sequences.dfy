/**
 Facts about sequences that every module uses: distinctness, as Java's key
 sets and lists of keys have it, and the regroupings of concatenations and
 slices that the recursive proofs peel off one element at a time.
 */
module Sequences {

  /** No element occurs twice. */
  predicate Distinct<T(==)>(s: seq<T>)
  {
    forall i, j :: 0 <= i < j < |s| ==> s[i] != s[j]
  }

  /** `order` lists every element of `keys` once and nothing else: one
      iteration order of a Java key set. */
  predicate Enumerates<T(==)>(order: seq<T>, keys: set<T>)
  {
    Distinct(order) && (forall k :: k in order ==> k in keys) && (forall k :: k in keys ==> k in order)
  }

  lemma DistinctSnoc<T>(s: seq<T>, x: T)
    requires Distinct(s) && x !in s
    ensures Distinct(s + [x])
  {
  }

  /** The tail of a distinct sequence is distinct and lacks the head. */
  lemma DistinctTail<T>(s: seq<T>)
    requires Distinct(s) && s != []
    ensures Distinct(s[1..]) && s[0] !in s[1..]
  {
    assert forall i :: 0 <= i < |s[1..]| ==> s[1..][i] == s[i + 1];
  }

  lemma AppendAssoc<T>(a: seq<T>, b: seq<T>, c: seq<T>)
    ensures a + b + c == a + (b + c)
  {
  }

  lemma AppendPair<T>(a: seq<T>, x: T, y: T, c: seq<T>)
    ensures a + [x] + [y] + c == a + ([x, y] + c)
  {
  }

  lemma ConsParts<T>(x: T, s: seq<T>)
    ensures ([x] + s)[0] == x && ([x] + s)[1..] == s
  {
  }

  lemma PairParts<T>(x: T, y: T, s: seq<T>)
    ensures ([x, y] + s)[0] == x && ([x, y] + s)[1..] == [y] + s
  {
  }

  lemma PrefixTrans<T>(a: seq<T>, b: seq<T>, c: seq<T>)
    requires a <= b && b <= c
    ensures a <= c
  {
  }

  /** Where an element of `s` with position `k` cut out comes from. */
  lemma CutIndex<T>(s: seq<T>, k: nat, i: nat)
    requires k < |s| && i < |s| - 1
    ensures (s[..k] + s[k + 1..])[i] == if i < k then s[i] else s[i + 1]
  {
  }

  /** Cutting position `k` out of `s`, seen from its tail. */
  lemma CutTail<T>(s: seq<T>, k: nat)
    requires 0 < k < |s|
    ensures s[1..][k - 1] == s[k]
    ensures s[..k] + s[k + 1..] == [s[0]] + (s[1..][..k - 1] + s[1..][k..])
  {
    assert s[1..][..k - 1] == s[1..k];
    assert s[1..][k..] == s[k + 1..];
    assert s[..k] == [s[0]] + s[1..k];
  }

  /** Where the calls of the first of three blocks land after a prefix. */
  lemma IndexInFirst<T>(pre: seq<T>, a: seq<T>, b: seq<T>, c: seq<T>, i: nat)
    requires i < |a|
    ensures |pre| + i < |pre + (a + b + c)| && (pre + (a + b + c))[|pre| + i] == a[i]
  {
  }

  /** Where the calls of the second of three blocks land after a prefix. */
  lemma IndexInSecond<T>(pre: seq<T>, a: seq<T>, b: seq<T>, c: seq<T>, j: nat)
    requires j < |b|
    ensures |pre| + |a| + j < |pre + (a + b + c)| && (pre + (a + b + c))[|pre| + |a| + j] == b[j]
  {
  }
}
