/**
 * PHP arrays with string keys are ordered maps: a key is stored once, an
 * assignment `$a[$k] = $v` to a key already present replaces its value in
 * place, and a new key goes to the end. `OMap` models exactly that; the grant
 * table and the normalised payload of a conditional grant are both `OMap`s.
 */
module OrderedMap {

  datatype OMap<K, V> = OMap(order: seq<K>, entries: map<K, V>)

  /** No element occurs twice. */
  ghost predicate Distinct<T>(s: seq<T>) {
    forall i, j :: 0 <= i < j < |s| ==> s[i] != s[j]
  }

  /** The order lists every key of the map exactly once. */
  ghost predicate Valid<K(!new), V>(m: OMap<K, V>) {
    && Distinct(m.order)
    && forall k :: k in m.entries <==> k in m.order
  }

  /** The empty array `[]`. */
  function Empty<K(!new), V>(): (r: OMap<K, V>)
    ensures Valid(r)
    ensures r.entries == map[]
  {
    OMap([], map[])
  }

  /** `$m[$k] = $v`: the value at `k` becomes `v`, every other key keeps its
      value, and the keys already present keep their positions. */
  function Put<K(!new), V>(m: OMap<K, V>, k: K, v: V): (r: OMap<K, V>)
    ensures Valid(m) ==> Valid(r)
    ensures r.entries == m.entries[k := v]
    ensures |m.order| <= |r.order| && r.order[..|m.order|] == m.order
    ensures k in m.entries ==> r.order == m.order
    ensures k !in m.entries ==> r.order == m.order + [k]
  {
    if k in m.entries then OMap(m.order, m.entries[k := v])
    else OMap(m.order + [k], m.entries[k := v])
  }

  /** The elements of `s`, each once, in the order of first occurrence: the
      key order a run of assignments leaves behind. */
  function FirstOccurrences<T(==,!new)>(s: seq<T>): (r: seq<T>)
    ensures forall x :: x in r <==> x in s
    ensures Distinct(r)
  {
    if s == [] then []
    else
      var n := |s| - 1;
      var front := FirstOccurrences(s[..n]);
      assert s == s[..n] + [s[n]];
      if s[n] in s[..n] then front else front + [s[n]]
  }

  /** One more element is kept exactly when it is new. */
  lemma FirstOccurrencesAppend<T(!new)>(s: seq<T>, x: T)
    ensures FirstOccurrences(s + [x]) == FirstOccurrences(s) + (if x in s then [] else [x])
  {
    assert (s + [x])[..|s|] == s;
  }

  /** A sequence without repeats is its own first occurrences. */
  lemma {:induction false} FirstOccurrencesOfDistinct<T(!new)>(s: seq<T>)
    ensures Distinct(s) ==> FirstOccurrences(s) == s
  {
    if s != [] && Distinct(s) {
      var n := |s| - 1;
      FirstOccurrencesOfDistinct(s[..n]);
      assert s[n] !in s[..n];
      assert s == s[..n] + [s[n]];
    }
  }

  /** Taking first occurrences of a front part first changes nothing. */
  lemma {:induction false} FirstOccurrencesFlatten<T(!new)>(a: seq<T>, b: seq<T>)
    ensures FirstOccurrences(FirstOccurrences(a) + b) == FirstOccurrences(a + b)
  {
    if b == [] {
      FirstOccurrencesOfDistinct(FirstOccurrences(a));
      assert FirstOccurrences(a) + b == FirstOccurrences(a);
      assert a + b == a;
    } else {
      var n := |b| - 1;
      FirstOccurrencesFlatten(a, b[..n]);
      var x := b[n];
      assert FirstOccurrences(a) + b == (FirstOccurrences(a) + b[..n]) + [x];
      assert a + b == (a + b[..n]) + [x];
      FirstOccurrencesAppend(FirstOccurrences(a) + b[..n], x);
      FirstOccurrencesAppend(a + b[..n], x);
      assert x in FirstOccurrences(a) + b[..n] <==> x in a + b[..n];
    }
  }

  /** The keys of `after` are those of `before` plus the written keys `ks`. */
  ghost predicate Covers<K(!new), V>(before: map<K, V>, after: map<K, V>, ks: seq<K>) {
    forall k :: k in after <==> k in before || k in ks
  }

  /** Each key written in `ks` holds the value of its last write. */
  ghost predicate LastWins<K(!new), V>(after: map<K, V>, ks: seq<K>, vs: seq<V>)
    requires |ks| == |vs|
  {
    forall j :: 0 <= j < |ks| && ks[j] !in ks[j + 1..] ==> ks[j] in after && after[ks[j]] == vs[j]
  }

  /** Writing one more key keeps `Covers` and `LastWins`. */
  lemma PutStep<K(!new), V>(before: map<K, V>, prev: map<K, V>, ks: seq<K>, vs: seq<V>)
    requires |ks| == |vs| > 0
    requires Covers(before, prev, ks[..|ks| - 1])
    requires LastWins(prev, ks[..|ks| - 1], vs[..|vs| - 1])
    ensures Covers(before, prev[ks[|ks| - 1] := vs[|vs| - 1]], ks)
    ensures LastWins(prev[ks[|ks| - 1] := vs[|vs| - 1]], ks, vs)
  {
    var n := |ks| - 1;
    assert ks == ks[..n] + [ks[n]];
    var after := prev[ks[n] := vs[n]];
    forall j | 0 <= j < |ks| && ks[j] !in ks[j + 1..]
      ensures ks[j] in after && after[ks[j]] == vs[j]
    {
      if j < n {
        assert ks[n] in ks[j + 1..];
      }
    }
  }

  /** A prefix of a prefix is a prefix. */
  lemma PrefixTrans<T>(a: seq<T>, b: seq<T>, c: seq<T>)
    requires |a| <= |b| <= |c|
    requires b[..|a|] == a && c[..|b|] == b
    ensures c[..|a|] == a
  {
    assert forall i :: 0 <= i < |a| ==> c[i] == b[i] == a[i];
  }

  // Facts about sequences that the proofs over name and key lists share.

  /** A sequence is its front followed by its last element; the front of a
      distinct sequence is distinct and does not hold the last element. */
  lemma SplitLast<T>(s: seq<T>)
    requires s != []
    ensures s == s[..|s| - 1] + [s[|s| - 1]]
    ensures forall x :: x in s <==> x in s[..|s| - 1] || x == s[|s| - 1]
    ensures Distinct(s) ==> Distinct(s[..|s| - 1]) && s[|s| - 1] !in s[..|s| - 1]
  {
    assert s == s[..|s| - 1] + [s[|s| - 1]];
  }

  lemma PrefixStep<T>(s: seq<T>, j: nat)
    requires j < |s|
    ensures s[..j + 1] == s[..j] + [s[j]]
  {
  }

  /** The element at `j` of a distinct sequence is not among the first `j`. */
  lemma NotInPrefix<T>(s: seq<T>, j: nat)
    requires j < |s| && Distinct(s)
    ensures s[j] !in s[..j]
  {
  }

  lemma WholePrefix<T>(s: seq<T>)
    ensures s[..|s|] == s
  {
  }

  lemma ConcatAssoc<T>(a: seq<T>, b: seq<T>, c: seq<T>)
    ensures (a + b) + c == a + (b + c)
  {
  }
}
