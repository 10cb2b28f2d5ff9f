/**
 * The grant table (`$_access`) and the values it stores. A grant is `true`,
 * `false` or a payload array; the engine normalises a payload when it is
 * written, turning each list item into a flag set to `true`.
 */
module Grants {
  import opened Wrappers
  import opened OrderedMap
  import opened Keys

  /** A value inside a payload. The engine never looks inside these; `Opaque`
      stands for any PHP value other than a boolean or a string. */
  datatype Value = Bool(b: bool) | Text(s: string) | Opaque(id: int)

  /** One element of a payload array as written by the caller: a list item
      `'name'` (integer key) or a keyed entry `'name' => value`. */
  datatype RawEntry = Flag(name: string) | Entry(name: string, value: Value)

  /** A normalised payload: string keys only. */
  type Rules = OMap<string, Value>

  /** What `_allowOrDeny` receives as `$action`: a boolean or an array. */
  datatype RawAction = Literal(b: bool) | Array(entries: seq<RawEntry>)

  /** A stored grant: `true` (`Permit`), `false` (`Forbid`) or a normalised
      payload. */
  datatype Grant = Permit | Forbid | Conditional(rules: Rules)

  type Table = OMap<Key, Grant>

  /** A list item stands for the flag `name => true`. */
  function ValueOf(e: RawEntry): Value {
    match e
    case Flag(_) => Bool(true)
    case Entry(_, v) => v
  }

  /** The names of the entries, in order. */
  function Names(es: seq<RawEntry>): seq<string> {
    seq(|es|, i requires 0 <= i < |es| => es[i].name)
  }

  /** The values the entries stand for, in order. */
  function Values(es: seq<RawEntry>): seq<Value> {
    seq(|es|, i requires 0 <= i < |es| => ValueOf(es[i]))
  }

  /** The payload loop of `_allowOrDeny`: list items become flags set to
      `true`, keyed entries are kept, and a later entry for a name already
      seen replaces the earlier value in place. So the keys are exactly the
      names of the entries and each holds the value of its last entry. */
  function Normalize(es: seq<RawEntry>): (r: Rules)
    ensures Valid(r)
    ensures Covers(map[], r.entries, Names(es))
    ensures LastWins(r.entries, Names(es), Values(es))
  {
    if es == [] then Empty()
    else
      var n := |es| - 1;
      var prev := Normalize(es[..n]);
      assert Names(es)[..n] == Names(es[..n]);
      assert Values(es)[..n] == Values(es[..n]);
      PutStep(map[], prev.entries, Names(es), Values(es));
      Put(prev, es[n].name, ValueOf(es[n]))
  }

  /** The entries of a normalised payload for the keys `ks`, written back as
      keyed entries, as `toArray` exports them. */
  function EntriesFor(ks: seq<string>, m: map<string, Value>): (r: seq<RawEntry>)
    requires forall k :: k in ks ==> k in m
    ensures Names(r) == ks
    ensures forall i :: 0 <= i < |ks| ==> Values(r)[i] == m[ks[i]]
  {
    var r := seq(|ks|, i requires 0 <= i < |ks| => Entry(ks[i], m[ks[i]]));
    assert Names(r) == ks;
    r
  }

  function AsEntries(rules: Rules): seq<RawEntry>
    requires Valid(rules)
  {
    EntriesFor(rules.order, rules.entries)
  }

  /** Entries with distinct names are normalised in their own order. */
  lemma {:induction false} NormalizeKeepsOrder(es: seq<RawEntry>)
    requires Distinct(Names(es))
    ensures Normalize(es).order == Names(es)
  {
    if es != [] {
      var n := |es| - 1;
      var front := es[..n];
      NamesSplit(es);
      SplitLast(Names(es));
      NormalizeKeepsOrder(front);
      AppendNewName(Normalize(front), Names(front), es[n].name, ValueOf(es[n]));
      assert Normalize(es) == Put(Normalize(front), es[n].name, ValueOf(es[n]));
    }
  }

  /** Whatever the entries, the keys of the normalised payload come in the
      order their names first occur: a repeated name keeps the position of
      its first entry. */
  lemma {:induction false} NormalizeOrder(es: seq<RawEntry>)
    ensures Normalize(es).order == FirstOccurrences(Names(es))
  {
    if es != [] {
      var n := |es| - 1;
      var front := es[..n];
      NamesSplit(es);
      NormalizeOrder(front);
      assert Normalize(es) == Put(Normalize(front), es[n].name, ValueOf(es[n]));
      assert es[n].name in Normalize(front).entries <==> es[n].name in Names(front);
    }
  }

  /** The names of all entries are those of all but the last, then the last. */
  lemma NamesSplit(es: seq<RawEntry>)
    requires es != []
    ensures Names(es[..|es| - 1]) == Names(es)[..|es| - 1]
    ensures Names(es) == Names(es[..|es| - 1]) + [es[|es| - 1].name]
  {
    assert Names(es) == Names(es)[..|es| - 1] + [es[|es| - 1].name];
  }

  /** A name not yet among the keys is appended to the order. */
  lemma AppendNewName(prev: Rules, names: seq<string>, k: string, v: Value)
    requires prev.order == names && Covers(map[], prev.entries, names)
    requires k !in names
    ensures Put(prev, k, v).order == names + [k]
  {
  }

  /** Normalising keyed entries with distinct names rebuilds the payload they
      came from, keys in the same order. */
  lemma NormalizeEntriesFor(ks: seq<string>, m: map<string, Value>)
    requires Distinct(ks)
    requires forall k :: k in ks ==> k in m
    ensures Normalize(EntriesFor(ks, m)).order == ks
    ensures forall k :: k in Normalize(EntriesFor(ks, m)).entries <==> k in ks
    ensures forall k :: k in ks ==> Normalize(EntriesFor(ks, m)).entries[k] == m[k]
  {
    var es := EntriesFor(ks, m);
    NormalizeKeepsOrder(es);
    var r := Normalize(es);
    forall k | k in ks ensures r.entries[k] == m[k] {
      var i :| 0 <= i < |ks| && ks[i] == k;
      assert ks[i] !in ks[i + 1..];
    }
  }

  /** Normalisation is the identity on payloads it produced. */
  lemma NormalizeAsEntries(rules: Rules)
    requires Valid(rules)
    ensures Normalize(AsEntries(rules)) == rules
  {
    NormalizeEntriesFor(rules.order, rules.entries);
    var r := Normalize(AsEntries(rules));
    assert r.entries == rules.entries;
  }

  /** The value `_allowOrDeny` stores for `$action`. */
  function ToGrant(a: RawAction): (g: Grant)
    ensures g == Permit <==> a == Literal(true)
    ensures g == Forbid <==> a == Literal(false)
    ensures a.Array? ==> g == Conditional(Normalize(a.entries))
  {
    match a
    case Literal(b) => if b then Permit else Forbid
    case Array(es) => Conditional(Normalize(es))
  }

  /** A conditional grant holds a normalised payload. */
  ghost predicate ValidGrant(g: Grant) {
    g.Conditional? ==> Valid(g.rules)
  }

  ghost predicate ValidTable(t: Table) {
    && Valid(t)
    && forall k :: k in t.entries ==> ValidGrant(t.entries[k])
  }

  /** The config value `toArray` writes for a grant that is not a bare
      endpoint; it is the inverse of `ToGrant`. */
  function ActionOf(g: Grant): (a: RawAction)
    requires ValidGrant(g)
    ensures ToGrant(a) == g
  {
    match g
    case Permit => Literal(true)
    case Forbid => Literal(false)
    case Conditional(rules) =>
      NormalizeAsEntries(rules);
      Array(AsEntries(rules))
  }

  /** The decision a found grant yields: only a stored `false` denies. */
  function Decision(g: Grant): (allowed: bool)
    ensures !allowed <==> g == Forbid
    ensures g.Conditional? ==> allowed
  {
    g != Forbid
  }

  /** `_allowOrDeny`: write the normalised action under `k`, replacing any
      earlier grant for the same key; every other key keeps its grant. */
  function Write(t: Table, k: Key, a: RawAction): (r: Table)
    ensures ValidTable(t) ==> ValidTable(r)
    ensures k in r.entries && r.entries[k] == ToGrant(a)
    ensures forall k' :: k' != k ==> (k' in r.entries <==> k' in t.entries)
    ensures forall k' :: k' != k && k' in t.entries ==> r.entries[k'] == t.entries[k']
  {
    Put(t, k, ToGrant(a))
  }
}
