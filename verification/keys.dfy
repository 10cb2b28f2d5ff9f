/**
 * Grant keys. The PHP engine stores a grant under the text
 * `role . '!' . resource . '!' . action` and the endpoint of a config entry is
 * the text `resource . '!' . action`. The model keys grants by the structured
 * `Key` instead; this module gives the text form and shows that it names the
 * same key exactly when role and resource contain no separator.
 */
module Keys {
  import opened Wrappers

  /** The separator joining role, resource and action in a stored key. */
  const Separator: char := '!'

  /** The wildcard token accepted for a resource or an action. */
  const Wildcard: string := "*"

  datatype Endpoint = Endpoint(resource: string, action: string)

  datatype Key = Key(role: string, endpoint: Endpoint)

  /** A name the text encoding cannot confuse with a neighbour. */
  predicate Plain(name: string) {
    Separator !in name
  }

  predicate PlainKey(k: Key) {
    Plain(k.role) && Plain(k.endpoint.resource) && Plain(k.endpoint.action)
  }

  /** `resource!action`, the endpoint text of a config entry. */
  function EndpointText(e: Endpoint): string {
    e.resource + [Separator] + e.action
  }

  /** `role!resource!action`, the key the PHP engine stores and probes. */
  function KeyText(k: Key): string {
    k.role + [Separator] + EndpointText(k.endpoint)
  }

  /** `explode('!', s, 2)`: the text before the first separator and the text
      after it, or `None` when there is no separator. */
  function SplitFirst(s: string): (r: Option<(string, string)>)
    ensures r.None? <==> Separator !in s
    ensures r.Some? ==> Plain(r.value.0) && s == r.value.0 + [Separator] + r.value.1
  {
    if s == [] then None
    else if s[0] == Separator then Some(([], s[1..]))
    else
      match SplitFirst(s[1..])
      case None => None
      case Some((head, tail)) => Some(([s[0]] + head, tail))
  }

  function ParseEndpoint(s: string): Option<Endpoint> {
    match SplitFirst(s)
    case None => None
    case Some((resource, action)) => Some(Endpoint(resource, action))
  }

  /** Reads a stored key back as a structured key: the role up to the first
      separator, as `toArray` splits it, and then the rest split at its first
      separator into resource and action. `toArray` keeps that rest whole as
      the endpoint text; the second split is this model's, since it keys
      endpoints structurally. */
  function ParseKey(s: string): Option<Key> {
    match SplitFirst(s)
    case None => None
    case Some((role, rest)) =>
      match ParseEndpoint(rest)
      case None => None
      case Some(e) => Some(Key(role, e))
  }

  /** Splitting a joined text at its first separator gives back the parts
      when the first part holds no separator. */
  lemma {:induction false} SplitJoin(head: string, tail: string)
    requires Plain(head)
    ensures SplitFirst(head + [Separator] + tail) == Some((head, tail))
  {
    var s := head + [Separator] + tail;
    if head == [] {
      assert s[1..] == tail;
    } else {
      assert s[0] == head[0];
      assert s[1..] == head[1..] + [Separator] + tail;
      SplitJoin(head[1..], tail);
      assert [head[0]] + head[1..] == head;
    }
  }

  lemma ParseEndpointText(e: Endpoint)
    requires Plain(e.resource)
    ensures ParseEndpoint(EndpointText(e)) == Some(e)
  {
    SplitJoin(e.resource, e.action);
  }

  /** The text of a key reads back as that key. */
  lemma ParseKeyText(k: Key)
    requires Plain(k.role) && Plain(k.endpoint.resource)
    ensures ParseKey(KeyText(k)) == Some(k)
  {
    assert KeyText(k) == k.role + [Separator] + EndpointText(k.endpoint);
    SplitJoin(k.role, EndpointText(k.endpoint));
    ParseEndpointText(k.endpoint);
  }

  /** Any key: when its role and resource hold no separator, its text reads
      back as the key. */
  lemma KeyTextReadsBack(k: Key)
    ensures Plain(k.role) && Plain(k.endpoint.resource) ==> ParseKey(KeyText(k)) == Some(k)
  {
    if Plain(k.role) && Plain(k.endpoint.resource) {
      ParseKeyText(k);
    }
  }

  /** For separator-free names, two keys with the same text are the same key,
      so a map keyed by `Key` behaves as the PHP map keyed by text. */
  lemma KeyTextInjective(k1: Key, k2: Key)
    requires PlainKey(k1) && PlainKey(k2)
    requires KeyText(k1) == KeyText(k2)
    ensures k1 == k2
  {
    ParseKeyText(k1);
    ParseKeyText(k2);
  }

  /** Without that restriction the text encoding is ambiguous: two different
      grants share one stored key. */
  lemma KeyTextAmbiguous()
    ensures Key("a!b", Endpoint("c", "d")) != Key("a", Endpoint("b!c", "d"))
    ensures KeyText(Key("a!b", Endpoint("c", "d"))) == KeyText(Key("a", Endpoint("b!c", "d")))
  {
    assert KeyText(Key("a!b", Endpoint("c", "d"))) == "a!b!c!d";
    assert KeyText(Key("a", Endpoint("b!c", "d"))) == "a!b!c!d";
  }
}
