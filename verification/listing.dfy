/**
 The `GET /` listing: every indexed record, copied, with its URL fragment
 resolved to an absolute URL against the configured host.
 */
module Listing {
  import opened JsValue
  import opened Index

  /** The host used when none is configured. */
  const DefaultHost: string := "http://localhost"

  /** The base URL: the configured host when it is truthy, else the default. */
  function Base(hostname: Option<string>): string {
    OrElse(hostname, DefaultHost)
  }

  /** The URL parser, as `(url, base) -> href`; `None` where it throws. */
  type Resolver = (string, string) -> Option<string>

  /** One listed element: a copy of the record whose URL alone is resolved. */
  function Project(x: Level, base: string, resolve: Resolver): (r: Option<Level>)
    ensures r.None? <==> resolve(x.url, base).None?
    ensures r.Some? ==> r.value.(url := x.url) == x && Some(r.value.url) == resolve(x.url, base)
  {
    match resolve(x.url, base)
    case None => None
    case Some(href) => Some(x.(url := href))
  }

  /** The response body: `None` when resolving some record's URL throws;
      otherwise one element per indexed path, in an order the index does not
      fix (`order` names the path behind each element). The index is a value
      and is not changed. */
  method ListLevels(m: Levels, hostname: Option<string>, resolve: Resolver)
    returns (r: Option<seq<Level>>, ghost order: seq<string>)
    ensures r.None? <==> exists k :: k in m && resolve(m[k].url, Base(hostname)).None?
    ensures r.Some? ==>
              && |r.value| == |order| == |m|
              && (forall i, j :: 0 <= i < j < |order| ==> order[i] != order[j])
              && (forall k :: k in m <==> k in order)
              && forall i :: 0 <= i < |order| ==> Project(m[order[i]], Base(hostname), resolve) == Some(r.value[i])
  {
    var base := Base(hostname);
    var out: seq<Level> := [];
    var rest := m.Keys;
    order := [];
    while rest != {}
      invariant rest <= m.Keys
      invariant forall k :: k in m <==> k in rest || k in order
      invariant forall k :: k in rest ==> k !in order
      invariant forall i, j :: 0 <= i < j < |order| ==> order[i] != order[j]
      invariant |out| == |order| && |order| + |rest| == |m|
      invariant forall i :: 0 <= i < |order| ==> order[i] in m && Project(m[order[i]], base, resolve) == Some(out[i])
      decreases rest
    {
      var k :| k in rest;
      var y := Project(m[k], base, resolve);
      if y.None? {
        return None, order;
      }
      out := out + [y.value];
      order := order + [k];
      rest := rest - {k};
    }
    r := Some(out);
  }
}
