/** The service-types browser: one meta-query browse over every domain,
    whose found and removed service types make up the list the user picks a
    type from. */
module ServiceTypes {
  import opened Common
  import opened ResolvedServices

  /** The DNS-SD meta-query type: browsing it reports service types, as
      section 9 of RFC 6763 describes. */
  const MetaQueryType := "_services._dns-sd._udp."

  /** A started browse: the type searched for and the domain ("" for the
      default domains). */
  datatype Query = Query(serviceType: string, domain: string)

  datatype TypesBrowser = TypesBrowser(query: Option<Query>, types: seq<NetService>)

  /** `awakeFromNib`: an empty list and the meta-query started in the
      default domains. */
  function Start(): (r: TypesBrowser)
    ensures r.types == []
    ensures r.query == Some(Query(MetaQueryType, ""))
  {
    TypesBrowser(Some(Query(MetaQueryType, "")), [])
  }

  /** `didFind`: the reported type is appended to the list. */
  function DidFind(b: TypesBrowser, service: NetService): (r: TypesBrowser)
    ensures multiset(r.types) == multiset(b.types) + multiset{service}
    ensures |r.types| == |b.types| + 1 && r.types[..|b.types|] == b.types
    ensures r.query == b.query
  {
    var types := b.types + [service];
    assert types[..|b.types|] == b.types;
    b.(types := types)
  }

  /** `didRemove`: every list entry equal to the reported type goes. */
  function DidRemove(b: TypesBrowser, service: NetService): (r: TypesBrowser)
    ensures service !in r.types
    ensures multiset(r.types) == multiset(b.types)[service := 0]
    ensures r.query == b.query
  {
    b.(types := RemoveAll(b.types, service))
  }

  /** What the meta-query browse reports. Resolution callbacks are accepted
      and ignored. */
  datatype Event = Found(service: NetService) | Removed(service: NetService)
                 | Resolved(service: NetService) | NotResolved(service: NetService)

  function Step(b: TypesBrowser, e: Event): (r: TypesBrowser)
    ensures r.query == b.query
    ensures e.Resolved? || e.NotResolved? ==> r == b
  {
    match e
    case Found(x) => DidFind(b, x)
    case Removed(x) => DidRemove(b, x)
    case Resolved(_) => b
    case NotResolved(_) => b
  }

  /** The browser after the events `es`, delivered oldest first. */
  function Run(b: TypesBrowser, es: seq<Event>): (r: TypesBrowser)
    ensures r.query == b.query
  {
    if |es| == 0 then b else Step(Run(b, es[..|es| - 1]), es[|es| - 1])
  }

  /** The edits the events make to the list. */
  function Edits(es: seq<Event>): seq<ListEdit<NetService>> {
    if |es| == 0 then []
    else
      var e := es[|es| - 1];
      var init := Edits(es[..|es| - 1]);
      if e.Found? then init + [Append(e.service)]
      else if e.Removed? then init + [RemoveEvery(e.service)]
      else init
  }

  lemma {:induction false} RunIsReplay(b: TypesBrowser, es: seq<Event>)
    ensures Run(b, es).types == ApplyEdits(b.types, Edits(es))
  {
    if |es| > 0 {
      RunIsReplay(b, es[..|es| - 1]);
      var e := es[|es| - 1];
      if e.Found? || e.Removed? {
        assert Edits(es)[..|Edits(es)| - 1] == Edits(es[..|es| - 1]);
      }
    }
  }

  /** Some(true) when the last found/removed event for `x` was a found,
      Some(false) when it was a removed, None when there was none. */
  function LastReport(es: seq<Event>, x: NetService): Option<bool> {
    if |es| == 0 then None
    else
      var e := es[|es| - 1];
      if (e.Found? || e.Removed?) && e.service == x then Some(e.Found?)
      else LastReport(es[..|es| - 1], x)
  }

  /** The list's edits for `x` are the found and removed events for `x`. */
  lemma {:induction false} LastEditIsLastReport(es: seq<Event>, x: NetService)
    ensures LastEditOf(Edits(es), x) == LastReport(es, x)
  {
    if |es| > 0 {
      LastEditIsLastReport(es[..|es| - 1], x);
      var e := es[|es| - 1];
      if e.Found? || e.Removed? {
        assert Edits(es)[..|Edits(es)| - 1] == Edits(es[..|es| - 1]);
      }
    }
  }

  /** After the browse starts, a type is listed exactly when the most recent
      report about it was a found. */
  lemma ListedIffLastFound(es: seq<Event>, x: NetService)
    ensures x in Run(Start(), es).types <==> LastReport(es, x) == Some(true)
  {
    RunIsReplay(Start(), es);
    MembershipFollowsLastEdit(Start().types, Edits(es), x);
    LastEditIsLastReport(es, x);
  }
}
