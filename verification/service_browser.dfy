/** The service browser controller: one scan session at a time over one
    service type, the list of found services, the count of resolutions still
    outstanding that drives the progress indicator, the list of resolved
    services shown to the user, and the one-shot device-model lookup that
    fills a resolved service's icon. */
module ServiceBrowser {
  import opened Common
  import opened ResolvedServices
  import Ipv4
  import Utf8

  datatype Session = Session(
    /** the type the browser searches for, once a scan started one */
    browsing: Option<string>,
    foundServices: seq<NetService>,
    /** resolutions started and not yet finished, as the controller counts them */
    serviceCount: int,
    /** the resolved services listed by the array controller */
    listed: seq<ResolvedService>,
    /** whether the progress indicator is animating */
    spinning: bool,
    /** the service resolved last */
    connected: Option<NetService>,
    /** device-info services being monitored for TXT record updates */
    monitors: multiset<NetService>)

  /** The controller as `awakeFromNib` leaves it. */
  const Fresh := Session(None, [], 0, [], false, None, multiset{})

  /** How many characters of the selected type `scan` keeps: "_tcp." or
      "_udp.", without the domain. */
  const ProtocolLength: nat := 5

  /** The auxiliary service a resolved host is monitored through for its
      device model. */
  function DeviceInfo(name: string): NetService {
    NetService(name, "_device-info._tcp", "local.")
  }

  /** The first `n` characters of `s`, or all of `s` if it is shorter. */
  function Prefix(s: string, n: nat): (p: string)
    ensures p <= s && |p| == (if |s| < n then |s| else n)
  {
    if |s| <= n then s else s[..n]
  }

  /** The type `scan` browses for: the selected service type's name, a dot,
      and the first five characters of its type. */
  function TypeToBrowse(selected: NetService): (t: string)
    ensures |t| == |selected.name| + 1 + |Prefix(selected.serviceType, ProtocolLength)|
    ensures t[..|selected.name|] == selected.name && t[|selected.name|] == '.'
    ensures t[|selected.name| + 1..] <= selected.serviceType
  {
    var t := selected.name + "." + Prefix(selected.serviceType, ProtocolLength);
    assert t[|selected.name| + 1..] == Prefix(selected.serviceType, ProtocolLength);
    t
  }

  /** A type the meta-query reports as name "_http", type "_tcp.local." is
      browsed as "_http._tcp.", the `<Service>.<Proto>` form of section 7 of
      RFC 6763. */
  lemma {:induction false} BrowsesServiceNameForm(name: string, proto: string, domain: string, d: string)
    requires proto == "_tcp" || proto == "_udp"
    ensures TypeToBrowse(NetService(name, proto + "." + domain, d)) == name + "." + proto + "."
  {
    var t := proto + "." + domain;
    assert Prefix(t, ProtocolLength) == t[..5] == proto + ".";
  }

  /** The position of the first dot in `s`, if any. */
  function FirstDot(s: string): (r: Option<nat>)
    ensures r.Some? ==> r.value < |s| && s[r.value] == '.' && '.' !in s[..r.value]
    ensures r.None? ==> '.' !in s
  {
    if |s| == 0 then None
    else if s[0] == '.' then Some(0)
    else
      match FirstDot(s[1..])
      case None => None
      case Some(i) =>
        assert s[..i + 1] == [s[0]] + s[1..][..i];
        Some(i + 1)
  }

  /** Splits a browsed type back into the name and the protocol part. */
  function SplitBrowsedType(t: string): Option<(string, string)> {
    match FirstDot(t)
    case None => None
    case Some(i) => Some((t[..i], t[i + 1..]))
  }

  /** For a name without dots (every name the meta-query reports), the
      browsed type splits back into the name and the kept protocol prefix. */
  lemma SplitTypeToBrowse(selected: NetService)
    requires '.' !in selected.name
    ensures SplitBrowsedType(TypeToBrowse(selected)) ==
      Some((selected.name, Prefix(selected.serviceType, ProtocolLength)))
  {
    var t := TypeToBrowse(selected);
    var n := |selected.name|;
    assert t[..n] == selected.name;
    assert t[n] == '.';
    assert t[..n + 1][n] == '.';
  }

  /** `scan`, as written: the count is reset and the indicator started; with
      a type selected the browser is restarted on it, otherwise the previous
      browse goes on. The deferred block then stops the indicator and empties
      the listed services on every exit. The found services are kept. */
  function Scan(s: Session, selection: seq<NetService>): (r: Session)
    ensures r.serviceCount == 0 && r.listed == [] && !r.spinning
    ensures r.foundServices == s.foundServices && r.connected == s.connected && r.monitors == s.monitors
    ensures |selection| == 0 ==> r.browsing == s.browsing
    ensures |selection| > 0 ==> r.browsing == Some(TypeToBrowse(selection[0]))
  {
    var started := s.(serviceCount := 0, spinning := true);
    var searching :=
      if |selection| == 0 then started
      else started.(browsing := Some(TypeToBrowse(selection[0])));
    searching.(spinning := false, listed := [])
  }

  /** `scan` as its comments describe it: the indicator is stopped on the
      early return only, and keeps running while a started browse resolves. */
  function ScanIntended(s: Session, selection: seq<NetService>): (r: Session)
    ensures r.serviceCount == 0 && r.listed == []
    ensures r.spinning <==> |selection| > 0
    ensures r == Scan(s, selection).(spinning := r.spinning)
  {
    var started := s.(serviceCount := 0, spinning := true);
    if |selection| == 0 then started.(spinning := false, listed := [])
    else started.(browsing := Some(TypeToBrowse(selection[0])), listed := [])
  }

  /** `didFind`: the service is appended even if it is already there, and
      one more resolution is outstanding. */
  function DidFind(s: Session, service: NetService): (r: Session)
    ensures multiset(r.foundServices) == multiset(s.foundServices) + multiset{service}
    ensures |r.foundServices| == |s.foundServices| + 1
    ensures r.foundServices[..|s.foundServices|] == s.foundServices
    ensures r.serviceCount == s.serviceCount + 1
    ensures r == s.(foundServices := r.foundServices, serviceCount := r.serviceCount)
  {
    var found := s.foundServices + [service];
    assert found[..|s.foundServices|] == s.foundServices;
    s.(foundServices := found, serviceCount := s.serviceCount + 1)
  }

  /** `didRemove`: every found entry equal to the service goes; the rest keep
      their order. Outstanding resolutions are not touched. */
  function DidRemove(s: Session, service: NetService): (r: Session)
    ensures service !in r.foundServices
    ensures multiset(r.foundServices) == multiset(s.foundServices)[service := 0]
    ensures r == s.(foundServices := r.foundServices)
  {
    s.(foundServices := RemoveAll(s.foundServices, service))
  }

  /** `netServiceDidResolveAddress`: exactly one resolved record is listed,
      device-info monitoring starts for the host, one resolution fewer is
      outstanding, and the indicator stops once none is. The found services
      are not consulted, so a resolution that arrives after its service was
      removed is listed all the same. */
  function DidResolve(s: Session, sender: NetService, addresses: seq<Ipv4.Address>,
                      pingError: int, lookup: MacLookup): (r: Session)
    ensures r.listed == s.listed + [Init(sender, addresses, pingError, lookup)]
    ensures r.serviceCount == s.serviceCount - 1
    ensures r.spinning <==> s.spinning && r.serviceCount > 0
    ensures r.monitors == s.monitors + multiset{DeviceInfo(sender.name)}
    ensures r.connected == Some(sender)
    ensures r.foundServices == s.foundServices && r.browsing == s.browsing
  {
    var count := s.serviceCount - 1;
    s.(connected := Some(sender),
       listed := s.listed + [Init(sender, addresses, pingError, lookup)],
       monitors := s.monitors + multiset{DeviceInfo(sender.name)},
       serviceCount := count,
       spinning := if count <= 0 then false else s.spinning)
  }

  /** `didNotResolve`: one resolution fewer is outstanding; nothing else
      changes, not even the indicator. */
  function DidNotResolve(s: Session, sender: NetService): (r: Session)
    ensures r.serviceCount == s.serviceCount - 1
    ensures r == s.(serviceCount := r.serviceCount)
  {
    s.(serviceCount := s.serviceCount - 1)
  }

  /** Listed entry `i` is the last one whose host is `host`. */
  predicate IsLastWithHost(listed: seq<ResolvedService>, host: string, i: nat) {
    && i < |listed| && listed[i].host == host
    && forall j | i < j < |listed| :: listed[j].host != host
  }

  /** The last listed entry whose host is `host`, if any. */
  function LastWithHost(listed: seq<ResolvedService>, host: string): (r: Option<nat>)
    ensures r.Some? ==> IsLastWithHost(listed, host, r.value)
    ensures r.None? ==> forall j | 0 <= j < |listed| :: listed[j].host != host
  {
    if |listed| == 0 then None
    else if listed[|listed| - 1].host == host then Some(|listed| - 1)
    else LastWithHost(listed[..|listed| - 1], host)
  }

  /** `didUpdateTXTRecord`: with no "model" key, or a value that is not
      UTF-8, nothing happens and monitoring goes on. Otherwise monitoring of
      the sender stops and the last listed entry for the sender's host, if
      any, takes the model text as its icon. */
  function DidUpdateTxt(s: Session, sender: NetService, txt: map<string, seq<byte>>): (r: Session)
    ensures "model" !in txt || Utf8.Decode(txt["model"]).None? ==> r == s
    ensures "model" in txt && Utf8.Decode(txt["model"]).Some? ==>
      && r.monitors == s.monitors - multiset{sender}
      && r == s.(monitors := r.monitors, listed := r.listed)
      && |r.listed| == |s.listed|
      && (forall j | 0 <= j < |s.listed| && !IsLastWithHost(s.listed, sender.name, j) ::
            r.listed[j] == s.listed[j])
      && (forall j | 0 <= j < |s.listed| && IsLastWithHost(s.listed, sender.name, j) ::
            r.listed[j] == s.listed[j].(icon := r.listed[j].icon) &&
            Utf8.Encode(r.listed[j].icon) == txt["model"])
  {
    if "model" !in txt then s
    else
      match Utf8.Decode(txt["model"])
      case None => s
      case Some(model) =>
        var stopped := s.(monitors := s.monitors - multiset{sender});
        match LastWithHost(s.listed, sender.name)
        case None => stopped
        case Some(i) =>
          assert forall j | 0 <= j < |s.listed| && IsLastWithHost(s.listed, sender.name, j) :: j == i;
          stopped.(listed := s.listed[i := s.listed[i].(icon := model)])
  }

  /** What the controller is told while a scan runs. */
  datatype Event =
    | Find(service: NetService)
    | Remove(service: NetService)
    | Resolve(service: NetService, addresses: seq<Ipv4.Address>, pingError: int, lookup: MacLookup)
    | NotResolve(service: NetService)
    | TxtUpdate(service: NetService, txt: map<string, seq<byte>>)

  /** One delegate call. No event changes the browsed type; a listed record
      only ever has its icon changed; find and remove events touch only the
      found services and the count; TXT updates leave them and the count
      alone. */
  function Apply(s: Session, e: Event): (r: Session)
    ensures r.browsing == s.browsing
    ensures |r.listed| >= |s.listed|
    ensures forall j | 0 <= j < |s.listed| :: r.listed[j] == s.listed[j].(icon := r.listed[j].icon)
    ensures e.Find? || e.Remove? ==> r.listed == s.listed && r.monitors == s.monitors && r.spinning == s.spinning
    ensures e.TxtUpdate? ==> r.foundServices == s.foundServices && r.serviceCount == s.serviceCount
  {
    match e
    case Find(x) => DidFind(s, x)
    case Remove(x) => DidRemove(s, x)
    case Resolve(x, addresses, pingError, lookup) => DidResolve(s, x, addresses, pingError, lookup)
    case NotResolve(x) => DidNotResolve(s, x)
    case TxtUpdate(x, txt) => DidUpdateTxt(s, x, txt)
  }

  /** The session after the events `es`, delivered oldest first: the browse
      is the one the last scan started, and every record listed before keeps
      all its fields but the icon. */
  function Run(s: Session, es: seq<Event>): (r: Session)
    ensures r.browsing == s.browsing
    ensures |r.listed| >= |s.listed|
    ensures forall j | 0 <= j < |s.listed| :: r.listed[j] == s.listed[j].(icon := r.listed[j].icon)
  {
    if |es| == 0 then s else Apply(Run(s, es[..|es| - 1]), es[|es| - 1])
  }

  /** The edits the events make to the found services. */
  function FoundEdits(es: seq<Event>): seq<ListEdit<NetService>> {
    if |es| == 0 then []
    else
      var e := es[|es| - 1];
      var init := FoundEdits(es[..|es| - 1]);
      if e.Find? then init + [Append(e.service)]
      else if e.Remove? then init + [RemoveEvery(e.service)]
      else init
  }

  lemma {:induction false} RunFoundServices(s: Session, es: seq<Event>)
    ensures Run(s, es).foundServices == ApplyEdits(s.foundServices, FoundEdits(es))
  {
    if |es| > 0 {
      RunFoundServices(s, es[..|es| - 1]);
      var init := FoundEdits(es[..|es| - 1]);
      var e := es[|es| - 1];
      if e.Find? || e.Remove? {
        assert FoundEdits(es)[..|FoundEdits(es)| - 1] == init;
      }
    }
  }

  /** Some(true) when the last find/remove event for `x` was a find,
      Some(false) when it was a remove, None when there was none. */
  function LastReport(es: seq<Event>, x: NetService): Option<bool> {
    if |es| == 0 then None
    else
      var e := es[|es| - 1];
      if (e.Find? || e.Remove?) && e.service == x then Some(e.Find?)
      else LastReport(es[..|es| - 1], x)
  }

  /** The found services' edits for `x` are the find and remove events for `x`. */
  lemma {:induction false} LastEditIsLastReport(es: seq<Event>, x: NetService)
    ensures LastEditOf(FoundEdits(es), x) == LastReport(es, x)
  {
    if |es| > 0 {
      LastEditIsLastReport(es[..|es| - 1], x);
      var e := es[|es| - 1];
      if e.Find? || e.Remove? {
        assert FoundEdits(es)[..|FoundEdits(es)| - 1] == FoundEdits(es[..|es| - 1]);
      }
    }
  }

  /** A service is among the found services exactly when the last find or
      remove event for it was a find, or, with none, when it was there to
      begin with; resolutions, failures and TXT updates do not matter. */
  lemma FoundFollowsLastEvent(s: Session, es: seq<Event>, x: NetService)
    ensures x in Run(s, es).foundServices <==>
      (LastReport(es, x) == Some(true) || (LastReport(es, x) == None && x in s.foundServices))
  {
    RunFoundServices(s, es);
    MembershipFollowsLastEdit(s.foundServices, FoundEdits(es), x);
    LastEditIsLastReport(es, x);
  }

  /** Find events among `es`. */
  function Finds(es: seq<Event>): nat {
    if |es| == 0 then 0 else Finds(es[..|es| - 1]) + (if es[|es| - 1].Find? then 1 else 0)
  }

  /** Resolve and not-resolve events among `es`: finished resolutions. */
  function Completions(es: seq<Event>): nat {
    if |es| == 0 then 0
    else Completions(es[..|es| - 1]) + (if es[|es| - 1].Resolve? || es[|es| - 1].NotResolve? then 1 else 0)
  }

  /** Resolve events among `es`. */
  function Resolves(es: seq<Event>): nat {
    if |es| == 0 then 0 else Resolves(es[..|es| - 1]) + (if es[|es| - 1].Resolve? then 1 else 0)
  }

  /** The count moves by one up per find and one down per finished
      resolution, whatever order they come in. */
  lemma {:induction false} CountBalance(s: Session, es: seq<Event>)
    ensures Run(s, es).serviceCount == s.serviceCount + Finds(es) - Completions(es)
  {
    if |es| > 0 {
      CountBalance(s, es[..|es| - 1]);
    }
  }

  /** Each successful resolution lists exactly one record; nothing else adds
      or removes listed records. */
  lemma {:induction false} ListedGrowth(s: Session, es: seq<Event>)
    ensures |Run(s, es).listed| == |s.listed| + Resolves(es)
  {
    if |es| > 0 {
      ListedGrowth(s, es[..|es| - 1]);
    }
  }

  /** No successful resolution among `es` left the count at zero or below. */
  predicate NeverDrained(s: Session, es: seq<Event>) {
    |es| == 0 ||
    (NeverDrained(s, es[..|es| - 1]) && (es[|es| - 1].Resolve? ==> Run(s, es).serviceCount > 0))
  }

  /** The indicator runs after `es` exactly when it ran before and no
      successful resolution along the way left the count at zero or below. */
  lemma {:induction false} IndicatorRule(s: Session, es: seq<Event>)
    ensures Run(s, es).spinning == (s.spinning && NeverDrained(s, es))
  {
    if |es| > 0 {
      IndicatorRule(s, es[..|es| - 1]);
    }
  }

  /** With `scan` as written, the indicator is never running once the scan
      has returned, whatever the browse reports afterwards. */
  lemma IndicatorStopsWithScan(s: Session, selection: seq<NetService>, es: seq<Event>)
    ensures !Run(Scan(s, selection), es).spinning
  {
    IndicatorRule(Scan(s, selection), es);
  }

  /** Every successful resolution among `es` left a resolution of the scan
      outstanding: more finds than finished resolutions up to it. */
  predicate OutstandingAtEachResolve(es: seq<Event>) {
    |es| == 0 ||
    (OutstandingAtEachResolve(es[..|es| - 1]) && (es[|es| - 1].Resolve? ==> Finds(es) > Completions(es)))
  }

  /** Right after a scan (the count is zero) the count never drains exactly
      when finds stay ahead of finished resolutions at every resolution. */
  lemma {:induction false} NeverDrainedFromZero(s: Session, es: seq<Event>)
    requires s.serviceCount == 0
    ensures NeverDrained(s, es) <==> OutstandingAtEachResolve(es)
  {
    if |es| > 0 {
      NeverDrainedFromZero(s, es[..|es| - 1]);
      CountBalance(s, es);
    }
  }

  /** With the intended `scan`, a scan over a selected type keeps the
      indicator running until a successful resolution leaves no resolution
      of this scan outstanding. */
  lemma IndicatorTracksOutstanding(s: Session, selection: seq<NetService>, es: seq<Event>)
    ensures Run(ScanIntended(s, selection), es).spinning <==>
      |selection| > 0 && OutstandingAtEachResolve(es)
  {
    IndicatorRule(ScanIntended(s, selection), es);
    NeverDrainedFromZero(ScanIntended(s, selection), es);
  }

  /** From the state `awakeFromNib` leaves, a scan followed by any events
      counts finds minus finished resolutions, lists one record per
      successful resolution, holds the services whose last report was a
      find, and, as written, never shows the indicator running. */
  lemma SessionFromStart(selection: seq<NetService>, es: seq<Event>, x: NetService)
    ensures var r := Run(Scan(Fresh, selection), es);
      && r.serviceCount == Finds(es) - Completions(es)
      && |r.listed| == Resolves(es)
      && (x in r.foundServices <==> LastReport(es, x) == Some(true))
      && !r.spinning
  {
    var s0 := Scan(Fresh, selection);
    CountBalance(s0, es);
    ListedGrowth(s0, es);
    FoundFollowsLastEvent(s0, es, x);
    IndicatorStopsWithScan(Fresh, selection, es);
  }

  /** 192.168.1.50 is rendered in dotted-decimal form. */
  lemma RenderExample()
    ensures Ipv4.Render(Ipv4.Address(192, 168, 1, 50)) == "192.168.1.50"
  {
    DecimalExamples();
    assert Ipv4.Render(Ipv4.Address(192, 168, 1, 50)) ==
      Ipv4.Dot(Ipv4.Decimal(192), Ipv4.Dot(Ipv4.Decimal(168), Ipv4.Dot(Ipv4.Decimal(1), Ipv4.Decimal(50))));
  }

  lemma DecimalExamples()
    ensures Ipv4.Decimal(192) == "192" && Ipv4.Decimal(168) == "168"
    ensures Ipv4.Decimal(1) == "1" && Ipv4.Decimal(50) == "50"
  {
    assert Ipv4.Decimal(1) == "1" && Ipv4.Decimal(19) == "19" && Ipv4.Decimal(192) == "192";
    assert Ipv4.Decimal(16) == "16" && Ipv4.Decimal(168) == "168";
    assert Ipv4.Decimal(5) == "5" && Ipv4.Decimal(50) == "50";
  }

  /** A service found at 192.168.1.50 whose MAC lookup writes nothing is
      listed with that IP, an empty MAC address and an empty icon. */
  lemma Printer1Scenario(s: Session, printer: NetService)
    ensures var r := Run(s, [Find(printer), Resolve(printer, [Ipv4.Address(192, 168, 1, 50)], 0, MacLookup(1, []))]);
      && |r.listed| == |s.listed| + 1
      && r.listed[|s.listed|].ipAddr == "192.168.1.50"
      && r.listed[|s.listed|].macAddr == ""
      && r.listed[|s.listed|].icon == ""
      && printer in r.foundServices
  {
    var a := Ipv4.Address(192, 168, 1, 50);
    var es := [Find(printer), Resolve(printer, [a], 0, MacLookup(1, []))];
    assert es[..1] == [Find(printer)];
    assert es[..1][..0] == [];
    var s1 := DidFind(s, printer);
    assert Run(s, es[..1]) == s1;
    assert Run(s, es) == DidResolve(s1, printer, [a], 0, MacLookup(1, []));
    assert printer in multiset(s1.foundServices);
    RenderExample();
    Ipv4.RenderParse("192.168.1.50");
  }
}
