/** The status controller: one browse per remembered service type, and the
    found and removed events of those browses setting the `status` of the one
    remembered node whose host is the event's service name. */
module NodeStatus {
  import opened Common
  import opened DataModel

  /** The fetch `identifier > ""` keeps the records whose identifier is a
      non-empty string; one browse is started for each, in store order. */
  function BrowsedTypes(services: seq<Service>): (r: seq<string>)
    ensures |r| <= |services|
    ensures forall t :: t in r <==>
      t != "" && exists k | 0 <= k < |services| :: services[k].identifier == Some(t)
  {
    if |services| == 0 then []
    else
      var last := services[|services| - 1];
      var init := BrowsedTypes(services[..|services| - 1]);
      assert forall k | 0 <= k < |services| - 1 :: services[..|services| - 1][k] == services[k];
      if last.identifier.Some? && last.identifier.value != "" then init + [last.identifier.value]
      else init
  }

  /** One browse per record: the browses for two runs of records are those of
      the first followed by those of the second. */
  lemma {:induction false} BrowsedTypesAppend(a: seq<Service>, b: seq<Service>)
    ensures BrowsedTypes(a + b) == BrowsedTypes(a) + BrowsedTypes(b)
  {
    if |b| > 0 {
      BrowsedTypesAppend(a, b[..|b| - 1]);
      assert (a + b)[..|a + b| - 1] == a + b[..|b| - 1];
    } else {
      assert a + b == a;
    }
  }

  /** Node `i` is the only one whose host is `name`. */
  predicate UniqueMatch(nodes: seq<NetworkNode>, name: string, i: nat) {
    && i < |nodes| && nodes[i].host == Some(name)
    && forall j | 0 <= j < |nodes| && j != i :: nodes[j].host != Some(name)
  }

  /** The positions of the nodes whose host is `name`, in ascending order:
      the result of the fetch `host = <name>`. */
  function Matches(nodes: seq<NetworkNode>, name: string): (m: seq<NodeId>)
    ensures forall k | 0 <= k < |m| :: m[k] < |nodes| && nodes[m[k]].host == Some(name)
    ensures forall i | 0 <= i < |nodes| && nodes[i].host == Some(name) :: i in m
    ensures forall k, l | 0 <= k < l < |m| :: m[k] < m[l]
  {
    if |nodes| == 0 then []
    else
      var init := Matches(nodes[..|nodes| - 1], name);
      if nodes[|nodes| - 1].host == Some(name) then init + [|nodes| - 1] else init
  }

  /** `managedObjectForService`: the node whose host is the service's name,
      if exactly one node has it; none when no node or several nodes do. */
  function ManagedObjectFor(nodes: seq<NetworkNode>, name: string): (r: Option<NodeId>)
    ensures r.Some? ==> UniqueMatch(nodes, name, r.value)
    ensures r.None? ==> forall i: nat | i < |nodes| :: !UniqueMatch(nodes, name, i)
  {
    var m := Matches(nodes, name);
    if |m| == 1 then Some(m[0])
    else
      assert forall i: nat | i < |nodes| :: !UniqueMatch(nodes, name, i) by {
        forall i: nat | i < |nodes|
          ensures !UniqueMatch(nodes, name, i)
        {
          if UniqueMatch(nodes, name, i) {
            MatchesOfUnique(nodes, name, i);
          }
        }
      }
      None
  }

  /** No node has the host: the fetch returns nothing. */
  lemma {:induction false} MatchesOfAbsent(nodes: seq<NetworkNode>, name: string)
    requires forall j | 0 <= j < |nodes| :: nodes[j].host != Some(name)
    ensures Matches(nodes, name) == []
  {
    if |nodes| > 0 {
      MatchesOfAbsent(nodes[..|nodes| - 1], name);
    }
  }

  /** Exactly one node has the host: the fetch returns just that node. */
  lemma {:induction false} MatchesOfUnique(nodes: seq<NetworkNode>, name: string, i: nat)
    requires UniqueMatch(nodes, name, i)
    ensures Matches(nodes, name) == [i]
  {
    var init := nodes[..|nodes| - 1];
    if i == |nodes| - 1 {
      MatchesOfAbsent(init, name);
    } else {
      assert UniqueMatch(init, name, i);
      MatchesOfUnique(init, name, i);
    }
  }

  /** Sets `status` of the node `managedObjectForService` returns, if any. */
  function SetStatus(st: Store, name: string, value: bool): (r: Store)
    ensures r.services == st.services && r.owners == st.owners
    ensures forall i: nat | UniqueMatch(st.nodes, name, i) :: r.nodes == st.nodes[i := st.nodes[i].(status := value)]
    ensures (forall i: nat | i < |st.nodes| :: !UniqueMatch(st.nodes, name, i)) ==> r == st
  {
    match ManagedObjectFor(st.nodes, name)
    case None => st
    case Some(i) => st.(nodes := st.nodes[i := st.nodes[i].(status := value)])
  }

  /** What the status controller is told by its browses and services. */
  datatype Event =
    | Found(name: string)
    | Removed(name: string)
    | Resolved(name: string)
    | NotResolved(name: string)

  /** One delegate call. Found and removed go through the host lookup; the
      resolve callbacks only log. */
  function Step(st: Store, e: Event): (r: Store)
    ensures r.services == st.services && r.owners == st.owners && |r.nodes| == |st.nodes|
    ensures forall j | 0 <= j < |st.nodes| :: r.nodes[j].(status := st.nodes[j].status) == st.nodes[j]
    ensures e.Resolved? || e.NotResolved? ==> r == st
  {
    match e
    case Found(name) => SetStatus(st, name, true)
    case Removed(name) => SetStatus(st, name, false)
    case Resolved(_) => st
    case NotResolved(_) => st
  }

  /** The store after the events `es`, delivered oldest first. */
  function Run(st: Store, es: seq<Event>): (r: Store)
    ensures r.services == st.services && r.owners == st.owners && |r.nodes| == |st.nodes|
  {
    if |es| == 0 then st else Step(Run(st, es[..|es| - 1]), es[|es| - 1])
  }

  /** Some(true) when the most recent found/removed event for `name` was a
      found, Some(false) when it was a removed, None when there was none. */
  function LastPresence(es: seq<Event>, name: string): Option<bool> {
    if |es| == 0 then None
    else
      var e := es[|es| - 1];
      if (e.Found? || e.Removed?) && e.name == name then Some(e.Found?)
      else LastPresence(es[..|es| - 1], name)
  }

  /** Events change nothing but `status` flags, so which node a host name
      uniquely picks out never changes. */
  lemma {:induction false} RunKeepsAllButStatus(st: Store, es: seq<Event>)
    ensures forall j | 0 <= j < |st.nodes| ::
      Run(st, es).nodes[j].(status := st.nodes[j].status) == st.nodes[j]
  {
    if |es| > 0 {
      RunKeepsAllButStatus(st, es[..|es| - 1]);
    }
  }

  /** For a host exactly one node has, after any run of events its `status`
      says whether the last found/removed event for that host was a found;
      with no such event it keeps its initial value. Events for other names,
      and the resolve callbacks, never touch it. */
  lemma {:induction false} StatusFollowsLastEvent(st: Store, es: seq<Event>, host: string, i: nat)
    requires UniqueMatch(st.nodes, host, i)
    ensures Run(st, es).nodes[i].status ==
      match LastPresence(es, host)
      case Some(present) => present
      case None => st.nodes[i].status
  {
    RunKeepsAllButStatus(st, es);
    if |es| > 0 {
      var prev := Run(st, es[..|es| - 1]);
      var e := es[|es| - 1];
      RunKeepsAllButStatus(st, es[..|es| - 1]);
      StatusFollowsLastEvent(st, es[..|es| - 1], host, i);
      assert UniqueMatch(prev.nodes, host, i) by {
        forall j | 0 <= j < |prev.nodes| && j != i
          ensures prev.nodes[j].host != Some(host)
        {
          assert prev.nodes[j].host == st.nodes[j].host;
        }
      }
      if (e.Found? || e.Removed?) && e.name != host {
        if m :| 0 <= m < |prev.nodes| && UniqueMatch(prev.nodes, e.name, m) {
          assert m != i;
        }
      }
    }
  }

  /** A node whose host is missing or shared with another node never has its
      `status` changed by any event. */
  lemma {:induction false} AmbiguousNodeKeepsStatus(st: Store, es: seq<Event>, i: nat)
    requires i < |st.nodes|
    requires st.nodes[i].host.None? ||
      exists j | 0 <= j < |st.nodes| && j != i :: st.nodes[j].host == st.nodes[i].host
    ensures Run(st, es).nodes[i].status == st.nodes[i].status
  {
    RunKeepsAllButStatus(st, es);
    if |es| > 0 {
      var prev := Run(st, es[..|es| - 1]);
      var e := es[|es| - 1];
      RunKeepsAllButStatus(st, es[..|es| - 1]);
      AmbiguousNodeKeepsStatus(st, es[..|es| - 1], i);
    }
  }

  /** The status controller's own reference to the store: `None` until
      something assigns it. */
  datatype Controller = Controller(context: Option<Store>)

  /** What a delegate call leads to: the force-unwrap of a missing context
      traps; a resolve callback without a context only logs; otherwise the
      store after the call. */
  datatype Outcome = Trapped | Logged | Done(st: Store)

  /** `awakeFromNib` as written: the array controller's context is bound to
      a local constant only, so the controller's own reference is left as it
      was. */
  function AwakeAsWritten(c: Controller, arrayContext: Option<Store>): (r: Controller)
    ensures r.context == c.context
  {
    c
  }

  /** `awakeFromNib` as evidently intended: the controller keeps the array
      controller's context for the lookups that follow. */
  function AwakeIntended(c: Controller, arrayContext: Option<Store>): (r: Controller)
    ensures arrayContext.Some? ==> r.context == arrayContext
    ensures arrayContext.None? ==> r == c
  {
    if arrayContext.Some? then Controller(arrayContext) else c
  }

  /** One delegate call on the controller. `managedObjectForService`
      force-unwraps the controller's context before fetching. */
  function Deliver(c: Controller, e: Event): (r: Outcome)
    ensures (e.Found? || e.Removed?) && c.context.None? <==> r.Trapped?
    ensures (e.Resolved? || e.NotResolved?) && c.context.None? <==> r.Logged?
    ensures c.context.Some? ==> r == Done(Step(c.context.value, e))
  {
    match c.context
    case None => if e.Found? || e.Removed? then Trapped else Logged
    case Some(st) => Done(Step(st, e))
  }

  /** Some event among `es` makes the controller look a node up. */
  predicate LooksUp(es: seq<Event>) {
    exists k | 0 <= k < |es| :: es[k].Found? || es[k].Removed?
  }

  /** The controller after the events `es`, delivered oldest first: each
      event acts on the store the previous ones left, and the first lookup
      without a context traps. */
  function Replay(c: Controller, es: seq<Event>): (r: Outcome)
    ensures c.context.Some? ==> r == Done(Run(c.context.value, es))
    ensures c.context.None? ==> (r.Trapped? <==> LooksUp(es)) && (r.Logged? <==> !LooksUp(es))
  {
    if |es| == 0 then (if c.context.Some? then Done(c.context.value) else Logged)
    else
      var init := es[..|es| - 1];
      var e := es[|es| - 1];
      assert LooksUp(es) <==> LooksUp(init) || e.Found? || e.Removed? by {
        assert forall k | 0 <= k < |init| :: init[k] == es[k];
      }
      match Replay(c, init)
      case Trapped => Trapped
      case Logged => Deliver(c, e)
      case Done(st) => Deliver(Controller(Some(st)), e)
  }

  /** As written, start-up leaves no context, so the controller traps as soon
      as any found or removed event arrives, whatever the store holds, and
      before that it has only logged. */
  lemma FoundTrapsAfterAwake(st: Store, es: seq<Event>)
    ensures Replay(AwakeAsWritten(Controller(None), Some(st)), es).Trapped? <==> LooksUp(es)
    ensures !LooksUp(es) ==> Replay(AwakeAsWritten(Controller(None), Some(st)), es) == Logged
  {
  }

  /** With the context kept at start-up, the controller never traps, and a
      uniquely matched node's status follows the last found/removed event
      for its host. */
  lemma IntendedStatusFollowsLastEvent(st: Store, es: seq<Event>, host: string, i: nat)
    requires UniqueMatch(st.nodes, host, i)
    ensures var r := Replay(AwakeIntended(Controller(None), Some(st)), es);
      && r == Done(Run(st, es))
      && r.st.nodes[i].status ==
        match LastPresence(es, host)
        case Some(present) => present
        case None => st.nodes[i].status
  {
    StatusFollowsLastEvent(st, es, host, i);
  }

  /** A remembered "nas01" that is offline comes online on a found event for
      it and goes offline again on the removed event that follows. */
  lemma Nas01Scenario(node: NetworkNode)
    requires node.host == Some("nas01") && !node.status
    ensures var st := Store([node], [], []);
      Step(st, Found("nas01")).nodes[0].status &&
      !Step(Step(st, Found("nas01")), Removed("nas01")).nodes[0].status
  {
    var st := Store([node], [], []);
    assert UniqueMatch(st.nodes, "nas01", 0);
    var st1 := Step(st, Found("nas01"));
    assert UniqueMatch(st1.nodes, "nas01", 0);
  }
}
