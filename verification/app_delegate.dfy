/** The application delegate's two actions on remembered hosts: promoting the
    selected resolved service into the store (find-or-create the node by host
    and the service record by type, then link them), and the guard in front
    of the wake call. */
module AppDelegate {
  import opened Common
  import opened DataModel
  import opened ResolvedServices
  import Utf8

  /** The `status` a newly inserted NetworkNode carries: the data model's
      default for the attribute, taken to be false. */
  const NewNodeStatus := false

  /** `addSelectedServiceHost`: nothing happens without a selection;
      otherwise the first selected service is promoted. An existing node is
      reused as it is, never refreshed from the service. */
  function Promote(st: Store, selection: seq<ResolvedService>): (r: Store)
    ensures |selection| == 0 ==> r == st
    ensures r.owners == st.owners
    ensures |selection| > 0 ==>
      var rs := selection[0];
      var ni := NodeSlot(st.nodes, rs.host);
      var si := ServiceSlot(st.services, rs.serviceType);
      // the node and the service record end up linked both ways
      && ni < |r.nodes| && si < |r.services|
      && si in r.nodes[ni].services && ni in r.services[si].networkNodes
      // at most one node is added, and only when no node has the host
      && |r.nodes| == (if ni < |st.nodes| then |st.nodes| else |st.nodes| + 1)
      && (forall j | 0 <= j < |st.nodes| && j != ni :: r.nodes[j] == st.nodes[j])
      && (ni < |st.nodes| ==> r.nodes[ni] == st.nodes[ni].(services := st.nodes[ni].services + {si}))
      && (ni == |st.nodes| ==>
            && r.nodes[ni].host == Some(rs.host) && r.nodes[ni].domain == Some(rs.domain)
            && r.nodes[ni].ipAddr == Some(rs.ipAddr) && r.nodes[ni].macAddr == Some(rs.macAddr)
            && r.nodes[ni].icon == Some(rs.icon) && r.nodes[ni].status == NewNodeStatus
            && r.nodes[ni].owner == None && r.nodes[ni].services == {si})
      // at most one service record is added, and only when none has the type
      && |r.services| == (if si < |st.services| then |st.services| else |st.services| + 1)
      && (forall j | 0 <= j < |st.services| && j != si :: r.services[j] == st.services[j])
      && (si < |st.services| ==>
            r.services[si] == st.services[si].(networkNodes := st.services[si].networkNodes + {ni}))
      && (si == |st.services| ==>
            r.services[si] == Service(Some(rs.serviceType), Some(rs.name), {ni}))
  {
    if |selection| == 0 then st
    else
      var rs := selection[0];
      var ni := NodeSlot(st.nodes, rs.host);
      var nodes :=
        if ni < |st.nodes| then st.nodes
        else st.nodes + [NetworkNode(Some(rs.domain), Some(rs.host), Some(rs.icon), Some(rs.ipAddr),
                                     Some(rs.macAddr), NewNodeStatus, None, {})];
      var si := ServiceSlot(st.services, rs.serviceType);
      var services :=
        if si < |st.services| then st.services
        else st.services + [Service(Some(rs.serviceType), Some(rs.name), {})];
      Store(
        nodes[ni := nodes[ni].(services := nodes[ni].services + {si})],
        services[si := services[si].(networkNodes := services[si].networkNodes + {ni})],
        st.owners)
  }

  /** A node that has `host` and is preceded by none that has it is the one
      the fetch finds first. */
  lemma NodeSlotIs(nodes: seq<NetworkNode>, host: string, i: nat)
    requires i < |nodes| && nodes[i].host == Some(host)
    requires forall j | 0 <= j < i :: nodes[j].host != Some(host)
    ensures NodeSlot(nodes, host) == i
  {
  }

  lemma ServiceSlotIs(services: seq<Service>, identifier: string, i: nat)
    requires i < |services| && services[i].identifier == Some(identifier)
    requires forall j | 0 <= j < i :: services[j].identifier != Some(identifier)
    ensures ServiceSlot(services, identifier) == i
  {
  }

  /** Promoting the same selection twice leaves the store as promoting it
      once: the second promotion finds the node and the service record the
      first one found or created, and they are already linked. */
  lemma PromoteIdempotent(st: Store, selection: seq<ResolvedService>)
    ensures Promote(Promote(st, selection), selection) == Promote(st, selection)
    ensures |Promote(Promote(st, selection), selection).nodes| == |Promote(st, selection).nodes|
    ensures |Promote(Promote(st, selection), selection).services| == |Promote(st, selection).services|
  {
    if |selection| > 0 {
      var rs := selection[0];
      var r := Promote(st, selection);
      var ni := NodeSlot(st.nodes, rs.host);
      var si := ServiceSlot(st.services, rs.serviceType);
      NodeSlotIs(r.nodes, rs.host, ni);
      ServiceSlotIs(r.services, rs.serviceType, si);
      var r2 := Promote(r, selection);
      assert r2.nodes == r.nodes;
      assert r2.services == r.services;
    }
  }

  /** Promotion keeps host names unique: it only adds a node for a host no
      node has. */
  lemma PromoteKeepsHostsUnique(st: Store, selection: seq<ResolvedService>)
    requires UniqueHosts(st.nodes)
    ensures UniqueHosts(Promote(st, selection).nodes)
  {
    if |selection| > 0 {
      var r := Promote(st, selection);
      var ni := NodeSlot(st.nodes, selection[0].host);
      forall i, j | 0 <= i < j < |r.nodes| && r.nodes[i].host.Some?
        ensures r.nodes[i].host != r.nodes[j].host
      {
        assert r.nodes[i].host == st.nodes[i].host;
        if j < |st.nodes| {
          assert r.nodes[j].host == st.nodes[j].host;
        }
      }
    }
  }

  /** Promotion keeps service identifiers unique. */
  lemma PromoteKeepsIdentifiersUnique(st: Store, selection: seq<ResolvedService>)
    requires UniqueIdentifiers(st.services)
    ensures UniqueIdentifiers(Promote(st, selection).services)
  {
    if |selection| > 0 {
      var r := Promote(st, selection);
      forall i, j | 0 <= i < j < |r.services| && r.services[i].identifier.Some?
        ensures r.services[i].identifier != r.services[j].identifier
      {
        assert r.services[i].identifier == st.services[i].identifier;
        if j < |st.services| {
          assert r.services[j].identifier == st.services[j].identifier;
        }
      }
    }
  }

  /** Promotion keeps every relationship pointing at existing records and
      mirrored by its inverse. */
  lemma PromoteKeepsLinks(st: Store, selection: seq<ResolvedService>)
    requires Linked(st)
    ensures Linked(Promote(st, selection))
  {
    if |selection| > 0 {
      var rs := selection[0];
      var r := Promote(st, selection);
      var ni := NodeSlot(st.nodes, rs.host);
      var si := ServiceSlot(st.services, rs.serviceType);
      forall n | 0 <= n < |r.nodes|
        ensures NodeLinksBack(r, n)
      {
        if n < |st.nodes| {
          assert NodeLinksBack(st, n);
        }
      }
      forall s | 0 <= s < |r.services|
        ensures ServiceLinksBack(r, s)
      {
        if s < |st.services| {
          assert ServiceLinksBack(st, s);
        }
      }
      forall o | 0 <= o < |r.owners|
        ensures OwnerLinksBack(r, o)
      {
        assert OwnerLinksBack(st, o);
      }
    }
  }

  /** A resolved record never has a name, so a service record the promotion
      creates from one is named "". */
  lemma CreatedServiceIsUnnamed(st: Store, service: NetService, addresses: seq<Ipv4.Address>,
                                pingError: int, lookup: MacLookup)
    requires ServiceSlot(st.services, service.serviceType) == |st.services|
    ensures var r := Promote(st, [Init(service, addresses, pingError, lookup)]);
      r.services[|st.services|].name == Some("")
  {
  }

  /** What `wakeAction` does: skip, or call `send_wol` with a C string. */
  datatype WakeStep = Skip | SendWol(arg: seq<byte>)

  /** The bytes `send_wol` reads from `strdup(macAddr)`: the UTF-8 text of
      the address up to its first U+0000. */
  function WolArgument(mac: string): (arg: seq<byte>)
    ensures 0 !in arg && arg <= Utf8.Encode(mac)
    ensures 0 as char !in mac ==> arg == Utf8.Encode(mac)
  {
    var text := Utf8.Encode(mac);
    var arg := CString(text + [0]);
    assert arg != text + [0] by {
      assert (text + [0])[|text|] == 0;
    }
    assert |arg| <= |text|;
    assert arg == (text + [0])[..|arg|];
    assert arg == text[..|arg|];
    if 0 as char !in mac then
      Utf8.EncodeNulFree(mac);
      assert (text + [0])[..|text|] == text;
      CStringOfTerminated(text + [0], |text|);
      arg
    else arg
  }

  /** `wakeAction`: `send_wol` is reached only with a selection whose first
      node has a MAC address, and it is handed that address as a C string. */
  function Wake(selected: seq<NetworkNode>): (r: WakeStep)
    ensures r.SendWol? <==> |selected| > 0 && selected[0].macAddr.Some?
    ensures r.SendWol? ==> r.arg == WolArgument(selected[0].macAddr.value)
  {
    if |selected| == 0 then Skip
    else
      match selected[0].macAddr
      case None => Skip
      case Some(mac) => SendWol(WolArgument(mac))
  }

  /** For an address without U+0000, the C string `send_wol` receives decodes
      back to exactly the stored address. */
  lemma WakeSendsStoredMac(node: NetworkNode, mac: string)
    requires node.macAddr == Some(mac) && 0 as char !in mac
    ensures Wake([node]).SendWol? && Utf8.Decode(Wake([node]).arg) == Some(mac)
  {
    Utf8.DecodeEncode(mac);
  }

  /** An address holding U+0000 reaches `send_wol` cut at that character. */
  lemma {:induction false} WakeCutsAtNul(node: NetworkNode, before: string, after: string)
    requires node.macAddr == Some(before + [0 as char] + after) && 0 as char !in before
    ensures Wake([node]) == SendWol(Utf8.Encode(before))
  {
    var mac := before + [0 as char] + after;
    var head := Utf8.Encode(before);
    Utf8.EncodeAppend(before + [0 as char], after);
    Utf8.EncodeAppend(before, [0 as char]);
    assert Utf8.Encode([0 as char]) == [0];
    Utf8.EncodeNulFree(before);
    var buf := Utf8.Encode(mac) + [0];
    assert buf == head + [0] + Utf8.Encode(after) + [0];
    assert buf[..|head|] == head && buf[|head|] == 0;
    CStringOfTerminated(buf, |head|);
  }

  /** The guard checks presence only: any address, even "", reaches
      `send_wol`; "" arrives as the empty C string. */
  lemma WakeDoesNotValidate(node: NetworkNode, mac: string)
    requires node.macAddr == Some(mac)
    ensures Wake([node]).SendWol?
    ensures mac == "" ==> Wake([node]) == SendWol([])
  {
  }
}
