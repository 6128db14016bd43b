/** The persistent store of remembered hosts, as the Core Data entities
    NetworkNode, Service and Owner declare it. Every attribute the entities
    declare optional is an `Option`; a record's identity is its position in
    the store, and a to-many relationship is a set of such positions. No
    uniqueness constraint is declared, so nothing here assumes one. */
module DataModel {
  import opened Common

  type NodeId = nat
  type ServiceId = nat
  type OwnerId = nat

  /** A remembered host. */
  datatype NetworkNode = NetworkNode(
    domain: Option<string>,
    host: Option<string>,
    icon: Option<string>,
    ipAddr: Option<string>,
    macAddr: Option<string>,
    status: bool,
    owner: Option<OwnerId>,
    services: set<ServiceId>)

  /** A remembered service type; `identifier` is the Bonjour type. */
  datatype Service = Service(
    identifier: Option<string>,
    name: Option<string>,
    networkNodes: set<NodeId>)

  /** The person or group a host belongs to. */
  datatype Owner = Owner(
    email: Option<string>,
    firstName: Option<string>,
    lastName: Option<string>,
    nickName: Option<string>,
    networkNodes: set<NodeId>)

  datatype Store = Store(nodes: seq<NetworkNode>, services: seq<Service>, owners: seq<Owner>)

  /** Every relationship points at an existing record, and each is mirrored
      by its inverse, as Core Data keeps inverse relationships. */
  predicate Linked(st: Store) {
    && (forall n | 0 <= n < |st.nodes| :: NodeLinksBack(st, n))
    && (forall s | 0 <= s < |st.services| :: ServiceLinksBack(st, s))
    && (forall o | 0 <= o < |st.owners| :: OwnerLinksBack(st, o))
  }

  /** The node's service records and owner exist and list the node. */
  predicate NodeLinksBack(st: Store, n: NodeId)
    requires n < |st.nodes|
  {
    && (forall s | s in st.nodes[n].services :: s < |st.services| && n in st.services[s].networkNodes)
    && (st.nodes[n].owner.Some? ==>
          st.nodes[n].owner.value < |st.owners| && n in st.owners[st.nodes[n].owner.value].networkNodes)
  }

  /** The service record's nodes exist and list the record. */
  predicate ServiceLinksBack(st: Store, s: ServiceId)
    requires s < |st.services|
  {
    forall n | n in st.services[s].networkNodes :: n < |st.nodes| && s in st.nodes[n].services
  }

  /** The owner's nodes exist and name the owner. */
  predicate OwnerLinksBack(st: Store, o: OwnerId)
    requires o < |st.owners|
  {
    forall n | n in st.owners[o].networkNodes :: n < |st.nodes| && st.nodes[n].owner == Some(o)
  }

  /** No two nodes share a host name. */
  predicate UniqueHosts(nodes: seq<NetworkNode>) {
    forall i, j | 0 <= i < j < |nodes| && nodes[i].host.Some? :: nodes[i].host != nodes[j].host
  }

  /** No two service records share an identifier. */
  predicate UniqueIdentifiers(services: seq<Service>) {
    forall i, j | 0 <= i < j < |services| && services[i].identifier.Some? ::
      services[i].identifier != services[j].identifier
  }

  /** Where the fetch `host = <host>` takes its first result from: the first
      matching node, or one past the end when none matches (the slot a newly
      inserted node takes). */
  function NodeSlot(nodes: seq<NetworkNode>, host: string): (i: NodeId)
    ensures i <= |nodes|
    ensures i < |nodes| ==> nodes[i].host == Some(host)
    ensures forall j | 0 <= j < i :: nodes[j].host != Some(host)
  {
    if |nodes| == 0 || nodes[0].host == Some(host) then 0
    else 1 + NodeSlot(nodes[1..], host)
  }

  /** The same for the fetch `identifier = <identifier>` on service records. */
  function ServiceSlot(services: seq<Service>, identifier: string): (i: ServiceId)
    ensures i <= |services|
    ensures i < |services| ==> services[i].identifier == Some(identifier)
    ensures forall j | 0 <= j < i :: services[j].identifier != Some(identifier)
  {
    if |services| == 0 || services[0].identifier == Some(identifier) then 0
    else 1 + ServiceSlot(services[1..], identifier)
  }
}
