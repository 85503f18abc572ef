/** `NATServer`: which outside packets get in, over whole runs. */
module NatServer {
  import opened Bytes
  import opened NatWire

  /** What passed through the NAT: an inside host's packet, and the outside address it left from;
  an outside packet to such an address, and the inside host it was forwarded to, if any. */
  datatype Event =
    | Outbound(source: SocketAddress, destination: SocketAddress, via: SocketAddress)
    | Inbound(at: SocketAddress, from: SocketAddress, to: Option<SocketAddress>)

  // ---------- what a NAT promises, in terms of its history alone ----------

  /** `s` earlier sent through the mapping `at`, to a destination that is the packet's sender as far
  as the NAT filters. */
  ghost predicate Invited(kind: NATType, past: seq<Event>, at: SocketAddress, from: SocketAddress, s: SocketAddress) {
    exists j :: 0 <= j < |past| && past[j].Outbound? && past[j].source == s && past[j].via == at
                && SamePeer(kind, past[j].destination, from)
  }

  /** An outside packet reaches inside host `s` exactly when `s` invited it. */
  ghost predicate Filters(kind: NATType, trace: seq<Event>) {
    forall i, s :: 0 <= i < |trace| && trace[i].Inbound? ==>
      (trace[i].to == Some(s) <==> Invited(kind, trace[..i], trace[i].at, trace[i].from, s))
  }

  /** Two outgoing packets leave from the same address exactly when they have the same mapping. */
  ghost predicate Maps(kind: NATType, trace: seq<Event>) {
    forall i, j :: 0 <= i < |trace| && 0 <= j < |trace| && trace[i].Outbound? && trace[j].Outbound? ==>
      (trace[i].via == trace[j].via <==>
        SameRoute(kind, Route(trace[i].source, trace[i].destination), Route(trace[j].source, trace[j].destination)))
  }

  // ---------- the server ----------

  /** `whitelist->find(addr) != whitelist->end()`. */
  predicate Listed(kind: NATType, whitelist: set<SocketAddress>, addr: SocketAddress) {
    exists w :: w in whitelist && SamePeer(kind, w, addr)
  }

  /** No two addresses that the comparator does not separate. */
  ghost predicate OnePerPeer(kind: NATType, whitelist: set<SocketAddress>) {
    forall a, b :: a in whitelist && b in whitelist && SamePeer(kind, a, b) ==> a == b
  }

  class TransEntry {
    const route: Route
    const socket: SocketAddress
    var whitelist: set<SocketAddress>

    constructor (route: Route, socket: SocketAddress)
      ensures this.route == route && this.socket == socket && whitelist == {}
    {
      this.route, this.socket, whitelist := route, socket, {};
    }

    /** `whitelist->insert`: nothing changes if an equivalent address is there, so there is one
    address for all that are equivalent. */
    method WhitelistInsert(kind: NATType, addr: SocketAddress)
      modifies this
      ensures OnePerPeer(kind, old(whitelist)) ==> OnePerPeer(kind, whitelist)
      ensures Listed(kind, whitelist, addr)
      ensures whitelist == if Listed(kind, old(whitelist), addr) then old(whitelist) else old(whitelist) + {addr}
    {
      SamePeerMeans(kind, addr, addr);
      if !Listed(kind, whitelist, addr) {
        SamePeerSymmetric(kind, addr, whitelist);
        whitelist := whitelist + {addr};
      }
    }

    /** `WhitelistContains`, which is true when the address is absent. */
    predicate WhitelistContains(kind: NATType, addr: SocketAddress)
      reads this
    {
      !Listed(kind, whitelist, addr)
    }
  }

  /** The j-th event left through `socket`, for `dest`. */
  predicate SentTo(trace: seq<Event>, j: int, socket: SocketAddress, dest: SocketAddress) {
    0 <= j < |trace| && trace[j].Outbound? && trace[j].via == socket && trace[j].destination == dest
  }

  /** An entry's whitelist stands for the destinations that its host has sent to. */
  ghost predicate Whitelists(kind: NATType, trace: seq<Event>, socket: SocketAddress, whitelist: set<SocketAddress>) {
    && (forall w :: w in whitelist ==> exists j :: SentTo(trace, j, socket, w))
    && (forall j, d :: SentTo(trace, j, socket, d) ==> Listed(kind, whitelist, d))
  }

  class NATServer {
    const kind: NATType
    var intMap: map<Route, TransEntry>
    var extMap: map<SocketAddress, TransEntry>
    ghost var trace: seq<Event>

    constructor (kind: NATType)
      ensures Valid() && this.kind == kind && trace == []
    {
      this.kind, intMap, extMap, trace := kind, map[], map[], [];
    }

    /** The two maps describe the same entries, each under its own keys. */
    ghost predicate SameEntries()
      reads this
    {
      && (forall r :: r in intMap ==> intMap[r].route == r && intMap[r].socket in extMap
                                      && extMap[intMap[r].socket] == intMap[r])
      && (forall a :: a in extMap ==> extMap[a].socket == a && extMap[a].route in intMap
                                      && intMap[extMap[a].route] == extMap[a])
      && (forall r1, r2 :: r1 in intMap && r2 in intMap && SameRoute(kind, r1, r2) ==> r1 == r2)
    }

    ghost predicate Remembers()
      reads this, extMap.Values
    {
      && (forall i :: 0 <= i < |trace| && trace[i].Outbound? ==>
            && trace[i].via in extMap
            && SameRoute(kind, extMap[trace[i].via].route, Route(trace[i].source, trace[i].destination)))
      && (forall a :: a in extMap ==> Whitelists(kind, trace, a, extMap[a].whitelist))
    }

    ghost predicate Valid()
      reads this, extMap.Values
    {
      SameEntries() && Remembers() && Filters(kind, trace) && Maps(kind, trace)
    }

    /** `int_map_->find(route)`. */
    method Find(route: Route) returns (r: Option<TransEntry>)
      requires Valid()
      ensures r.None? ==> forall k :: k in intMap ==> !SameRoute(kind, k, route)
      ensures r.Some? ==> r.value.route in intMap && intMap[r.value.route] == r.value
                          && SameRoute(kind, r.value.route, route)
    {
      if k :| k in intMap && SameRoute(kind, k, route) {
        return Some(intMap[k]);
      }
      return None;
    }

    /** `Translate`, given the socket that was obtained for it. */
    method Translate(route: Route, socket: SocketAddress) returns (entry: TransEntry)
      requires Valid() && socket !in extMap
      requires forall k :: k in intMap ==> !SameRoute(kind, k, route)
      modifies this`intMap, this`extMap
      ensures fresh(entry) && entry.route == route && entry.socket == socket && entry.whitelist == {}
      ensures intMap == old(intMap)[route := entry] && extMap == old(extMap)[socket := entry]
    {
      entry := new TransEntry(route, socket);
      intMap := intMap[route := entry];
      extMap := extMap[socket := entry];
    }

    /** Records an outgoing packet through `entry`, which its route belongs to. */
    method Record(entry: TransEntry, route: Route)
      requires Valid() && entry.socket in extMap && extMap[entry.socket] == entry
      requires SameRoute(kind, entry.route, route)
      modifies this`trace, entry
      ensures Valid() && trace == old(trace) + [Outbound(route.source, route.destination, entry.socket)]
    {
      hide SameRoute, SamePeer, Listed, Whitelists, Filters, Maps;
      ghost var e := Outbound(route.source, route.destination, entry.socket);
      SameTrace(entry, route);
      MapsSnoc(kind, trace, e);
      FiltersSnoc(kind, trace, e);
      ghost var before := trace;
      ghost var whitelists := map a | a in extMap :: extMap[a].whitelist;
      entry.WhitelistInsert(kind, route.destination);
      trace := trace + [e];
      forall a | a in extMap
        ensures Whitelists(kind, trace, a, extMap[a].whitelist)
      {
        if a == entry.socket {
          WhitelistsInsert(kind, before, e, whitelists[a], entry.whitelist);
        } else {
          assert extMap[a] != entry;
          WhitelistsOther(kind, before, e, a, whitelists[a]);
        }
      }
    }

    /** Earlier packets used `entry` exactly if they had the same mapping. */
    lemma SameTrace(entry: TransEntry, route: Route)
      requires Valid() && entry.socket in extMap && extMap[entry.socket] == entry
      requires SameRoute(kind, entry.route, route)
      ensures forall i :: 0 <= i < |trace| && trace[i].Outbound? ==>
        (trace[i].via == entry.socket <==> SameRoute(kind, Route(trace[i].source, trace[i].destination), route))
    {
      forall i | 0 <= i < |trace| && trace[i].Outbound?
        ensures trace[i].via == entry.socket <==> SameRoute(kind, Route(trace[i].source, trace[i].destination), route)
      {
        var ri := Route(trace[i].source, trace[i].destination);
        var ei := extMap[trace[i].via];
        SameRouteMeans(kind, ei.route, ri);
        SameRouteMeans(kind, entry.route, route);
        SameRouteMeans(kind, ri, route);
        SameRouteMeans(kind, ei.route, entry.route);
      }
    }

    /** `OnInternalPacket`: a packet from the inside host `addr`, addressed by its header.
    `newSocket` is the outside socket that would be obtained for a new mapping. */
    method OnInternalPacket(buf: bytes, addr: SocketAddress, newSocket: Option<SocketAddress>)
      returns (sent: Option<(SocketAddress, SocketAddress, bytes)>)
      requires Valid()
      requires newSocket.Some? ==> newSocket.value !in extMap
      modifies this, extMap.Values
      ensures Valid()
      ensures sent.Some? <==>
        && UnpackAddress(buf).Some?
        && (newSocket.Some?
            || exists k :: k in old(intMap) && SameRoute(kind, k, Route(addr, UnpackAddress(buf).value.0)))
      ensures sent.None? ==> trace == old(trace)
      ensures sent.Some? ==>
        var (dest, length) := UnpackAddress(buf).value;
        && sent.value.1 == dest && sent.value.2 == buf[length..]
        && trace == old(trace) + [Outbound(addr, dest, sent.value.0)]
    {
      hide SameRoute, Whitelists, Filters, Maps, UnpackAddress;
      var unpacked := UnpackAddress(buf);
      if unpacked.None? {
        return None;  // ASSERT
      }
      var (dest, length) := unpacked.value;
      var route := Route(addr, dest);
      var found := Find(route);
      if found.None? {
        if newSocket.None? {
          return None;  // couldn't find a free port
        }
        var entry := Translate(route, newSocket.value);
        SameRouteMeans(kind, route, route);
        SameRouteSymmetric(kind, route, intMap.Keys);
        NothingSent(kind, trace, newSocket.value);
        found := Some(entry);
      }
      Record(found.value, route);
      return Some((found.value.socket, dest, buf[length..]));
    }

    /** `OnExternalPacket` on the outside socket `at`. */
    method OnExternalPacket(at: SocketAddress, buf: bytes, from: SocketAddress)
      returns (forwarded: Option<(SocketAddress, bytes)>)
      requires Valid() && at in extMap
      modifies this`trace
      ensures Valid()
      ensures forwarded.Some? ==> forwarded.value.1 == PackAddress(from) + buf
      ensures trace == old(trace) + [Inbound(at, from, if forwarded.None? then None else Some(forwarded.value.0))]
    {
      hide SameRoute, SamePeer, Listed, Whitelists, Filters, Maps, Invited;
      var entry := extMap[at];
      if entry.WhitelistContains(kind, from) {
        forwarded := None;
      } else {
        forwarded := Some((entry.route.source, PackAddress(from) + buf));
      }
      ghost var e := Inbound(at, from, if forwarded.None? then None else Some(entry.route.source));
      forall s
        ensures e.to == Some(s) <==> Invited(kind, trace, at, from, s)
      {
        InvitedBy(entry, from, s);
      }
      FiltersSnoc(kind, trace, e);
      MapsSnoc(kind, trace, e);
      forall a | a in extMap
        ensures Whitelists(kind, trace + [e], a, extMap[a].whitelist)
      {
        WhitelistsOther(kind, trace, e, a, extMap[a].whitelist);
      }
      trace := trace + [e];
    }

    lemma InvitedBy(entry: TransEntry, from: SocketAddress, s: SocketAddress)
      requires Valid() && entry.socket in extMap && extMap[entry.socket] == entry
      ensures Invited(kind, trace, entry.socket, from, s)
              <==> s == entry.route.source && Listed(kind, entry.whitelist, from)
    {
      hide SameRoute, SamePeer, Filters, Maps, NATServer.SameEntries;
      assert Whitelists(kind, trace, entry.socket, entry.whitelist);
      if Invited(kind, trace, entry.socket, from, s) {
        var j :| 0 <= j < |trace| && trace[j].Outbound? && trace[j].source == s && trace[j].via == entry.socket
                 && SamePeer(kind, trace[j].destination, from);
        SameRouteMeans(kind, entry.route, Route(trace[j].source, trace[j].destination));
        assert SentTo(trace, j, entry.socket, trace[j].destination);
        assert Listed(kind, entry.whitelist, trace[j].destination);
        var w :| w in entry.whitelist && SamePeer(kind, w, trace[j].destination);
        SamePeerTransitive(kind, w, trace[j].destination, from);
      }
      if s == entry.route.source && Listed(kind, entry.whitelist, from) {
        var w :| w in entry.whitelist && SamePeer(kind, w, from);
        var j :| SentTo(trace, j, entry.socket, w);
        SameRouteMeans(kind, entry.route, Route(trace[j].source, trace[j].destination));
      }
    }
  }

  // ---------- one more event ----------

  lemma FiltersSnoc(kind: NATType, trace: seq<Event>, e: Event)
    requires Filters(kind, trace)
    requires e.Inbound? ==> forall s :: e.to == Some(s) <==> Invited(kind, trace, e.at, e.from, s)
    ensures Filters(kind, trace + [e])
  {
    var longer := trace + [e];
    forall i, s | 0 <= i < |longer| && longer[i].Inbound?
      ensures longer[i].to == Some(s) <==> Invited(kind, longer[..i], longer[i].at, longer[i].from, s)
    {
      assert longer[..i] == trace[..i];
      assert trace[..|trace|] == trace;
    }
  }

  lemma MapsSnoc(kind: NATType, trace: seq<Event>, e: Event)
    requires Maps(kind, trace)
    requires e.Outbound? ==> forall i :: 0 <= i < |trace| && trace[i].Outbound? ==>
      (trace[i].via == e.via <==>
        SameRoute(kind, Route(trace[i].source, trace[i].destination), Route(e.source, e.destination)))
    ensures Maps(kind, trace + [e])
  {
    if e.Outbound? {
      SameRouteMeans(kind, Route(e.source, e.destination), Route(e.source, e.destination));
    }
  }

  lemma WhitelistsInsert(kind: NATType, trace: seq<Event>, e: Event, before: set<SocketAddress>,
                         after: set<SocketAddress>)
    requires e.Outbound? && Whitelists(kind, trace, e.via, before)
    requires after == if Listed(kind, before, e.destination) then before else before + {e.destination}
    ensures Whitelists(kind, trace + [e], e.via, after)
  {
    hide Listed;
    var longer := trace + [e];
    forall w | w in after
      ensures exists j :: SentTo(longer, j, e.via, w)
    {
      if w in before {
        var j :| SentTo(trace, j, e.via, w);
        assert SentTo(longer, j, e.via, w);
      } else {
        assert SentTo(longer, |trace|, e.via, w);
      }
    }
    forall j, d | SentTo(longer, j, e.via, d)
      ensures Listed(kind, after, d)
    {
      assert j < |trace| ==> SentTo(trace, j, e.via, d);
      ListedStays(kind, before, after, e.destination, d);
    }
  }

  lemma ListedStays(kind: NATType, before: set<SocketAddress>, after: set<SocketAddress>, added: SocketAddress,
                    d: SocketAddress)
    requires after == if Listed(kind, before, added) then before else before + {added}
    requires Listed(kind, before, d) || d == added
    ensures Listed(kind, after, d)
  {
    SamePeerMeans(kind, added, added);
    if Listed(kind, before, d) {
      var w :| w in before && SamePeer(kind, w, d);
      assert w in after;
    }
  }

  lemma NothingSent(kind: NATType, trace: seq<Event>, socket: SocketAddress)
    requires forall i :: 0 <= i < |trace| && trace[i].Outbound? ==> trace[i].via != socket
    ensures Whitelists(kind, trace, socket, {})
  {
  }

  lemma WhitelistsOther(kind: NATType, trace: seq<Event>, e: Event, socket: SocketAddress,
                        whitelist: set<SocketAddress>)
    requires Whitelists(kind, trace, socket, whitelist)
    requires e.Outbound? ==> e.via != socket
    ensures Whitelists(kind, trace + [e], socket, whitelist)
  {
    hide Listed;
    var longer := trace + [e];
    forall w | w in whitelist
      ensures exists j :: SentTo(longer, j, socket, w)
    {
      var j :| SentTo(trace, j, socket, w);
      assert SentTo(longer, j, socket, w);
    }
    forall j, d | SentTo(longer, j, socket, d)
      ensures Listed(kind, whitelist, d)
    {
      assert SentTo(trace, j, socket, d);
    }
  }

  lemma SameRouteSymmetric(kind: NATType, route: Route, others: set<Route>)
    ensures forall r :: r in others ==> (SameRoute(kind, r, route) <==> SameRoute(kind, route, r))
  {
  }

  lemma SamePeerSymmetric(kind: NATType, addr: SocketAddress, others: set<SocketAddress>)
    ensures forall a :: a in others ==> (SamePeer(kind, a, addr) <==> SamePeer(kind, addr, a))
  {
  }

  lemma SamePeerTransitive(kind: NATType, a: SocketAddress, b: SocketAddress, c: SocketAddress)
    requires SamePeer(kind, a, b) && SamePeer(kind, b, c)
    ensures SamePeer(kind, a, c)
  {
    SamePeerMeans(kind, a, b);
    SamePeerMeans(kind, b, c);
    SamePeerMeans(kind, a, c);
  }

  // ---------- the kinds of section 5 of RFC 3489, and sections 4.1 and 5 of RFC 4787 ----------

  /** `past[j]` is a packet of `s` through `at` that lets `from` answer. */
  ghost predicate Opens(kind: NATType, e: Event, at: SocketAddress, from: SocketAddress, s: SocketAddress) {
    && e.Outbound? && e.source == s && e.via == at
    && match kind
       case OpenCone => true
       case AddressRestricted => e.destination.ip == from.ip
       case PortRestricted => e.destination == from
       case Symmetric => e.destination == from
  }

  /** Filtering: whichever packets came before, an outside packet is forwarded to `s` exactly when
  `s` had sent through that address: to anyone (open cone), to the sender's IP address (address
  restricted), or to the sender's very address and port (port restricted and symmetric). */
  lemma FilteringByKind(kind: NATType, trace: seq<Event>, i: nat, s: SocketAddress)
    requires Filters(kind, trace) && i < |trace| && trace[i].Inbound?
    ensures trace[i].to == Some(s) <==> exists j :: 0 <= j < i && Opens(kind, trace[j], trace[i].at, trace[i].from, s)
  {
    var past, at, from := trace[..i], trace[i].at, trace[i].from;
    forall j | 0 <= j < i && trace[j].Outbound?
      ensures SamePeer(kind, trace[j].destination, from)
              <==> match kind
                   case OpenCone => true
                   case AddressRestricted => trace[j].destination.ip == from.ip
                   case _ => trace[j].destination == from
    {
      SamePeerMeans(kind, trace[j].destination, from);
    }
    hide SamePeer, Filters;
    assert trace[i].to == Some(s) <==> Invited(kind, past, at, from, s) by { FilterAt(kind, trace, i, s); }
    if Invited(kind, past, at, from, s) {
      var j :| 0 <= j < |past| && past[j].Outbound? && past[j].source == s && past[j].via == at
               && SamePeer(kind, past[j].destination, from);
      assert past[j] == trace[j] && Opens(kind, trace[j], at, from, s);
    }
    if j :| 0 <= j < i && Opens(kind, trace[j], at, from, s) {
      assert past[j] == trace[j];
    }
  }

  lemma FilterAt(kind: NATType, trace: seq<Event>, i: nat, s: SocketAddress)
    requires Filters(kind, trace) && i < |trace| && trace[i].Inbound?
    ensures trace[i].to == Some(s) <==> Invited(kind, trace[..i], trace[i].at, trace[i].from, s)
  {
  }

  /** Mapping: the cone kinds use one outside address per inside address, whatever the destination;
  the symmetric kind uses one per pair; and two inside addresses never share one. */
  lemma MappingByKind(kind: NATType, trace: seq<Event>, i: nat, j: nat)
    requires Maps(kind, trace) && i < |trace| && j < |trace| && trace[i].Outbound? && trace[j].Outbound?
    ensures trace[i].via == trace[j].via
            <==> trace[i].source == trace[j].source &&
                 (kind.Symmetric? ==> trace[i].destination == trace[j].destination)
  {
    SameRouteMeans(kind, Route(trace[i].source, trace[i].destination), Route(trace[j].source, trace[j].destination));
  }

  /** Every kind lets the answer to a packet back in, to the host that sent it and no other. */
  lemma AnswersGetIn(kind: NATType, trace: seq<Event>, j: nat, i: nat)
    requires Filters(kind, trace) && Maps(kind, trace) && j < i < |trace|
    requires trace[j].Outbound? && trace[i].Inbound?
    requires trace[i].at == trace[j].via && trace[i].from == trace[j].destination
    ensures trace[i].to == Some(trace[j].source)
  {
    FilteringByKind(kind, trace, i, trace[j].source);
    assert Opens(kind, trace[j], trace[i].at, trace[i].from, trace[j].source);
  }
}
