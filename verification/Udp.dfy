/** breUtils/net/UDPManager.hpp: a message is cut into datagrams and put together again. */
module UdpPackets {

  type Byte = bv8
  type Bytes = seq<Byte>

  const SIGNATURE: nat := 0x12345678
  const UINT32: nat := 0x1_0000_0000

  /** The largest datagram, 9216 bytes, less the packed header of 24. */
  const PAYLOAD: nat := 9216 - 24

  datatype Header = Header(signature: nat, groupId: nat, packetId: nat, totalPackets: nat, totalSize: nat)

  datatype Datagram = Datagram(header: Header, payload: Bytes)

  /** `(size + max_payload_size - 1) / max_payload_size` */
  function Total(size: nat): nat {
    (size + PAYLOAD - 1) / PAYLOAD
  }

  /** How much of the message the first `k` datagrams hold. */
  function Covered(data: Bytes, k: nat): (n: nat)
    ensures n <= |data|
  {
    if k * PAYLOAD <= |data| then k * PAYLOAD else |data|
  }

  lemma CoveredGrows(data: Bytes, k: nat)
    requires k < Total(|data|)
    ensures Covered(data, k) == k * PAYLOAD < Covered(data, k + 1) <= k * PAYLOAD + PAYLOAD
    ensures k + 1 == Total(|data|) ==> Covered(data, k + 1) == |data|
  {
  }

  /** The bytes of the `k`-th datagram. */
  function Slice(data: Bytes, k: nat): Bytes
    requires k < Total(|data|)
  {
    CoveredGrows(data, k);
    data[Covered(data, k)..Covered(data, k + 1)]
  }

  /** The `k`-th datagram, with the header fields cut to 32 bits. */
  function Packet(data: Bytes, groupId: nat, k: nat): Datagram
    requires k < Total(|data|)
  {
    Datagram(Header(SIGNATURE, groupId, k % UINT32, Total(|data|) % UINT32, |data|), Slice(data, k))
  }

  function Join(parts: seq<Bytes>): Bytes {
    if parts == [] then [] else Join(parts[..|parts| - 1]) + parts[|parts| - 1]
  }

  lemma LastJoined(parts: seq<Bytes>, last: Bytes)
    ensures Join(parts + [last]) == Join(parts) + last
  {
    assert (parts + [last])[..|parts|] == parts;
  }

  function Slices(data: Bytes, n: nat): (parts: seq<Bytes>)
    requires n <= Total(|data|)
    ensures |parts| == n
    ensures forall k :: 0 <= k < n ==> parts[k] == Slice(data, k)
  {
    if n == 0 then [] else Slices(data, n - 1) + [Slice(data, n - 1)]
  }

  /** No slice is empty or too long, ... */
  lemma SliceSize(data: Bytes, k: nat)
    requires k < Total(|data|)
    ensures 0 < |Slice(data, k)| <= PAYLOAD
  {
    CoveredGrows(data, k);
  }

  lemma {:induction false} JoinSlices(data: Bytes, n: nat)
    requires n <= Total(|data|)
    ensures Join(Slices(data, n)) == data[..Covered(data, n)]
  {
    hide Covered;
    if n > 0 {
      JoinSlices(data, n - 1);
      CoveredGrows(data, n - 1);
      assert Slices(data, n)[..n - 1] == Slices(data, n - 1);
    } else {
      assert Covered(data, 0) == 0 by { NothingCovered(data); }
    }
  }

  lemma NothingCovered(data: Bytes)
    ensures Covered(data, 0) == 0
  {
  }

  /** ... and together they are the message. */
  lemma SlicesMakeTheMessage(data: Bytes)
    ensures Join(Slices(data, Total(|data|))) == data
  {
    JoinSlices(data, Total(|data|));
    if data != [] {
      CoveredGrows(data, Total(|data|) - 1);
    }
  }
}

module UdpSending {
  import opened UdpPackets

  class UdpSender {
    var groupId: nat

    constructor ()
      ensures groupId == 0
    {
      groupId := 0;
    }

    /** The datagrams that `Send` hands to the socket, in order. */
    method Send(data: Bytes) returns (sent: seq<Datagram>)
      modifies this
      ensures groupId == (old(groupId) + 1) % UINT32
      ensures |sent| == Total(|data|)
      ensures forall k :: 0 <= k < |sent| ==> sent[k] == Packet(data, groupId, k)
      ensures groupId == (old(groupId) + 1) % 4294967296
      ensures |sent| == (|data| + 9191) / 9192
      ensures forall k :: 0 <= k < |sent| ==> IsDatagram(sent[k], data, groupId, k)
    {
      groupId := (groupId + 1) % UINT32;
      var totalPackets := (|data| + PAYLOAD - 1) / PAYLOAD;
      sent := [];
      var offset, packetId := 0, 0;
      while offset < |data|
        invariant packetId <= Total(|data|) && offset == packetId * PAYLOAD
        invariant offset < |data| <==> packetId < Total(|data|)
        invariant |sent| == packetId
        invariant forall k :: 0 <= k < packetId ==> sent[k] == Packet(data, groupId, k)
        decreases |data| - offset
      {
        var size := if |data| - offset <= PAYLOAD then |data| - offset else PAYLOAD;
        var header := Header(SIGNATURE, groupId, packetId % UINT32, totalPackets % UINT32, |data|);
        sent := sent + [Datagram(header, data[offset..offset + size])];
        offset, packetId := offset + PAYLOAD, packetId + 1;
      }
      forall k | 0 <= k < |sent| ensures IsDatagram(sent[k], data, groupId, k) {
        PacketIsDatagram(data, groupId, k);
      }
    }
  }

  /** In numbers: a datagram has 9216 bytes, 24 of them the header's, and only the last one may have fewer. */
  predicate IsDatagram(d: Datagram, data: Bytes, groupId: nat, k: nat) {
    var total := (|data| + 9191) / 9192;
    && d.header == Header(305419896, groupId, k % 4294967296, total % 4294967296, |data|)
    && 24 < 4 + 4 + 4 + 4 + 8 + |d.payload| <= 9216
    && (k + 1 < total ==> 4 + 4 + 4 + 4 + 8 + |d.payload| == 9216)
    && (k + 1 == total ==> 9192 * k + |d.payload| == |data|)
    && 9192 * k + |d.payload| <= |data|
    && d.payload == data[9192 * k..9192 * k + |d.payload|]
  }

  lemma PacketIsDatagram(data: Bytes, groupId: nat, k: nat)
    requires k < Total(|data|)
    ensures IsDatagram(Packet(data, groupId, k), data, groupId, k)
  {
    CoveredGrows(data, k);
  }
}

module UdpReceiving {
  import opened Wrappers
  import opened UdpPackets

  datatype GroupInfo = GroupInfo(totalPackets: nat, totalSize: nat, packets: map<nat, Bytes>)

  type Groups = map<nat, GroupInfo>

  function Info(groups: Groups, g: nat): GroupInfo {
    if g in groups then groups[g] else GroupInfo(0, 0, map[])
  }

  /** The group after a datagram for it has been stored. */
  function Stored(info: GroupInfo, d: Datagram): GroupInfo {
    var known :=
      if info.totalPackets == 0 then
        info.(totalPackets := d.header.totalPackets, totalSize := d.header.totalSize)
      else info;
    if d.payload != [] then known.(packets := known.packets[d.header.packetId := d.payload]) else known
  }

  /** `IsGroupComplete` for a group that exists: 1 complete, 0 not yet, -2 the right number of wrong ids. */
  function Status(info: GroupInfo): int {
    if |info.packets| != info.totalPackets then 0
    else if exists i :: 0 <= i < info.totalPackets && i !in info.packets then -2
    else 1
  }

  /** The payloads of the first `n` ids; a missing one counts as empty. */
  function Merged(info: GroupInfo, n: nat): Bytes {
    if n == 0 then []
    else Merged(info, n - 1) + (if n - 1 in info.packets then info.packets[n - 1] else [])
  }

  /** The packets after `operator[]` has looked up the first `n` ids: the missing ones are there now, and empty. */
  function Filled(info: GroupInfo, n: nat): (packets: map<nat, Bytes>)
    ensures forall i: nat :: i in packets <==> i in info.packets || i < n
    ensures forall i :: i in packets ==> packets[i] == if i in info.packets then info.packets[i] else []
  {
    if n == 0 then info.packets
    else
      var before := Filled(info, n - 1);
      if n - 1 in before then before else before[n - 1 := []]
  }

  /** `HandlePacket`: the groups afterwards, and the payload for the callback if there is one. */
  function Handle(groups: Groups, d: Datagram): (Groups, Option<Bytes>) {
    if d.header.signature != SIGNATURE then (groups, None)
    else
      var g := d.header.groupId;
      var info := Stored(Info(groups, g), d);
      if Status(info) > 0 then
        var merged := Merged(info, info.totalPackets);
        (groups - {g}, if merged != [] then Some(merged) else None)
      else (groups[g := info], None)
  }

  lemma WithoutGroup(groups: Groups, g: nat, before: GroupInfo, after: GroupInfo)
    ensures groups[g := before][g := after] - {g} == groups - {g}
  {
  }

  class UdpReceiver {
    var groups: Groups

    constructor ()
      ensures groups == map[]
    {
      groups := map[];
    }

    method IsGroupComplete(g: nat) returns (status: int)
      ensures status == if g in groups then Status(groups[g]) else -1
    {
      if g !in groups {
        return -1;
      }
      var info := groups[g];
      if |info.packets| != info.totalPackets {
        return 0;
      }
      for i := 0 to info.totalPackets
        invariant forall k :: 0 <= k < i ==> k in info.packets
      {
        if i !in info.packets {
          return -2;
        }
      }
      status := 1;
    }

    /** `MergeGroup`, which leaves an entry behind for every id it has looked up. */
    method MergeGroup(g: nat) returns (merged: Bytes)
      modifies this
      ensures merged == if g in old(groups) then Merged(old(groups)[g], old(groups)[g].totalPackets) else []
      ensures groups ==
        if g in old(groups) then
          old(groups)[g := old(groups)[g].(packets := Filled(old(groups)[g], old(groups)[g].totalPackets))]
        else old(groups)
    {
      merged := [];
      if g in groups {
        var info := groups[g];
        var packets := info.packets;
        for i := 0 to info.totalPackets
          invariant merged == Merged(info, i) && packets == Filled(info, i)
        {
          if i !in packets {
            packets := packets[i := []];
          }
          merged := merged + packets[i];
        }
        groups := groups[g := info.(packets := packets)];
      }
    }

    method HandlePacket(d: Datagram) returns (delivered: Option<Bytes>)
      modifies this
      ensures (groups, delivered) == Handle(old(groups), d)
    {
      delivered := None;
      if d.header.signature != SIGNATURE {
        return;
      }
      var g := d.header.groupId;
      var info := Info(groups, g);
      if info.totalPackets == 0 {
        info := info.(totalPackets := d.header.totalPackets, totalSize := d.header.totalSize);
      }
      if |d.payload| > 0 {
        info := info.(packets := info.packets[d.header.packetId := d.payload]);
      }
      groups := groups[g := info];
      assert info == Stored(Info(old(groups), g), d);
      hide Stored, Merged, Filled, Status;
      var status := IsGroupComplete(g);
      if status > 0 {
        var merged := MergeGroup(g);
        if merged != [] {
          delivered := Some(merged);
        }
        WithoutGroup(old(groups), g, info, groups[g]);
        groups := groups - {g};
      }
    }
  }
}

/** Messages of several senders on their way through a network that loses, duplicates and reorders. */
module UdpRuns {
  import opened Wrappers
  import opened UdpPackets
  import opened UdpReceiving

  /** `Send` puts all datagrams of a message on their way; each of them then arrives any number of times, at any
      moments. `Noise` is a datagram of somebody else. */
  datatype Event = Send(g: nat, data: Bytes) | Arrive(g: nat, k: nat) | Noise(d: Datagram)

  datatype Net = Net(messages: map<nat, Bytes>, groups: Groups, arrived: set<(nat, nat)>, delivered: seq<(nat, Bytes)>)

  const START := Net(map[], map[], {}, [])

  /** Group ids are not used twice, and a message has fewer than 2^32 datagrams. */
  predicate Enabled(net: Net, e: Event) {
    match e
    case Send(g, data) => g !in net.messages && Total(|data|) < UINT32
    case Arrive(g, k) => g in net.messages && k < Total(|net.messages[g]|)
    case Noise(d) => d.header.signature != SIGNATURE
  }

  /** The receiver takes a datagram in. */
  function Received(net: Net, d: Datagram): Net {
    var (groups, payload) := Handle(net.groups, d);
    net.(groups := groups,
         delivered := if payload.Some? then net.delivered + [(d.header.groupId, payload.value)] else net.delivered)
  }

  function Next(net: Net, e: Event): Net
    requires Enabled(net, e)
  {
    match e
    case Send(g, data) => net.(messages := net.messages[g := data])
    case Arrive(g, k) => Received(net, Packet(net.messages[g], g, k)).(arrived := net.arrived + {(g, k)})
    case Noise(d) => Received(net, d)
  }

  predicate Reaches(first: Net, events: seq<Event>, last: Net)
    decreases |events|
  {
    if events == [] then first == last
    else Enabled(first, events[0]) && Reaches(Next(first, events[0]), events[1..], last)
  }

  // ---------- one group ----------

  function Ids(n: nat): (ids: set<nat>)
    ensures |ids| == n && forall k: nat :: k in ids <==> k < n
  {
    if n == 0 then {} else Ids(n - 1) + {n - 1}
  }

  lemma SubsetSize(a: set<nat>, b: set<nat>)
    requires a <= b
    ensures |a| <= |b| && (|a| == |b| ==> a == b)
  {
    assert b == a + (b - a);
    assert |b| == |a| + |b - a|;
  }

  /** Some slices of `data`, each under its own id. */
  predicate HoldsSlices(info: GroupInfo, data: Bytes) {
    && info.totalPackets == Total(|data|)
    && forall k :: k in info.packets ==> k < Total(|data|) && info.packets[k] == Slice(data, k)
  }

  /** Counting the ids is enough: as many as there are slices are all of them, so `IsGroupComplete` never finds the
      right number of wrong ids. */
  lemma StatusCounts(info: GroupInfo, data: Bytes)
    requires HoldsSlices(info, data)
    ensures Status(info) == if info.packets.Keys == Ids(Total(|data|)) then 1 else 0
    ensures Status(info) == 0 ==> |info.packets| < Total(|data|)
  {
    var keys, all := info.packets.Keys, Ids(Total(|data|));
    SubsetSize(keys, all);
    if keys == all {
      assert forall i :: 0 <= i < info.totalPackets ==> i in all;
    }
  }

  /** The status in terms of the ids that are there: 1 for exactly those below the announced number, -2 for as many
      others, and 0 in every other case. */
  lemma StatusMeans(info: GroupInfo)
    ensures Status(info) == 1 <==> info.packets.Keys == Ids(info.totalPackets)
    ensures Status(info) == -2 <==>
      |info.packets.Keys| == info.totalPackets && info.packets.Keys != Ids(info.totalPackets)
    ensures Status(info) == 0 <==> |info.packets.Keys| != info.totalPackets
  {
    var keys, all := info.packets.Keys, Ids(info.totalPackets);
    assert |info.packets| == |keys|;
    if forall i :: 0 <= i < info.totalPackets ==> i in info.packets {
      assert all <= keys;
      SubsetSize(all, keys);
    } else {
      var i :| 0 <= i < info.totalPackets && i !in info.packets;
      assert i in all;
    }
  }

  /** The ids of a group with those of a datagram, which counts only if it carries something. */
  function IdsWith(info: GroupInfo, d: Datagram): set<nat> {
    info.packets.Keys + (if d.payload != [] then {d.header.packetId} else {})
  }

  /** The first announcement of a number of datagrams holds. */
  function TotalWith(info: GroupInfo, d: Datagram): nat {
    if info.totalPackets != 0 then info.totalPackets else d.header.totalPackets
  }

  /** The datagram joins the group, in place of one of the same id, and everything else stays. */
  ghost predicate TakesIn(before: GroupInfo, d: Datagram, after: GroupInfo) {
    && after.totalPackets == TotalWith(before, d) && after.packets.Keys == IdsWith(before, d)
    && (d.payload != [] ==> after.packets[d.header.packetId] == d.payload)
    && forall i :: i in before.packets && (i != d.header.packetId || d.payload == []) ==>
         after.packets[i] == before.packets[i]
  }

  lemma StoredTakesIn(info: GroupInfo, d: Datagram)
    ensures TakesIn(info, d, Stored(info, d))
  {
  }

  lemma TakenTotal(before: GroupInfo, d: Datagram, after: GroupInfo)
    requires TakesIn(before, d, after)
    ensures after.totalPackets == TotalWith(before, d) && after.packets.Keys == IdsWith(before, d)
  {
  }

  /** What the receiver does with any datagram: without the signature nothing; else it joins its group, no other group
      is touched, and the group is forgotten exactly when it has all ids below the announced number. */
  lemma HandleMeans(groups: Groups, d: Datagram)
    ensures
      var (after, out) := Handle(groups, d);
      var g, info := d.header.groupId, Info(groups, d.header.groupId);
      if d.header.signature != 305419896 then after == groups && out == None
      else
        && after - {g} == groups - {g}
        && (g in after <==> IdsWith(info, d) != Ids(TotalWith(info, d)))
        && (g in after ==> out == None && TakesIn(info, d, after[g]))
        && (out.Some? ==> out.value != [])
  {
    var info, after := Info(groups, d.header.groupId), Stored(Info(groups, d.header.groupId), d);
    StoredTakesIn(info, d);
    TakenTotal(info, d, after);
    StatusMeans(after);
    OtherGroups(groups, d.header.groupId, after);
    HandleCases(groups, d, after);
    hide Handle, Merged, Status, Stored, TakesIn, Ids, IdsWith, TotalWith, Info;
  }

  lemma OtherGroups(groups: Groups, g: nat, info: GroupInfo)
    ensures groups - {g} - {g} == groups - {g} && groups[g := info] - {g} == groups - {g}
    ensures g !in groups - {g}
  {
  }

  lemma HandleCases(groups: Groups, d: Datagram, info: GroupInfo)
    requires info == Stored(Info(groups, d.header.groupId), d)
    ensures
      var (after, out) := Handle(groups, d);
      var g := d.header.groupId;
      if d.header.signature != 305419896 then after == groups && out == None
      else if Status(info) == 1 then after == groups - {g} && (out.Some? ==> out.value != [])
      else after == groups[g := info] && out == None
  {
    hide Merged, Stored, Info;
  }

  lemma {:induction false} MergedIsJoined(info: GroupInfo, data: Bytes, n: nat)
    requires HoldsSlices(info, data) && n <= Total(|data|) && forall i :: 0 <= i < n ==> i in info.packets
    ensures Merged(info, n) == Join(Slices(data, n))
  {
    if n > 0 {
      var before := Slices(data, n - 1);
      assert info.packets[n - 1] == Slice(data, n - 1);
      assert Merged(info, n) == Merged(info, n - 1) + info.packets[n - 1];
      assert Slices(data, n) == before + [Slice(data, n - 1)];
      LastJoined(before, Slice(data, n - 1));
      MergedIsJoined(info, data, n - 1);
      hide Slices, Slice, Total, Merged, Join, HoldsSlices;
    }
  }

  /** A datagram of a message joins the group of its own, new or not. */
  lemma PacketIsStored(info: GroupInfo, data: Bytes, g: nat, k: nat)
    requires k < Total(|data|) < UINT32
    requires info == GroupInfo(0, 0, map[]) || HoldsSlices(info, data)
    ensures
      var after := Stored(info, Packet(data, g, k));
      HoldsSlices(after, data) && after.packets.Keys == info.packets.Keys + {k}
  {
    SliceSize(data, k);
    assert k % UINT32 == k && Total(|data|) % UINT32 == Total(|data|);
  }

  /** What the receiver does with it: the group completes exactly when its last missing id arrives. */
  lemma PacketIsHandled(groups: Groups, data: Bytes, g: nat, k: nat)
    requires k < Total(|data|) < UINT32
    requires g in groups ==> HoldsSlices(groups[g], data)
    ensures
      var before := Info(groups, g).packets.Keys;
      var after := Stored(Info(groups, g), Packet(data, g, k));
      && HoldsSlices(after, data) && after.packets.Keys == before + {k}
      && (before + {k} == Ids(Total(|data|)) ==> Handle(groups, Packet(data, g, k)) == (groups - {g}, Some(data)))
      && (before + {k} != Ids(Total(|data|)) ==> Handle(groups, Packet(data, g, k)) == (groups[g := after], None))
  {
    var info := Info(groups, g);
    var after := Stored(info, Packet(data, g, k));
    PacketIsStored(info, data, g, k);
    StatusCounts(after, data);
    if Status(after) == 1 {
      MergedIsJoined(after, data, Total(|data|));
      SlicesMakeTheMessage(data);
    }
  }

  /** The two ways in which the arrival of a datagram can change things. */
  ghost predicate Completes(net: Net, after: Net, g: nat)
    requires g in net.messages
  {
    after.groups == net.groups - {g} && after.delivered == net.delivered + [(g, net.messages[g])]
  }

  ghost predicate Stores(net: Net, after: Net, g: nat, k: nat)
    requires g in net.messages
  {
    && after.delivered == net.delivered
    && g in after.groups && after.groups == net.groups[g := after.groups[g]]
    && HoldsSlices(after.groups[g], net.messages[g])
    && after.groups[g].packets.Keys == Info(net.groups, g).packets.Keys + {k}
  }

  lemma ArrivalEffect(net: Net, g: nat, k: nat)
    requires Faithful(net) && Enabled(net, Arrive(g, k))
    ensures
      var after := Next(net, Arrive(g, k));
      && after.messages == net.messages && after.arrived == net.arrived + {(g, k)}
      && (if Info(net.groups, g).packets.Keys + {k} == Ids(Total(|net.messages[g]|)) then Completes(net, after, g)
          else Stores(net, after, g, k))
  {
    hide Handle, Stored, HoldsSlices, Slice, Total, Info;
    var data := net.messages[g];
    assert g in net.groups ==> HoldsSlices(net.groups[g], data);
    PacketIsHandled(net.groups, data, g, k);
    hide Faithful;
  }

  // ---------- every run ----------

  /** An unfinished group of the message `data`. */
  ghost predicate Unfinished(info: GroupInfo, data: Bytes) {
    HoldsSlices(info, data) && info.packets.Keys != Ids(Total(|data|))
  }

  ghost predicate GroupsAreFaithful(messages: map<nat, Bytes>, groups: Groups) {
    forall g :: g in groups ==> g in messages && Unfinished(groups[g], messages[g])
  }

  ghost predicate DeliveriesAreFaithful(messages: map<nat, Bytes>, delivered: seq<(nat, Bytes)>) {
    forall i :: 0 <= i < |delivered| ==> delivered[i].0 in messages && delivered[i].1 == messages[delivered[i].0]
  }

  ghost predicate Faithful(net: Net) {
    && (forall g :: g in net.messages ==> Total(|net.messages[g]|) < UINT32)
    && GroupsAreFaithful(net.messages, net.groups)
    && DeliveriesAreFaithful(net.messages, net.delivered)
  }

  lemma ArrivalIsFaithful(net: Net, g: nat, k: nat)
    requires Faithful(net) && Enabled(net, Arrive(g, k))
    ensures Faithful(Next(net, Arrive(g, k)))
  {
    var after := Next(net, Arrive(g, k));
    ArrivalEffect(net, g, k);
    hide Next, Unfinished, HoldsSlices, Total, GroupsAreFaithful, DeliveriesAreFaithful;
    if Completes(net, after, g) {
      GroupsStayFaithful(net.messages, net.groups, g);
      DeliveriesStayFaithful(net.messages, net.delivered, g);
    } else {
      StoredIsUnfinished(net, after, g, k);
      GroupIsFaithful(net.messages, net.groups, g, after.groups[g]);
    }
  }

  lemma GroupsStayFaithful(messages: map<nat, Bytes>, groups: Groups, g: nat)
    requires GroupsAreFaithful(messages, groups)
    ensures GroupsAreFaithful(messages, groups - {g})
  {
    hide Unfinished;
  }

  lemma GroupIsFaithful(messages: map<nat, Bytes>, groups: Groups, g: nat, info: GroupInfo)
    requires GroupsAreFaithful(messages, groups) && g in messages && Unfinished(info, messages[g])
    ensures GroupsAreFaithful(messages, groups[g := info])
  {
    hide Unfinished;
  }

  lemma DeliveriesStayFaithful(messages: map<nat, Bytes>, delivered: seq<(nat, Bytes)>, g: nat)
    requires DeliveriesAreFaithful(messages, delivered) && g in messages
    ensures DeliveriesAreFaithful(messages, delivered + [(g, messages[g])])
  {
  }

  lemma StoredIsUnfinished(net: Net, after: Net, g: nat, k: nat)
    requires g in net.messages && Stores(net, after, g, k)
    requires Info(net.groups, g).packets.Keys + {k} != Ids(Total(|net.messages[g]|))
    ensures Unfinished(after.groups[g], net.messages[g])
  {
  }

  lemma StepIsFaithful(net: Net, e: Event)
    requires Faithful(net) && Enabled(net, e)
    ensures Faithful(Next(net, e))
  {
    hide Unfinished, HoldsSlices;
    if e.Arrive? {
      ArrivalIsFaithful(net, e.g, e.k);
    }
  }

  lemma {:induction false} RunIsFaithful(first: Net, events: seq<Event>, last: Net)
    requires Faithful(first) && Reaches(first, events, last)
    ensures Faithful(last)
    decreases |events|
  {
    if events != [] {
      StepIsFaithful(first, events[0]);
      RunIsFaithful(Next(first, events[0]), events[1..], last);
    }
  }

  /** However the datagrams are lost, repeated and mixed up, whatever reaches the callback is one message as sent. */
  lemma DeliveredWasSent(events: seq<Event>, net: Net, i: nat)
    requires Reaches(START, events, net) && i < |net.delivered|
    ensures net.delivered[i].0 in net.messages && net.delivered[i].1 == net.messages[net.delivered[i].0]
  {
    RunIsFaithful(START, events, net);
  }

  // ---------- runs without duplication ----------

  /** As `Reaches`, when no datagram arrives twice. */
  predicate ReachesOnce(first: Net, events: seq<Event>, last: Net)
    decreases |events|
  {
    if events == [] then first == last
    else
      && Enabled(first, events[0])
      && (events[0].Arrive? ==> (events[0].g, events[0].k) !in first.arrived)
      && ReachesOnce(Next(first, events[0]), events[1..], last)
  }

  predicate IsDelivered(net: Net, g: nat) {
    exists i :: 0 <= i < |net.delivered| && net.delivered[i].0 == g
  }

  /** The datagrams of `g` that have arrived. */
  function Arrived(net: Net, g: nat): set<nat>
    requires g in net.messages
  {
    set k | k in Ids(Total(|net.messages[g]|)) && (g, k) in net.arrived
  }

  /** Delivered, all of `g` has arrived and nothing is kept; before that, what has arrived is what is kept. */
  ghost predicate AccountedFor(net: Net, g: nat)
    requires g in net.messages
  {
    if IsDelivered(net, g) then g !in net.groups && Arrived(net, g) == Ids(Total(|net.messages[g]|))
    else Arrived(net, g) == Info(net.groups, g).packets.Keys
  }

  ghost predicate Distinct(net: Net) {
    forall i, j :: 0 <= i < j < |net.delivered| ==> net.delivered[i].0 != net.delivered[j].0
  }

  ghost predicate AllAccountedFor(net: Net) {
    forall g :: g in net.messages ==> AccountedFor(net, g)
  }

  ghost predicate ArrivedWasSent(net: Net) {
    forall p :: p in net.arrived ==> p.0 in net.messages
  }

  ghost predicate Accounted(net: Net) {
    Faithful(net) && ArrivedWasSent(net) && AllAccountedFor(net) && Distinct(net)
  }

  lemma SendIsAccounted(net: Net, g: nat, data: Bytes)
    requires Accounted(net) && Enabled(net, Send(g, data))
    ensures Accounted(Next(net, Send(g, data)))
  {
    StepIsFaithful(net, Send(g, data));
    var after := Next(net, Send(g, data));
    assert Arrived(after, g) == {};
    forall h | h in net.messages ensures AccountedFor(after, h) {
      assert AccountedFor(net, h) && Arrived(after, h) == Arrived(net, h);
    }
  }

  lemma ArrivalIsAccounted(net: Net, g: nat, k: nat)
    requires Accounted(net) && Enabled(net, Arrive(g, k)) && (g, k) !in net.arrived
    ensures Accounted(Next(net, Arrive(g, k)))
  {
    var e := Arrive(g, k);
    StepIsFaithful(net, e);
    var after := Next(net, e);
    NotDelivered(net, g, k);
    ArrivalEffect(net, g, k);
    hide Faithful, Next, AccountedFor, AllAccountedFor, ArrivedWasSent, Completes, Stores, Distinct, IsDelivered,
      Arrived, Ids, Info, Total;
    ArrivalIsKnown(net, after, g, k);
    ArrivalIsDistinct(net, after, g, k);
    ArrivalIsAccountedFor(net, after, g, k);
  }

  lemma ArrivalIsKnown(net: Net, after: Net, g: nat, k: nat)
    requires ArrivedWasSent(net) && g in net.messages
    requires after.messages == net.messages && after.arrived == net.arrived + {(g, k)}
    ensures ArrivedWasSent(after)
  {
  }

  lemma NotDelivered(net: Net, g: nat, k: nat)
    requires Accounted(net) && Enabled(net, Arrive(g, k)) && (g, k) !in net.arrived
    ensures !IsDelivered(net, g)
  {
    assert AccountedFor(net, g);
    assert k in Ids(Total(|net.messages[g]|)) && k !in Arrived(net, g);
  }

  lemma ArrivalOwn(net: Net, after: Net, g: nat, k: nat)
    requires g in net.messages && k < Total(|net.messages[g]|) && !IsDelivered(net, g) && AccountedFor(net, g)
    requires after.messages == net.messages && after.arrived == net.arrived + {(g, k)}
    requires if Info(net.groups, g).packets.Keys + {k} == Ids(Total(|net.messages[g]|)) then Completes(net, after, g)
             else Stores(net, after, g, k)
    ensures AccountedFor(after, g)
  {
    hide HoldsSlices;
    assert k in Ids(Total(|net.messages[g]|));
    assert Arrived(after, g) == Arrived(net, g) + {k};
    if Completes(net, after, g) {
      assert after.delivered[|net.delivered|].0 == g;
    }
  }

  lemma ArrivalIsDistinct(net: Net, after: Net, g: nat, k: nat)
    requires g in net.messages && !IsDelivered(net, g) && Distinct(net)
    requires Completes(net, after, g) || Stores(net, after, g, k)
    ensures Distinct(after)
  {
  }

  lemma ArrivalIsAccountedFor(net: Net, after: Net, g: nat, k: nat)
    requires g in net.messages && k < Total(|net.messages[g]|) && !IsDelivered(net, g) && AllAccountedFor(net)
    requires after.messages == net.messages && after.arrived == net.arrived + {(g, k)}
    requires if Info(net.groups, g).packets.Keys + {k} == Ids(Total(|net.messages[g]|)) then Completes(net, after, g)
             else Stores(net, after, g, k)
    ensures AllAccountedFor(after)
  {
    hide AccountedFor, Completes, Stores, IsDelivered, Info, Ids, Total;
    forall h | h in after.messages ensures AccountedFor(after, h) {
      if h == g {
        ArrivalOwn(net, after, g, k);
      } else {
        ArrivalFor(net, after, g, k, h);
      }
    }
  }

  lemma ArrivalFor(net: Net, after: Net, g: nat, k: nat, h: nat)
    requires g in net.messages && h in net.messages && h != g && AccountedFor(net, h)
    requires after.messages == net.messages && after.arrived == net.arrived + {(g, k)}
    requires Completes(net, after, g) || Stores(net, after, g, k)
    ensures AccountedFor(after, h)
  {
    hide HoldsSlices;
    assert Arrived(after, h) == Arrived(net, h);
    if IsDelivered(net, h) {
      var i :| 0 <= i < |net.delivered| && net.delivered[i].0 == h;
      assert after.delivered[i].0 == h;
    }
  }

  lemma {:induction false} RunIsAccounted(first: Net, events: seq<Event>, last: Net)
    requires Accounted(first) && ReachesOnce(first, events, last)
    ensures Accounted(last)
    decreases |events|
  {
    if events != [] {
      match events[0] {
        case Send(g, data) => SendIsAccounted(first, g, data);
        case Arrive(g, k) => ArrivalIsAccounted(first, g, k);
        case Noise(d) => assert Next(first, events[0]) == first;
      }
      RunIsAccounted(Next(first, events[0]), events[1..], last);
    }
  }

  /** When no datagram arrives twice, a message is delivered if and only if all its datagrams have arrived, and
      then just once. */
  lemma DeliveredOnce(events: seq<Event>, net: Net, g: nat)
    requires ReachesOnce(START, events, net) && g in net.messages && net.messages[g] != []
    ensures IsDelivered(net, g) <==> forall k :: 0 <= k < Total(|net.messages[g]|) ==> (g, k) in net.arrived
    ensures forall i, j :: 0 <= i < j < |net.delivered| ==> net.delivered[i].0 != net.delivered[j].0
  {
    RunIsAccounted(START, events, net);
    var n := Total(|net.messages[g]|);
    assert 0 in Ids(n) && AccountedFor(net, g);
    if forall k :: 0 <= k < n ==> (g, k) in net.arrived {
      assert Arrived(net, g) == Ids(n);
    }
    if IsDelivered(net, g) {
      forall k | 0 <= k < n ensures (g, k) in net.arrived {
        assert k in Arrived(net, g);
      }
    }
  }

  // ---------- runs with duplication ----------

  /** How often the datagram `k` of `g` arrives. */
  function Arrivals(events: seq<Event>, g: nat, k: nat): nat {
    if events == [] then 0
    else (if events[0] == Arrive(g, k) then 1 else 0) + Arrivals(events[1..], g, k)
  }

  function Deliveries(delivered: seq<(nat, Bytes)>, g: nat): nat {
    if delivered == [] then 0
    else
      var last := |delivered| - 1;
      Deliveries(delivered[..last], g) + (if delivered[last].0 == g then 1 else 0)
  }

  /** What the arrivals of the datagram `k` of `g` have been good for: deliveries, and its slice that is kept. */
  function Uses(net: Net, g: nat, k: nat): nat {
    Deliveries(net.delivered, g) + (if k in Info(net.groups, g).packets then 1 else 0)
  }

  lemma DeliveredOnceMore(delivered: seq<(nat, Bytes)>, h: nat, data: Bytes, g: nat)
    ensures Deliveries(delivered + [(h, data)], g) == Deliveries(delivered, g) + (if h == g then 1 else 0)
  {
    assert (delivered + [(h, data)])[..|delivered|] == delivered;
  }

  /** Every arrival is used at most once. */
  lemma StepUsesArrival(net: Net, e: Event, g: nat, k: nat)
    requires Faithful(net) && Enabled(net, e)
    requires g in net.messages ==> k < Total(|net.messages[g]|)
    ensures Uses(Next(net, e), g, k) <= Uses(net, g, k) + (if e == Arrive(g, k) then 1 else 0)
  {
    if e.Arrive? {
      var after, data := Next(net, e), net.messages[e.g];
      ArrivalEffect(net, e.g, e.k);
      hide Faithful, Next, HoldsSlices, Total, Uses;
      if Info(net.groups, e.g).packets.Keys + {e.k} == Ids(Total(|data|)) {
        assert e.g == g ==> k in Info(net.groups, e.g).packets.Keys + {e.k};
        hide Info, Ids, Stores;
        CompletingUses(net, after, e.g, e.k, g, k);
      } else {
        hide Ids, Completes;
        StoringUses(net, after, e.g, e.k, g, k);
      }
    }
  }

  /** A delivery uses an arrival of each datagram: the last one of its own, and the others from what is kept. */
  lemma CompletingUses(net: Net, after: Net, h: nat, j: nat, g: nat, k: nat)
    requires h in net.messages && Completes(net, after, h)
    requires h == g && j != k ==> k in Info(net.groups, h).packets
    ensures Uses(after, g, k) <= Uses(net, g, k) + (if h == g && j == k then 1 else 0)
  {
    DeliveredOnceMore(net.delivered, h, net.messages[h], g);
  }

  lemma StoringUses(net: Net, after: Net, h: nat, j: nat, g: nat, k: nat)
    requires h in net.messages && Stores(net, after, h, j)
    ensures Uses(after, g, k) <= Uses(net, g, k) + (if h == g && j == k then 1 else 0)
  {
    hide HoldsSlices, Deliveries;
    if h == g {
      assert k in after.groups[g].packets.Keys ==> k in Info(net.groups, g).packets.Keys + {j};
    }
  }

  /** A message never changes. */
  lemma {:induction false} MessagesStay(first: Net, events: seq<Event>, last: Net, g: nat)
    requires Reaches(first, events, last) && g in first.messages
    ensures g in last.messages && last.messages[g] == first.messages[g]
    decreases |events|
  {
    hide Handle;
    if events != [] {
      MessagesStay(Next(first, events[0]), events[1..], last, g);
    }
  }

  lemma {:induction false} RunUsesArrivals(first: Net, events: seq<Event>, last: Net, g: nat, k: nat)
    requires Faithful(first) && Reaches(first, events, last)
    requires g in last.messages && k < Total(|last.messages[g]|)
    ensures Uses(last, g, k) <= Uses(first, g, k) + Arrivals(events, g, k)
    decreases |events|
  {
    if events != [] {
      var next := Next(first, events[0]);
      if g in first.messages {
        MessagesStay(first, events, last, g);
      }
      StepIsFaithful(first, events[0]);
      StepUsesArrival(first, events[0], g, k);
      hide Faithful, Next, Enabled, Uses, Total;
      RunUsesArrivals(next, events[1..], last, g, k);
    }
  }

  /** However often datagrams are repeated, a message is delivered at most as often as each of its datagrams arrives. */
  lemma DeliveredAtMostArrived(events: seq<Event>, net: Net, g: nat, k: nat)
    requires Reaches(START, events, net) && g in net.messages && k < Total(|net.messages[g]|)
    ensures Deliveries(net.delivered, g) <= Arrivals(events, g, k)
  {
    RunUsesArrivals(START, events, net, g, k);
  }

  // ---------- messages that are too long ----------

  lemma {:induction false} MergedIsShort(info: GroupInfo, n: nat)
    requires forall k :: k in info.packets ==> |info.packets[k]| <= PAYLOAD
    ensures |Merged(info, n)| <= n * PAYLOAD
  {
    if n > 0 {
      MergedIsShort(info, n - 1);
    }
  }

  /** The limit on the number of datagrams is needed: past it the header announces too few of them, and no group
      with that announcement is ever merged into the message. */
  lemma OversizedIsNeverWhole(info: GroupInfo, data: Bytes)
    requires Total(|data|) >= UINT32 && info.totalPackets == Total(|data|) % UINT32
    requires forall k :: k in info.packets ==> |info.packets[k]| <= PAYLOAD
    ensures Merged(info, info.totalPackets) != data
  {
    MergedIsShort(info, info.totalPackets);
  }
}
