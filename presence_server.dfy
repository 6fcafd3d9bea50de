/**
 * The presence hub (apps/presence/src/main.ts): a registry of connected
 * clients by id, a directory of rooms (room name to the set of its members),
 * and the handlers the WebSocket transport calls on upgrade, open, close and
 * message.
 *
 * The transport is modelled by two fields: the subscription relation
 * (which socket listens to which topic) and an append-only outbox of the
 * messages the handlers emit, each a unicast `Send`, a room-wide `Publish`
 * or a `Close` of a socket. A socket is identified by its `ClientData`.
 */
module PresenceHub {
  import opened Wrappers
  import opened ByteSeq
  import opened Borsh
  import opened ServerCodec
  import ClientCodec
  import opened PresenceClient
  import opened InsertionSet

  /** ROOM_NAME_TOPIC: the publish topic of a room. */
  function RoomTopic(roomName: string): (t: string)
    ensures |t| == |roomName| + 5 && t[..5] == "room:" && t[5..] == roomName
  {
    "room:" + roomName
  }

  /** Different rooms publish on different topics. */
  lemma RoomTopicInjective(a: string, b: string)
    ensures RoomTopic(a) == RoomTopic(b) <==> a == b
  {
    if RoomTopic(a) == RoomTopic(b) {
      assert a == RoomTopic(a)[5..];
    }
  }

  datatype Event =
    | Send(to: ClientData, update: ServerUpdate)
    | Publish(topic: string, update: ServerUpdate)
    | Close(socket: ClientData)

  // ----- the messages the hub sends -----

  /** The reply to a new connection: its id and the registry size. */
  function Welcome(id: nat, clientCount: nat): ServerUpdate {
    ServerUpdate(Some(id), None, Some(clientCount), None, None)
  }

  /** An id and a registry size below 65536 can be serialized. */
  lemma WelcomeSerializes(id: nat, clientCount: nat)
    requires id < ID_LIMIT && clientCount <= ID_LIMIT
    ensures SerializeServerUpdate(Welcome(id, clientCount)).Ok?
  {
  }

  /** One member's current pointer state. */
  function Entry(c: ClientData): ClientEntry
    reads c`pointerXPercent, c`pointerYPercent
  {
    ClientEntry(c.id, c.pointerXPercent, c.pointerYPercent)
  }

  /** The members' pointer states, in set order. */
  function Snapshot(members: seq<ClientData>): (r: seq<ClientEntry>)
    reads members`pointerXPercent, members`pointerYPercent
    ensures |r| == |members| && forall i :: 0 <= i < |members| ==> r[i] == Entry(members[i])
  {
    if members == [] then [] else [Entry(members[0])] + Snapshot(members[1..])
  }

  /** The members' ids, in set order. */
  function Ids(members: seq<ClientData>): (r: seq<nat>)
    ensures |r| == |members| && forall i :: 0 <= i < |members| ==> r[i] == members[i].id
  {
    if members == [] then [] else [members[0].id] + Ids(members[1..])
  }

  /** The reply to a joiner: the room, its size and every member's pointer state. */
  function JoinReply(roomName: string, entries: seq<ClientEntry>): ServerUpdate {
    ServerUpdate(None, Some(roomName), Some(|entries|), Some(entries), None)
  }

  /** The reply to a leaver: every id it must forget, and no room. */
  function LeaveReply(removedClientIds: seq<nat>): ServerUpdate {
    ServerUpdate(None, None, Some(0), None, Some(removedClientIds))
  }

  /** The notice to a room that one member left, with the remaining size. */
  function LeftNotice(id: nat, remaining: nat): ServerUpdate {
    ServerUpdate(None, None, Some(remaining), None, Some([id]))
  }

  /** The notice to a room that one member's pointer moved. */
  function PointerNotice(entry: ClientEntry): ServerUpdate {
    ServerUpdate(None, None, None, Some([entry]), None)
  }

  // ----- the room directory as a value -----

  type Directory = map<string, seq<ClientData>>

  /** The members of room `r`; none when it does not exist. */
  function Members(d: Directory, r: string): seq<ClientData> {
    if r in d then d[r] else []
  }

  /** The directory after `c` leaves room `r`: the room loses `c`, and goes when it becomes empty. */
  function Leave(d: Directory, r: string, c: ClientData): Directory {
    if r !in d then d
    else
      var rest := Remove(d[r], c);
      if |rest| == 0 then d - {r} else d[r := rest]
  }

  /** The directory after `c` joins room `r`, which is created when absent. */
  function Join(d: Directory, r: string, c: ClientData): Directory {
    d[r := Add(Members(d, r), c)]
  }

  /**
   * What removeClientFromRoom emits for `c` leaving room `r` of directory `d`: unless the
   * socket is closing, the leaver is sent every member id; then the room is told who left
   * and how many remain.
   */
  function LeaveEvents(c: ClientData, d: Directory, r: string, isClosing: bool): seq<Event> {
    (if isClosing then [] else [Send(c, LeaveReply(Ids(Members(d, r))))])
      + [Publish(RoomTopic(r), LeftNotice(c.id, |Remove(Members(d, r), c)|))]
  }

  /** The directory after `c` leaves the room it names, if any. */
  function LeaveFrom(d: Directory, room: Option<string>, c: ClientData): Directory {
    if room.Some? then Leave(d, room.value, c) else d
  }

  /** What leaving the room `c` names emits; nothing when it names none. */
  function LeaveEventsFrom(c: ClientData, d: Directory, room: Option<string>, isClosing: bool): seq<Event> {
    if room.Some? then LeaveEvents(c, d, room.value, isClosing) else []
  }

  /** The subscriptions after `c` leaves the room it names: a closing socket keeps them until the transport drops it. */
  function Unsubscribe(subs: set<(ClientData, string)>, c: ClientData, room: Option<string>, isClosing: bool): set<(ClientData, string)> {
    if room.Some? && !isClosing then subs - {(c, RoomTopic(room.value))} else subs
  }

  /** The subscriptions once the transport has dropped socket `c`. */
  function Drop(subs: set<(ClientData, string)>, c: ClientData): set<(ClientData, string)> {
    set p | p in subs && p.0 != c
  }

  /** The members of room `to` once `c` has left the room `from` it names, if any, and joined `to`. */
  function JoinedMembers(d: Directory, from: Option<string>, to: string, c: ClientData): seq<ClientData> {
    Join(LeaveFrom(d, from, c), to, c)[to]
  }

  /** handleMessage switches rooms only for a room name that is present and not the current one. */
  predicate Switches(u: ClientCodec.ClientUpdate, current: Option<string>) {
    u.roomName.Some? && u.roomName != current
  }

  /** The pointer notice handleMessage publishes: only for an update with a pointer field, and a client in a room. */
  function PointerEvents(u: ClientCodec.ClientUpdate, c: ClientData): seq<Event>
    reads c`roomName, c`pointerXPercent, c`pointerYPercent
  {
    if (u.pointerXPercent.Some? || u.pointerYPercent.Some?) && c.roomName.Some? then
      [Publish(RoomTopic(c.roomName.value), PointerNotice(Entry(c)))]
    else []
  }

  /** Every room is a non-empty set. */
  ghost predicate WellFormed(d: Directory) {
    forall r :: r in d ==> |d[r]| > 0 && NoDup(d[r])
  }

  /** Joining a room and leaving it again restores the directory. */
  lemma JoinThenLeave(d: Directory, r: string, c: ClientData)
    requires WellFormed(d) && c !in Members(d, r)
    ensures Leave(Join(d, r, c), r, c) == d
  {
    var before := Members(d, r);
    var joined := Join(d, r, c);
    assert joined == d[r := Add(before, c)];
    RemoveAdd(before, c);
    assert Remove(joined[r], c) == before;
    if r in d {
      assert Leave(joined, r, c) == joined[r := before];
      assert joined[r := before] == d;
    } else {
      assert Leave(joined, r, c) == joined - {r};
      assert joined - {r} == d;
    }
  }

  /**
   * Leaving keeps the directory well formed, takes `c` out of room `r` (which goes exactly
   * when `c` was its last member) and keeps every other membership.
   */
  lemma LeaveFacts(d: Directory, r: string, c: ClientData)
    requires WellFormed(d) && c in Members(d, r)
    ensures var e := Leave(d, r, c);
      && WellFormed(e)
      && (r !in e <==> |d[r]| == 1)
      && |Members(e, r)| == |d[r]| - 1
      && (forall x :: x in Members(e, r) <==> x in d[r] && x != c)
      && (forall q :: q != r ==> (q in e <==> q in d))
      && (forall q :: q in d && q != r ==> e[q] == d[q])
  {
    RemoveFacts(d[r], c);
  }

  /**
   * Joining keeps the directory well formed, puts `c` last in room `r` (created if absent)
   * and keeps every other room.
   */
  lemma JoinFacts(d: Directory, r: string, c: ClientData)
    requires WellFormed(d) && c !in Members(d, r)
    ensures var e := Join(d, r, c);
      && WellFormed(e)
      && r in e && e[r] == Members(d, r) + [c]
      && (forall q :: q in e <==> q in d || q == r)
      && (forall q :: q in d && q != r ==> e[q] == d[q])
  {
    AddFacts(Members(d, r), c);
  }

  /**
   * Switching from room `a` to room `b`: `a` loses one member or goes, `b` gains one or is
   * created with the switcher alone, and every other room is unchanged.
   */
  lemma SwitchRooms(d: Directory, a: string, b: string, c: ClientData)
    requires WellFormed(d) && c in Members(d, a) && c !in Members(d, b) && a != b
    ensures var e := Join(Leave(d, a, c), b, c);
      && (|d[a]| == 1 <==> a !in e)
      && |Members(e, a)| == |d[a]| - 1
      && |e[b]| == |Members(d, b)| + 1 && e[b][|e[b]| - 1] == c
      && (forall r :: r in d && r != a && r != b ==> r in e && e[r] == d[r])
      && (forall r :: r in e ==> r in d || r == b)
  {
    LeaveFacts(d, a, c);
    JoinFacts(Leave(d, a, c), b, c);
  }

  // ----- the invariant, over values -----

  /** The room each open socket names (its `roomName`), keyed by socket. */
  type RoomOf = map<ClientData, Option<string>>

  /**
   * The directory agrees with the sockets' room names: every member of room `r` is open and
   * names `r`, and every open socket that names a room is a member of it.
   */
  ghost predicate DirectoryAgrees(d: Directory, room: RoomOf) {
    && WellFormed(d)
    && (forall r, c :: r in d && c in d[r] ==> c in room && room[c] == Some(r))
    && (forall c :: c in room && room[c].Some? ==> c in Members(d, room[c].value))
  }

  /**
   * Apart from the sockets in `closing`, a socket listens to a topic exactly when it is
   * open, names a room, and the topic is that room's.
   */
  ghost predicate SubscriptionsAgree(subs: set<(ClientData, string)>, room: RoomOf, closing: set<ClientData>) {
    && (forall p :: p in subs && p.0 !in closing ==>
          p.0 in room && room[p.0].Some? && p.1 == RoomTopic(room[p.0].value))
    && (forall c :: c in room && c !in closing && room[c].Some? ==> (c, RoomTopic(room[c].value)) in subs)
  }

  /** A socket that leaves its room is taken out of that room and nothing else changes. */
  lemma LeaveAgrees(d: Directory, room: RoomOf, c: ClientData, r: string)
    requires DirectoryAgrees(d, room) && c in room && room[c] == Some(r)
    ensures r in d && c in d[r]
    ensures DirectoryAgrees(Leave(d, r, c), room[c := None])
  {
    LeaveFacts(d, r, c);
    var e, room' := Leave(d, r, c), room[c := None];
    forall q, x | q in e && x in e[q] ensures x in room' && room'[x] == Some(q) {
      if q == r {
        assert x in Members(e, r);
      } else {
        assert x in d[q];
      }
    }
    forall x | x in room' && room'[x].Some? ensures x in Members(e, room'[x].value) {
      assert x != c;
      var q := room[x].value;
      assert x in d[q];
      if q == r {
        assert x in Members(e, r);
      }
    }
  }

  /** A socket in no room that joins room `r` is added to it. */
  lemma JoinAgrees(d: Directory, room: RoomOf, c: ClientData, r: string)
    requires DirectoryAgrees(d, room) && c in room && room[c] == None
    ensures c !in Members(d, r)
    ensures DirectoryAgrees(Join(d, r, c), room[c := Some(r)])
  {
    JoinFacts(d, r, c);
  }

  /** Unsubscribing a leaver from its room's topic keeps the relation exact. */
  lemma UnsubscribeAgrees(subs: set<(ClientData, string)>, room: RoomOf, c: ClientData, r: string)
    requires SubscriptionsAgree(subs, room, {}) && c in room && room[c] == Some(r)
    ensures SubscriptionsAgree(subs - {(c, RoomTopic(r))}, room[c := None], {})
  {
    forall p | p in subs - {(c, RoomTopic(r))} ensures p.0 != c {
      assert p.0 == c ==> p == (c, RoomTopic(r));
    }
  }

  /** Subscribing a joiner to its room's topic keeps the relation exact. */
  lemma SubscribeAgrees(subs: set<(ClientData, string)>, room: RoomOf, c: ClientData, r: string)
    requires SubscriptionsAgree(subs, room, {}) && c in room && room[c] == None
    ensures SubscriptionsAgree(subs + {(c, RoomTopic(r))}, room[c := Some(r)], {})
  {
  }

  /** When a closing socket's subscriptions are dropped by the transport, the relation is exact again. */
  lemma DropAgrees(subs: set<(ClientData, string)>, room: RoomOf, c: ClientData)
    requires SubscriptionsAgree(subs, room, {c})
    ensures SubscriptionsAgree(Drop(subs, c), room - {c}, {})
  {
  }

  /** A socket in no room that closes leaves the directory in agreement. */
  lemma CloseAgrees(d: Directory, room: RoomOf, c: ClientData)
    requires DirectoryAgrees(d, room) && c in room && room[c] == None
    ensures DirectoryAgrees(d, room - {c})
    ensures forall r :: r in d ==> c !in d[r]
  {
  }

  /** A socket in no room that opens leaves both relations in agreement. */
  lemma OpenAgrees(d: Directory, subs: set<(ClientData, string)>, room: RoomOf, c: ClientData)
    requires DirectoryAgrees(d, room) && SubscriptionsAgree(subs, room, {}) && c !in room
    requires forall p :: p in subs ==> p.0 != c
    ensures DirectoryAgrees(d, room[c := None]) && SubscriptionsAgree(subs, room[c := None], {})
  {
  }

  /**
   * The leave events: unless closing, the leaver first gets every member id, its own
   * included; then the room hears the leaver's id and the size without it.
   */
  lemma LeaveEventsFacts(c: ClientData, d: Directory, r: string, isClosing: bool)
    requires WellFormed(d) && c in Members(d, r)
    ensures var e := LeaveEvents(c, d, r, isClosing);
      && |e| == (if isClosing then 1 else 2)
      && e[|e| - 1] == Publish(RoomTopic(r), LeftNotice(c.id, |d[r]| - 1))
      && (!isClosing ==> e[0] == Send(c, LeaveReply(Ids(d[r]))) && c.id in Ids(d[r]))
  {
    var m := d[r];
    RemoveFacts(m, c);
    var notice := Publish(RoomTopic(r), LeftNotice(c.id, |m| - 1));
    if isClosing {
      assert LeaveEvents(c, d, r, isClosing) == [] + [notice];
    } else {
      assert LeaveEvents(c, d, r, isClosing) == [Send(c, LeaveReply(Ids(m)))] + [notice];
      var k :| 0 <= k < |m| && m[k] == c;
      assert Ids(m)[k] == c.id;
    }
  }

  /** A joiner's reply lists the members it found in the room, then itself. */
  lemma JoinerListedLast(d: Directory, room: RoomOf, c: ClientData, to: string)
    requires DirectoryAgrees(d, room) && c in room
    ensures JoinedMembers(d, room[c], to, c) == Members(LeaveFrom(d, room[c], c), to) + [c]
  {
    var left := LeaveFrom(d, room[c], c);
    if room[c].Some? {
      LeaveAgrees(d, room, c, room[c].value);
      JoinAgrees(left, room[c := None], c, to);
    } else {
      JoinAgrees(d, room, c, to);
    }
    JoinFacts(left, to, c);
  }

  /** The snapshot of a room with one more member ends with that member's entry. */
  lemma SnapshotAppend(members: seq<ClientData>, c: ClientData)
    ensures Snapshot(members + [c]) == Snapshot(members) + [Entry(c)]
  {
    var a, b := Snapshot(members + [c]), Snapshot(members) + [Entry(c)];
    assert |a| == |b|;
    forall i | 0 <= i < |a| ensures a[i] == b[i] {
      if i < |members| {
        assert (members + [c])[i] == members[i];
      }
    }
  }

  /** A set of numbers below `n` has at most `n` elements. */
  lemma {:induction false} BelowCard(s: set<nat>, n: nat)
    requires forall k :: k in s ==> k < n
    ensures |s| <= n
  {
    if n > 0 {
      BelowCard(s - {n - 1}, n - 1);
    }
  }

  /** The hub's state and handlers. */
  class Hub {
    /** Open connections by id. */
    var clients: map<nat, ClientData>
    /** Room name to its members, in insertion order. */
    var clientsByRoom: Directory
    /** The transport's subscription relation: (socket, topic). */
    var subscriptions: set<(ClientData, string)>
    /** Everything the hub has sent, published or closed, oldest first. */
    var outbox: seq<Event>
    const ids: IdAllocator
    /** Sockets upgraded but not yet opened. */
    ghost var pending: set<ClientData>
    /** Sockets opened and not yet closed. */
    ghost var connected: set<ClientData>

    /** The room each open socket names, as a value. */
    ghost var roomOf: RoomOf

    /** `roomOf` records exactly the room names of the open sockets. */
    ghost predicate RoomNames()
      reads this`roomOf, this`connected, connected`roomName
    {
      && roomOf.Keys == connected
      && forall c :: c in connected ==> roomOf[c] == c.roomName
    }

    /** Every registry entry is an open connection filed under its own id. */
    ghost predicate Registry()
      reads this`clients, this`connected
    {
      forall k :: k in clients ==> clients[k] in connected && clients[k].id == k
    }

    /** Upgraded sockets wait, in no room, to be opened; every id was issued by the counter. */
    ghost predicate Lifecycle()
      reads this`pending, this`connected, this`subscriptions, ids, pending`roomName
    {
      && ids.Valid()
      && pending !! connected
      && (forall c :: c in pending ==> c.roomName.None? && c.id < ID_LIMIT)
      && (forall c :: c in connected ==> c.id < ID_LIMIT)
      && (forall p :: p in subscriptions ==> p.0 !in pending)
    }

    ghost predicate Valid()
      reads this`clients, this`clientsByRoom, this`subscriptions, this`connected, this`pending, this`roomOf
      reads ids, connected`roomName, pending`roomName
    {
      && Registry() && Lifecycle() && RoomNames()
      && DirectoryAgrees(clientsByRoom, roomOf)
      && SubscriptionsAgree(subscriptions, roomOf, {})
    }

    constructor (ids: IdAllocator)
      requires ids.Valid()
      ensures Valid() && this.ids == ids
      ensures clients == map[] && clientsByRoom == map[] && subscriptions == {} && outbox == []
      ensures pending == {} && connected == {}
    {
      this.ids := ids;
      clients := map[];
      clientsByRoom := map[];
      subscriptions := {};
      outbox := [];
      pending := {};
      connected := {};
      roomOf := map[];
    }

    /** handleUpgrade: a new socket with a fresh id, in no room and with no pointers. */
    method HandleUpgrade() returns (client: ClientData)
      requires Valid()
      modifies this`pending, ids
      ensures Valid()
      ensures fresh(client) && client.id == old(ids.calls) % ID_LIMIT
      ensures client.roomName == None && client.pointerXPercent == None && client.pointerYPercent == None
      ensures pending == old(pending) + {client}
    {
      var id := ids.NextClientId();
      client := new ClientData(id);
      pending := pending + {client};
    }

    /** Registry keys are ids below 65535, so the registry size fits the u16 clientCount. */
    lemma RegistryFits()
      requires Registry() && Lifecycle()
      ensures |clients| <= ID_LIMIT
    {
      BelowCard(clients.Keys, ID_LIMIT);
    }

    /** Filing an open client under its id keeps the invariant. */
    twostate lemma RegisterKeepsValid(client: ClientData)
      requires old(Valid()) && client in connected
      requires clients == old(clients)[client.id := client]
      requires unchanged(this`clientsByRoom, this`subscriptions, this`connected, this`pending, this`roomOf)
      requires unchanged(ids) && unchanged(connected`roomName, pending`roomName)
      ensures Valid()
    {
    }

    /** addClient: file the client under its id and tell it its id and the registry size. */
    method AddClient(client: ClientData)
      requires Valid() && client in connected
      modifies this`clients, this`outbox
      ensures Valid()
      ensures clients == old(clients)[client.id := client]
      ensures outbox == old(outbox) + [Send(client, Welcome(client.id, |clients|))]
      ensures SerializeServerUpdate(Welcome(client.id, |clients|)).Ok?
    {
      clients := clients[client.id := client];
      outbox := outbox + [Send(client, Welcome(client.id, |clients|))];
      RegisterKeepsValid(client);
      RegistryFits();
      WelcomeSerializes(client.id, |clients|);
    }

    /** Opening a pending socket, in no room, keeps the invariant. */
    twostate lemma OpenKeepsValid(client: ClientData)
      requires old(Valid()) && client in old(pending)
      requires pending == old(pending) - {client} && connected == old(connected) + {client}
      requires roomOf == old(roomOf)[client := None]
      requires unchanged(this`clients, this`clientsByRoom, this`subscriptions)
      requires unchanged(ids) && unchanged(old(connected) + old(pending))
      ensures Valid()
    {
      OpenAgrees(clientsByRoom, subscriptions, old(roomOf), client);
    }

    /** handleOpen: the socket is now open, and is added to the registry. */
    method HandleOpen(client: ClientData)
      requires Valid() && client in pending
      modifies this`pending, this`connected, this`roomOf, this`clients, this`outbox
      ensures Valid()
      ensures connected == old(connected) + {client} && pending == old(pending) - {client}
      ensures clients == old(clients)[client.id := client]
      ensures outbox == old(outbox) + [Send(client, Welcome(client.id, |clients|))]
    {
      pending, connected, roomOf := pending - {client}, connected + {client}, roomOf[client := None];
      OpenKeepsValid(client);
      AddClient(client);
    }

    /** The invariant, except for a closing socket's subscriptions, after `client` leaves room `r`. */
    twostate lemma LeaveKeepsValid(client: ClientData, new r: string, new isClosing: bool)
      requires old(Valid()) && client in old(connected) && old(client.roomName) == Some(r)
      requires unchanged(this`clients, this`connected, this`pending)
      requires clientsByRoom == Leave(old(clientsByRoom), r, client)
      requires roomOf == old(roomOf)[client := None] && client.roomName == None
      requires subscriptions == if isClosing then old(subscriptions) else old(subscriptions) - {(client, RoomTopic(r))}
      requires unchanged(ids) && unchanged(old(connected) - {client}) && unchanged(old(pending))
      ensures Registry() && Lifecycle() && RoomNames() && DirectoryAgrees(clientsByRoom, roomOf)
      ensures isClosing ==> SubscriptionsAgree(subscriptions, roomOf, {client})
      ensures !isClosing ==> SubscriptionsAgree(subscriptions, roomOf, {})
    {
      LeaveAgrees(old(clientsByRoom), old(roomOf), client, r);
      if !isClosing {
        UnsubscribeAgrees(old(subscriptions), old(roomOf), client, r);
      }
    }

    /**
     * removeClientFromRoom: the client must be in a room, and that room in the directory.
     * The client leaves the room (deleted once empty), its events are emitted and, unless
     * the socket is closing, it is unsubscribed from the room's topic.
     */
    method RemoveClientFromRoom(client: ClientData, isClosing: bool)
      requires Valid() && client in connected && client.roomName.Some?
      modifies this`clientsByRoom, this`subscriptions, this`outbox, this`roomOf, client`roomName
      ensures Registry() && Lifecycle() && RoomNames() && DirectoryAgrees(clientsByRoom, roomOf)
      ensures isClosing ==> SubscriptionsAgree(subscriptions, roomOf, {client})
      ensures !isClosing ==> SubscriptionsAgree(subscriptions, roomOf, {})
      ensures client.roomName == None
      ensures old(client.roomName).value in old(clientsByRoom)
      ensures clientsByRoom == LeaveFrom(old(clientsByRoom), old(client.roomName), client)
      ensures subscriptions == Unsubscribe(old(subscriptions), client, old(client.roomName), isClosing)
      ensures outbox == old(outbox) + LeaveEventsFrom(client, old(clientsByRoom), old(client.roomName), isClosing)
    {
      var roomName := client.roomName.value;
      assert roomName in clientsByRoom && client in clientsByRoom[roomName] by {
        LeaveAgrees(clientsByRoom, roomOf, client, roomName);
      }
      var roomClients := clientsByRoom[roomName];
      var events: seq<Event> := [];
      if !isClosing {
        events := [Send(client, LeaveReply(Ids(roomClients)))];
      }
      roomClients := Remove(roomClients, client);
      var subs := subscriptions;
      if !isClosing {
        subs := subs - {(client, RoomTopic(roomName))};
      }
      events := events + [Publish(RoomTopic(roomName), LeftNotice(client.id, |roomClients|))];
      var rooms := if |roomClients| == 0 then clientsByRoom - {roomName} else clientsByRoom[roomName := roomClients];
      clientsByRoom, subscriptions, outbox := rooms, subs, outbox + events;
      client.roomName := None;
      roomOf := roomOf[client := None];
      LeaveKeepsValid(client, roomName, isClosing);
    }

    /** The step removeClient and setClientRoom share: removeClientFromRoom, when the client is in a room. */
    method LeaveCurrentRoom(client: ClientData, isClosing: bool)
      requires Valid() && client in connected
      modifies this`clientsByRoom, this`subscriptions, this`outbox, this`roomOf, client`roomName
      ensures Registry() && Lifecycle() && RoomNames() && DirectoryAgrees(clientsByRoom, roomOf)
      ensures isClosing ==> SubscriptionsAgree(subscriptions, roomOf, {client})
      ensures !isClosing ==> SubscriptionsAgree(subscriptions, roomOf, {})
      ensures client.roomName == None
      ensures clientsByRoom == LeaveFrom(old(clientsByRoom), old(client.roomName), client)
      ensures subscriptions == Unsubscribe(old(subscriptions), client, old(client.roomName), isClosing)
      ensures outbox == old(outbox) + LeaveEventsFrom(client, old(clientsByRoom), old(client.roomName), isClosing)
    {
      if client.roomName.Some? {
        RemoveClientFromRoom(client, isClosing);
      }
    }

    /**
     * removeClient: leave the current room, if any, then drop the id from the registry.
     * Afterwards the client is in no room.
     */
    method RemoveClient(client: ClientData, isClosing: bool)
      requires Valid() && client in connected
      modifies this`clients, this`clientsByRoom, this`subscriptions, this`outbox, this`roomOf, client`roomName
      ensures Registry() && Lifecycle() && RoomNames() && DirectoryAgrees(clientsByRoom, roomOf)
      ensures isClosing ==> SubscriptionsAgree(subscriptions, roomOf, {client})
      ensures !isClosing ==> SubscriptionsAgree(subscriptions, roomOf, {})
      ensures client.roomName == None && forall r :: r in clientsByRoom ==> client !in clientsByRoom[r]
      ensures clients == old(clients) - {client.id}
      ensures clientsByRoom == LeaveFrom(old(clientsByRoom), old(client.roomName), client)
      ensures subscriptions == Unsubscribe(old(subscriptions), client, old(client.roomName), isClosing)
      ensures outbox == old(outbox) + LeaveEventsFrom(client, old(clientsByRoom), old(client.roomName), isClosing)
    {
      LeaveCurrentRoom(client, isClosing);
      label Left:
      clients := clients - {client.id};
      DeregisterKeepsValid@Left(client, isClosing);
    }

    /** Dropping a registry entry keeps the invariant; a socket in no room is in no room's set. */
    twostate lemma DeregisterKeepsValid(client: ClientData, new isClosing: bool)
      requires old(Registry() && Lifecycle() && RoomNames() && DirectoryAgrees(clientsByRoom, roomOf))
      requires isClosing ==> old(SubscriptionsAgree(subscriptions, roomOf, {client}))
      requires !isClosing ==> old(SubscriptionsAgree(subscriptions, roomOf, {}))
      requires client in old(connected) && old(client.roomName) == None
      requires clients == old(clients) - {client.id}
      requires unchanged(this`connected, this`pending, this`roomOf, this`clientsByRoom, this`subscriptions)
      requires unchanged(ids) && unchanged(old(connected) + old(pending))
      ensures Registry() && Lifecycle() && RoomNames() && DirectoryAgrees(clientsByRoom, roomOf)
      ensures isClosing ==> SubscriptionsAgree(subscriptions, roomOf, {client})
      ensures !isClosing ==> SubscriptionsAgree(subscriptions, roomOf, {})
      ensures forall r :: r in clientsByRoom ==> client !in clientsByRoom[r]
    {
    }

    /** The transport dropping a closed socket, in no room, restores the invariant. */
    twostate lemma CloseKeepsValid(client: ClientData)
      requires old(Registry() && Lifecycle() && RoomNames() && DirectoryAgrees(clientsByRoom, roomOf))
      requires old(SubscriptionsAgree(subscriptions, roomOf, {client}))
      requires client in old(connected) && old(client.roomName) == None && client.id !in old(clients)
      requires connected == old(connected) - {client} && roomOf == old(roomOf) - {client}
      requires subscriptions == Drop(old(subscriptions), client)
      requires unchanged(this`clients, this`clientsByRoom, this`pending)
      requires unchanged(ids) && unchanged(old(connected) + old(pending))
      ensures Valid()
    {
      CloseAgrees(clientsByRoom, old(roomOf), client);
      DropAgrees(old(subscriptions), old(roomOf), client);
    }

    /**
     * handleClose: removeClient with the socket closing; the transport then drops the
     * socket and its subscriptions.
     */
    method HandleClose(client: ClientData)
      requires Valid() && client in connected
      modifies this`clients, this`clientsByRoom, this`subscriptions, this`outbox, this`roomOf, this`connected, client`roomName
      ensures Valid()
      ensures connected == old(connected) - {client} && client.roomName == None
      ensures clients == old(clients) - {client.id}
      ensures clientsByRoom == LeaveFrom(old(clientsByRoom), old(client.roomName), client)
      ensures forall r :: r in clientsByRoom ==> client !in clientsByRoom[r]
      ensures subscriptions == Drop(old(subscriptions), client)
      ensures outbox == old(outbox) + LeaveEventsFrom(client, old(clientsByRoom), old(client.roomName), true)
    {
      RemoveClient(client, true);
      label Removed:
      connected, roomOf := connected - {client}, roomOf - {client};
      subscriptions := Drop(subscriptions, client);
      CloseKeepsValid@Removed(client);
    }

    /** Joining a room from no room keeps the invariant, and puts the joiner last in the room's set. */
    twostate lemma JoinKeepsValid(client: ClientData, new r: string)
      requires old(Valid()) && client in old(connected) && old(client.roomName) == None
      requires clientsByRoom == Join(old(clientsByRoom), r, client)
      requires roomOf == old(roomOf)[client := Some(r)] && client.roomName == Some(r)
      requires subscriptions == old(subscriptions) + {(client, RoomTopic(r))}
      requires unchanged(this`clients, this`connected, this`pending)
      requires unchanged(ids) && unchanged(old(connected) - {client}) && unchanged(old(pending))
      ensures Valid()
      ensures clientsByRoom[r] == old(Members(clientsByRoom, r)) + [client]
    {
      JoinAgrees(old(clientsByRoom), old(roomOf), client, r);
      JoinFacts(old(clientsByRoom), r, client);
      SubscribeAgrees(old(subscriptions), old(roomOf), client, r);
    }

    /** A snapshot depends only on the members' pointer fields. */
    twostate lemma SnapshotUnchanged(members: seq<ClientData>)
      requires unchanged(members`pointerXPercent, members`pointerYPercent)
      ensures Snapshot(members) == old(Snapshot(members))
    {
    }

    /** The second half of setClientRoom: a client in no room joins `roomName`, which is created when absent. */
    method JoinRoom(client: ClientData, roomName: string)
      requires Valid() && client in connected && client.roomName == None
      modifies this`clientsByRoom, this`subscriptions, this`outbox, this`roomOf, client`roomName
      ensures Valid() && client.roomName == Some(roomName)
      ensures clientsByRoom == Join(old(clientsByRoom), roomName, client)
      ensures clientsByRoom[roomName] == old(Members(clientsByRoom, roomName)) + [client]
      ensures subscriptions == old(subscriptions) + {(client, RoomTopic(roomName))}
      ensures outbox == old(outbox) + [Send(client, JoinReply(roomName, old(Snapshot(Join(clientsByRoom, roomName, client)[roomName]))))]
    {
      var roomClients := Add(Members(clientsByRoom, roomName), client);
      var reply := JoinReply(roomName, Snapshot(roomClients));
      client.roomName := Some(roomName);
      clientsByRoom, roomOf, subscriptions, outbox :=
        clientsByRoom[roomName := roomClients], roomOf[client := Some(roomName)],
        subscriptions + {(client, RoomTopic(roomName))}, outbox + [Send(client, reply)];
      JoinKeepsValid(client, roomName);
    }

    /**
     * setClientRoom: leave the current room, if any; then join `roomName` (created when
     * absent), subscribe to its topic and reply with every member's state, the joiner's last.
     */
    method SetClientRoom(client: ClientData, roomName: string)
      requires Valid() && client in connected
      modifies this`clientsByRoom, this`subscriptions, this`outbox, this`roomOf, client`roomName
      ensures Valid() && client.roomName == Some(roomName)
      ensures var left := LeaveFrom(old(clientsByRoom), old(client.roomName), client);
        && clientsByRoom == Join(left, roomName, client)
        && clientsByRoom[roomName] == Members(left, roomName) + [client]
      ensures subscriptions == Unsubscribe(old(subscriptions), client, old(client.roomName), false) + {(client, RoomTopic(roomName))}
      ensures outbox == old(outbox) + LeaveEventsFrom(client, old(clientsByRoom), old(client.roomName), false)
        + [Send(client, JoinReply(roomName, old(Snapshot(JoinedMembers(clientsByRoom, client.roomName, roomName, client)))))]
    {
      LeaveCurrentRoom(client, false);
      SnapshotUnchanged(Join(clientsByRoom, roomName, client)[roomName]);
      JoinRoom(client, roomName);
    }

    /** handleMessage's room step: setClientRoom, only when the update names a room other than the current one. */
    method SwitchRoom(client: ClientData, update: ClientCodec.ClientUpdate)
      requires Valid() && client in connected
      modifies this`clientsByRoom, this`subscriptions, this`outbox, this`roomOf, client`roomName
      ensures Valid() && client.roomName == Overwrite(old(client.roomName), update.roomName)
      ensures Switches(update, old(client.roomName)) ==>
        var r := update.roomName.value;
        && clientsByRoom == Join(LeaveFrom(old(clientsByRoom), old(client.roomName), client), r, client)
        && subscriptions == Unsubscribe(old(subscriptions), client, old(client.roomName), false) + {(client, RoomTopic(r))}
        && outbox == old(outbox) + LeaveEventsFrom(client, old(clientsByRoom), old(client.roomName), false)
          + [Send(client, JoinReply(r, old(Snapshot(JoinedMembers(clientsByRoom, client.roomName, r, client)))))]
      ensures !Switches(update, old(client.roomName)) ==>
        clientsByRoom == old(clientsByRoom) && subscriptions == old(subscriptions) && outbox == old(outbox)
    {
      if update.roomName.Some? && update.roomName != client.roomName {
        SetClientRoom(client, update.roomName.value);
      }
    }

    /** Pointer coordinates are not part of the invariant. */
    twostate lemma PointersKeepValid()
      requires old(Valid())
      requires unchanged(this`clients, this`clientsByRoom, this`subscriptions, this`connected, this`pending, this`roomOf)
      requires unchanged(ids) && unchanged(connected`roomName, pending`roomName)
      ensures Valid()
    {
    }

    /**
     * handleMessage's pointer step: each present pointer field overwrites the stored one and,
     * when the client is in a room, its new state is published there.
     */
    method MovePointer(client: ClientData, update: ClientCodec.ClientUpdate)
      requires Valid() && client in connected
      modifies this`outbox, client`pointerXPercent, client`pointerYPercent
      ensures Valid()
      ensures client.pointerXPercent == Overwrite(old(client.pointerXPercent), update.pointerXPercent)
      ensures client.pointerYPercent == Overwrite(old(client.pointerYPercent), update.pointerYPercent)
      ensures outbox == old(outbox) + PointerEvents(update, client)
    {
      if update.pointerXPercent.Some? || update.pointerYPercent.Some? {
        if update.pointerXPercent.Some? {
          client.pointerXPercent := update.pointerXPercent;
        }
        if update.pointerYPercent.Some? {
          client.pointerYPercent := update.pointerYPercent;
        }
        if client.roomName.Some? {
          outbox := outbox + [Publish(RoomTopic(client.roomName.value), PointerNotice(Entry(client)))];
        }
        PointersKeepValid();
      }
    }

    /** handleMessage on a decoded update: the room step, then the pointer step. */
    method ApplyClientUpdate(client: ClientData, u: ClientCodec.ClientUpdate)
      requires Valid() && client in connected
      modifies this`clientsByRoom, this`subscriptions, this`outbox, this`roomOf
      modifies client`roomName, client`pointerXPercent, client`pointerYPercent
      ensures Valid()
      ensures client.roomName == Overwrite(old(client.roomName), u.roomName)
      ensures client.pointerXPercent == Overwrite(old(client.pointerXPercent), u.pointerXPercent)
      ensures client.pointerYPercent == Overwrite(old(client.pointerYPercent), u.pointerYPercent)
      ensures Switches(u, old(client.roomName)) ==>
        var r := u.roomName.value;
        && clientsByRoom == Join(LeaveFrom(old(clientsByRoom), old(client.roomName), client), r, client)
        && subscriptions == Unsubscribe(old(subscriptions), client, old(client.roomName), false) + {(client, RoomTopic(r))}
        && outbox == old(outbox) + LeaveEventsFrom(client, old(clientsByRoom), old(client.roomName), false)
          + [Send(client, JoinReply(r, old(Snapshot(JoinedMembers(clientsByRoom, client.roomName, r, client)))))]
          + PointerEvents(u, client)
      ensures !Switches(u, old(client.roomName)) ==>
        && clientsByRoom == old(clientsByRoom) && subscriptions == old(subscriptions)
        && outbox == old(outbox) + PointerEvents(u, client)
    {
      SwitchRoom(client, u);
      MovePointer(client, u);
    }

    /**
     * handleMessage: a non-binary frame or one that does not decode closes the socket and
     * changes nothing else; otherwise the update is applied.
     */
    method HandleMessage(client: ClientData, message: Bytes, isBinary: bool)
      requires Valid() && client in connected
      modifies this`clientsByRoom, this`subscriptions, this`outbox, this`roomOf
      modifies client`roomName, client`pointerXPercent, client`pointerYPercent
      ensures Valid()
      ensures !isBinary || ClientCodec.DeserializeClientUpdate(message).Err? ==>
        && outbox == old(outbox) + [Close(client)]
        && clientsByRoom == old(clientsByRoom) && subscriptions == old(subscriptions)
        && unchanged(client)
      ensures isBinary && ClientCodec.DeserializeClientUpdate(message).Ok? ==>
        var u := ClientCodec.DeserializeClientUpdate(message).value;
        && client.roomName == Overwrite(old(client.roomName), u.roomName)
        && client.pointerXPercent == Overwrite(old(client.pointerXPercent), u.pointerXPercent)
        && client.pointerYPercent == Overwrite(old(client.pointerYPercent), u.pointerYPercent)
        && (Switches(u, old(client.roomName)) ==>
          var r := u.roomName.value;
          && clientsByRoom == Join(LeaveFrom(old(clientsByRoom), old(client.roomName), client), r, client)
          && subscriptions == Unsubscribe(old(subscriptions), client, old(client.roomName), false) + {(client, RoomTopic(r))}
          && outbox == old(outbox) + LeaveEventsFrom(client, old(clientsByRoom), old(client.roomName), false)
            + [Send(client, JoinReply(r, old(Snapshot(JoinedMembers(clientsByRoom, client.roomName, r, client)))))]
            + PointerEvents(u, client))
        && (!Switches(u, old(client.roomName)) ==>
          && clientsByRoom == old(clientsByRoom) && subscriptions == old(subscriptions)
          && outbox == old(outbox) + PointerEvents(u, client))
    {
      if !isBinary {
        outbox := outbox + [Close(client)];
        return;
      }
      var decoded := ClientCodec.DeserializeClientUpdate(message);
      if decoded.Err? {
        outbox := outbox + [Close(client)];
        return;
      }
      ApplyClientUpdate(client, decoded.value);
    }

    /** The room's topic reaches exactly the room's members. */
    lemma RoomAudience(c: ClientData, r: string)
      requires Valid()
      ensures (c, RoomTopic(r)) in subscriptions <==> c in Members(clientsByRoom, r)
    {
      if (c, RoomTopic(r)) in subscriptions {
        RoomTopicInjective(roomOf[c].value, r);
        assert c in Members(clientsByRoom, roomOf[c].value);
      }
      if c in Members(clientsByRoom, r) {
        assert c in roomOf && roomOf[c] == Some(r);
      }
    }

    /**
     * Every room is non-empty; a member of room `r` is open and names `r`, so it is in no
     * other room; an open client that names a room is in that room's set.
     */
    lemma Membership(c: ClientData)
      requires Valid()
      ensures forall r :: r in clientsByRoom ==> |clientsByRoom[r]| > 0
      ensures forall r :: r in clientsByRoom && c in clientsByRoom[r] ==> c in connected && c.roomName == Some(r)
      ensures c in connected && c.roomName.Some? ==>
        c.roomName.value in clientsByRoom && c in clientsByRoom[c.roomName.value]
    {
    }

    /** A client is in at most one room's set. */
    lemma AtMostOneRoom(c: ClientData, r1: string, r2: string)
      requires Valid()
      requires r1 in clientsByRoom && c in clientsByRoom[r1]
      requires r2 in clientsByRoom && c in clientsByRoom[r2]
      ensures r1 == r2
    {
      Membership(c);
    }
  }
}
