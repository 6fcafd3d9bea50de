/**
 * The browser's view of the presence service (apps/web/src/presence/state.ts
 * and apps/web/src/presence/controller.tsx): one shared state object that the
 * WebSocket callbacks update in place, and the mapping from the socket's
 * ready state to the connection state shown to the user.
 *
 * The clients map is keyed by client id; each entry holds the id and the two
 * optional pointer coordinates last reported for that client.
 */
module PresenceView {
  import opened Wrappers
  import opened ByteSeq
  import opened Borsh
  import opened ServerCodec

  /** PresenceConnectionState */
  datatype ConnectionState = Disconnected | Connecting | Connected

  /** The numeric values of the WebSocket hook's `ReadyState` enumeration. */
  const UNINSTANTIATED: int := -1
  const CONNECTING: int := 0
  const OPEN: int := 1
  const CLOSING: int := 2
  const CLOSED: int := 3

  /** readyStateToConnectionState: a value outside the enumeration fails (throws, in the source) and is returned as the error. */
  function ReadyStateToConnectionState(readyState: int): (r: Result<ConnectionState, int>)
    ensures r == Ok(Connected) <==> readyState == OPEN
    ensures r == Ok(Connecting) <==> readyState == CONNECTING
    ensures r == Ok(Disconnected) <==> readyState == CLOSING || readyState == CLOSED || readyState == UNINSTANTIATED
    ensures r.Err? ==> r.error == readyState
  {
    if readyState == OPEN then Ok(Connected)
    else if readyState == CONNECTING then Ok(Connecting)
    else if readyState == CLOSING then Ok(Disconnected)
    else if readyState == CLOSED then Ok(Disconnected)
    else if readyState == UNINSTANTIATED then Ok(Disconnected)
    else Err(readyState)
  }

  /** The mapping is total on the enumeration, and "connected" is exactly the hook's `isConnected`. */
  lemma ReadyStateTotal(readyState: int)
    ensures ReadyStateToConnectionState(readyState).Ok? <==> UNINSTANTIATED <= readyState <= CLOSED
    ensures ReadyStateToConnectionState(readyState) == Ok(Connected) <==> readyState == OPEN
  {
  }

  /** ClientState: one remote client's entry. */
  datatype ClientState = ClientState(id: nat, pointerXPercent: Option<F32>, pointerYPercent: Option<F32>)

  type Clients = map<nat, ClientState>

  /** Every entry is stored under its own id. */
  predicate KeyedById(m: Clients) {
    forall k :: k in m ==> m[k].id == k
  }

  /** Some entry of `es` is about client `k`. */
  predicate Mentions(es: seq<ClientEntry>, k: nat) {
    exists i :: 0 <= i < |es| && es[i].id == k
  }

  /**
   * The map after the upsert loop has run over `es`: an id already present
   * has both pointers overwritten (with an absent value too), an unknown id
   * gets a new entry.
   */
  function UpsertAll(m: Clients, es: seq<ClientEntry>): Clients {
    if es == [] then m
    else
      var prev := UpsertAll(m, es[..|es| - 1]);
      var e := es[|es| - 1];
      if e.id in prev then prev[e.id := prev[e.id].(pointerXPercent := e.pointerXPercent, pointerYPercent := e.pointerYPercent)]
      else prev[e.id := ClientState(e.id, e.pointerXPercent, e.pointerYPercent)]
  }

  /** The map after the delete loop has run over `ids`. */
  function RemoveAll(m: Clients, ids: seq<nat>): Clients {
    if ids == [] then m else RemoveAll(m, ids[..|ids| - 1]) - {ids[|ids| - 1]}
  }

  /** The clients map after a whole server update: upserts first, then deletes, the latter only if a map exists. */
  function ApplyClients(clients: Option<Clients>, u: ServerUpdate): Option<Clients> {
    var upserted :=
      if u.clientUpdates.Some? then Some(UpsertAll(if clients.Some? then clients.value else map[], u.clientUpdates.value))
      else clients;
    if u.removeClientIds.Some? && upserted.Some? then Some(RemoveAll(upserted.value, u.removeClientIds.value))
    else upserted
  }

  /** Upserting adds exactly the mentioned ids, leaves the other entries alone and keeps entries under their ids. */
  lemma {:induction false} UpsertAllFacts(m: Clients, es: seq<ClientEntry>, k: nat)
    ensures k in UpsertAll(m, es) <==> k in m || Mentions(es, k)
    ensures !Mentions(es, k) && k in m ==> UpsertAll(m, es)[k] == m[k]
    ensures KeyedById(m) ==> KeyedById(UpsertAll(m, es))
  {
    if es != [] {
      var init := es[..|es| - 1];
      UpsertAllFacts(m, init, k);
      if Mentions(es, k) && !Mentions(init, k) {
        assert es[|es| - 1].id == k;
      }
      if Mentions(init, k) {
        var i :| 0 <= i < |init| && init[i].id == k;
        assert es[i].id == k;
      }
      if KeyedById(m) {
        assert KeyedById(UpsertAll(m, init));
        forall j | j in UpsertAll(m, es) ensures UpsertAll(m, es)[j].id == j {
          UpsertAllFacts(m, init, j);
        }
      }
    }
  }

  /** The last entry about an id decides both of its pointers. */
  lemma {:induction false} LastEntryWins(m: Clients, es: seq<ClientEntry>, j: nat)
    requires j < |es|
    requires forall i :: j < i < |es| ==> es[i].id != es[j].id
    ensures es[j].id in UpsertAll(m, es)
    ensures UpsertAll(m, es)[es[j].id].pointerXPercent == es[j].pointerXPercent
    ensures UpsertAll(m, es)[es[j].id].pointerYPercent == es[j].pointerYPercent
  {
    if j < |es| - 1 {
      var init := es[..|es| - 1];
      assert forall i :: j < i < |init| ==> init[i] == es[i];
      LastEntryWins(m, init, j);
    }
  }

  /** Deleting removes exactly the listed ids and leaves the other entries alone. */
  lemma {:induction false} RemoveAllFacts(m: Clients, ids: seq<nat>, k: nat)
    ensures k in RemoveAll(m, ids) <==> k in m && k !in ids
    ensures k in RemoveAll(m, ids) ==> RemoveAll(m, ids)[k] == m[k]
    ensures KeyedById(m) ==> KeyedById(RemoveAll(m, ids))
  {
    if ids != [] {
      var init := ids[..|ids| - 1];
      RemoveAllFacts(m, init, k);
      assert ids == init + [ids[|ids| - 1]];
      if KeyedById(m) {
        forall j | j in RemoveAll(m, ids) ensures RemoveAll(m, ids)[j].id == j {
          RemoveAllFacts(m, init, j);
        }
      }
    }
  }

  /** A server update keeps every entry under its own id. */
  lemma ApplyKeepsKeys(clients: Option<Clients>, u: ServerUpdate)
    requires clients.Some? ==> KeyedById(clients.value)
    ensures ApplyClients(clients, u).Some? ==> KeyedById(ApplyClients(clients, u).value)
  {
    var start: Clients := if clients.Some? then clients.value else map[];
    if u.clientUpdates.Some? {
      UpsertAllFacts(start, u.clientUpdates.value, 0);
      if u.removeClientIds.Some? {
        RemoveAllFacts(UpsertAll(start, u.clientUpdates.value), u.removeClientIds.value, 0);
      }
    } else if u.removeClientIds.Some? && clients.Some? {
      RemoveAllFacts(clients.value, u.removeClientIds.value, 0);
    }
  }

  /** A `clientUpdates` field creates the map; without one, a missing map stays missing. */
  lemma MapCreated(clients: Option<Clients>, u: ServerUpdate)
    ensures u.clientUpdates.Some? ==> ApplyClients(clients, u).Some?
    ensures u.clientUpdates.None? ==> ApplyClients(clients, u).Some? == clients.Some?
  {
  }

  /** An id in `removeClientIds` is absent afterwards, even when `clientUpdates` lists it too. */
  lemma RemovedIdsAbsent(clients: Option<Clients>, u: ServerUpdate, k: nat)
    requires u.removeClientIds.Some? && k in u.removeClientIds.value
    ensures ApplyClients(clients, u).Some? ==> k !in ApplyClients(clients, u).value
  {
    var start: Clients := if clients.Some? then clients.value else map[];
    if u.clientUpdates.Some? {
      RemoveAllFacts(UpsertAll(start, u.clientUpdates.value), u.removeClientIds.value, k);
    } else if clients.Some? {
      RemoveAllFacts(clients.value, u.removeClientIds.value, k);
    }
  }

  /** The last `clientUpdates` entry about an id not being removed is what the map holds for it afterwards. */
  lemma UpsertedEntry(clients: Option<Clients>, u: ServerUpdate, j: nat)
    requires clients.Some? ==> KeyedById(clients.value)
    requires u.clientUpdates.Some? && j < |u.clientUpdates.value|
    requires forall i :: j < i < |u.clientUpdates.value| ==> u.clientUpdates.value[i].id != u.clientUpdates.value[j].id
    requires u.removeClientIds.Some? ==> u.clientUpdates.value[j].id !in u.removeClientIds.value
    ensures ApplyClients(clients, u).Some?
    ensures var e := u.clientUpdates.value[j];
            e.id in ApplyClients(clients, u).value
            && ApplyClients(clients, u).value[e.id] == ClientState(e.id, e.pointerXPercent, e.pointerYPercent)
  {
    var start: Clients := if clients.Some? then clients.value else map[];
    var es := u.clientUpdates.value;
    var k := es[j].id;
    LastEntryWins(start, es, j);
    UpsertAllFacts(start, es, k);
    if u.removeClientIds.Some? {
      RemoveAllFacts(UpsertAll(start, es), u.removeClientIds.value, k);
    }
  }

  /** An id that neither list mentions keeps its entry, or its absence. */
  lemma UnmentionedUnchanged(clients: Option<Clients>, u: ServerUpdate, k: nat)
    requires u.clientUpdates.Some? ==> !Mentions(u.clientUpdates.value, k)
    requires u.removeClientIds.Some? ==> k !in u.removeClientIds.value
    ensures ApplyClients(clients, u).Some? ==>
              (k in ApplyClients(clients, u).value <==> clients.Some? && k in clients.value)
    ensures ApplyClients(clients, u).Some? && clients.Some? && k in clients.value ==>
              ApplyClients(clients, u).value[k] == clients.value[k]
  {
    var start: Clients := if clients.Some? then clients.value else map[];
    if u.clientUpdates.Some? {
      UpsertAllFacts(start, u.clientUpdates.value, k);
      if u.removeClientIds.Some? {
        RemoveAllFacts(UpsertAll(start, u.clientUpdates.value), u.removeClientIds.value, k);
      }
    } else if u.removeClientIds.Some? && clients.Some? {
      RemoveAllFacts(clients.value, u.removeClientIds.value, k);
    }
  }

  /** The payload of a WebSocket message event: an ArrayBuffer, a Blob, or anything else. */
  datatype MessageData = ArrayBufferData(bytes: Bytes) | BlobData(blob: Bytes) | OtherData

  /** presenceState: the shared, mutable presence state. */
  class PresenceState {
    var connectionState: ConnectionState
    var myId: Option<nat>
    var roomName: Option<string>
    var clientCount: Option<nat>
    var clients: Option<Clients>
    /**
     * The Blobs whose `arrayBuffer()` is still being awaited, one per suspended
     * `onMessage` call. Other callbacks run while they wait, and they resume in
     * no guaranteed order.
     */
    var reading: seq<Bytes>

    ghost predicate Valid()
      reads this
    {
      clients.Some? ==> KeyedById(clients.value)
    }

    /** The initial state: disconnected, nothing known. */
    constructor ()
      ensures Valid()
      ensures connectionState == Disconnected
      ensures myId == None && roomName == None && clientCount == None && clients == None
      ensures reading == []
    {
      connectionState := Disconnected;
      myId, roomName, clientCount, clients := None, None, None, None;
      reading := [];
    }

    /** handleServerUpdate: scalar fields present in the update replace the stored ones, then the map is upserted and pruned. */
    method HandleServerUpdate(update: ServerUpdate)
      requires Valid()
      modifies this`myId, this`roomName, this`clientCount, this`clients
      ensures Valid()
      ensures connectionState == old(connectionState)
      ensures myId == Overwrite(old(myId), update.myId)
      ensures roomName == Overwrite(old(roomName), update.roomName)
      ensures clientCount == Overwrite(old(clientCount), update.clientCount)
      ensures clients == ApplyClients(old(clients), update)
    {
      if update.myId.Some? {
        myId := update.myId;
      }
      if update.roomName.Some? {
        roomName := update.roomName;
      }
      if update.clientCount.Some? {
        clientCount := update.clientCount;
      }
      if update.clientUpdates.Some? {
        if clients.None? {
          clients := Some(map[]);
        }
        UpsertClients(update.clientUpdates.value);
      }
      if update.removeClientIds.Some? && clients.Some? {
        RemoveClients(update.removeClientIds.value);
      }
      ApplyKeepsKeys(old(clients), update);
    }

    /** The `for ... of update.clientUpdates` loop: get, then overwrite both pointers or set a new entry. */
    method UpsertClients(es: seq<ClientEntry>)
      requires clients.Some?
      modifies this`clients
      ensures clients == Some(UpsertAll(old(clients).value, es))
    {
      ghost var start := clients.value;
      var i := 0;
      while i < |es|
        invariant 0 <= i <= |es|
        invariant clients == Some(UpsertAll(start, es[..i]))
      {
        var e := es[i];
        var m := clients.value;
        if e.id in m {
          clients := Some(m[e.id := m[e.id].(pointerXPercent := e.pointerXPercent, pointerYPercent := e.pointerYPercent)]);
        } else {
          clients := Some(m[e.id := ClientState(e.id, e.pointerXPercent, e.pointerYPercent)]);
        }
        assert es[..i + 1][..i] == es[..i];
        i := i + 1;
      }
      assert es[..i] == es;
    }

    /** The `for ... of update.removeClientIds` loop: delete each id. */
    method RemoveClients(ids: seq<nat>)
      requires clients.Some?
      modifies this`clients
      ensures clients == Some(RemoveAll(old(clients).value, ids))
    {
      ghost var start := clients.value;
      var i := 0;
      while i < |ids|
        invariant 0 <= i <= |ids|
        invariant clients == Some(RemoveAll(start, ids[..i]))
      {
        clients := Some(clients.value - {ids[i]});
        assert ids[..i + 1][..i] == ids[..i];
        i := i + 1;
      }
      assert ids[..i] == ids;
    }

    /** onClose: forget the identity, the room and every other client; the connection state follows the ready state separately. */
    method OnClose()
      modifies this`myId, this`roomName, this`clientCount, this`clients
      ensures Valid()
      ensures connectionState == old(connectionState) && reading == old(reading)
      ensures myId == None && roomName == None && clientCount == None && clients == None
    {
      myId := None;
      roomName := None;
      clientCount := None;
      clients := None;
    }

    /** Deserialize the received bytes and apply the update; bytes that do not deserialize are dropped. */
    method ReceiveBytes(bytes: Bytes)
      requires Valid()
      modifies this`myId, this`roomName, this`clientCount, this`clients
      ensures Valid()
      ensures DeserializeServerUpdate(bytes).Err? ==> unchanged(this)
      ensures DeserializeServerUpdate(bytes).Ok? ==>
                var u := DeserializeServerUpdate(bytes).value;
                && myId == Overwrite(old(myId), u.myId)
                && roomName == Overwrite(old(roomName), u.roomName)
                && clientCount == Overwrite(old(clientCount), u.clientCount)
                && clients == ApplyClients(old(clients), u)
    {
      var update := DeserializeServerUpdate(bytes);
      if update.Err? {
        return;
      }
      HandleServerUpdate(update.value);
    }

    /**
     * onMessage up to its first await: an ArrayBuffer is applied at once, a Blob
     * suspends the handler until its bytes are read, and any other payload is dropped.
     */
    method OnMessage(data: MessageData)
      requires Valid()
      modifies this`myId, this`roomName, this`clientCount, this`clients, this`reading
      ensures Valid()
      ensures data.OtherData? ==> unchanged(this)
      ensures data.BlobData? ==> reading == old(reading) + [data.blob]
      ensures data.BlobData? ==> myId == old(myId) && roomName == old(roomName) && clientCount == old(clientCount) && clients == old(clients)
      ensures data.ArrayBufferData? && DeserializeServerUpdate(data.bytes).Err? ==> unchanged(this)
      ensures data.ArrayBufferData? && DeserializeServerUpdate(data.bytes).Ok? ==>
                var u := DeserializeServerUpdate(data.bytes).value;
                && reading == old(reading)
                && myId == Overwrite(old(myId), u.myId)
                && roomName == Overwrite(old(roomName), u.roomName)
                && clientCount == Overwrite(old(clientCount), u.clientCount)
                && clients == ApplyClients(old(clients), u)
    {
      match data
      case OtherData =>
      case BlobData(blob) =>
        reading := reading + [blob];
      case ArrayBufferData(bytes) =>
        ReceiveBytes(bytes);
    }

    /**
     * The rest of a suspended onMessage: the `i`-th awaited Blob's bytes arrive and are
     * deserialized and applied to the state as it is now, which an onClose or other
     * messages may have changed since the Blob was received.
     */
    method ResumeBlob(i: nat)
      requires Valid() && i < |reading|
      modifies this`myId, this`roomName, this`clientCount, this`clients, this`reading
      ensures Valid()
      ensures reading == old(reading[..i] + reading[i + 1..])
      ensures DeserializeServerUpdate(old(reading[i])).Err? ==>
                myId == old(myId) && roomName == old(roomName) && clientCount == old(clientCount) && clients == old(clients)
      ensures DeserializeServerUpdate(old(reading[i])).Ok? ==>
                var u := DeserializeServerUpdate(old(reading[i])).value;
                && myId == Overwrite(old(myId), u.myId)
                && roomName == Overwrite(old(roomName), u.roomName)
                && clientCount == Overwrite(old(clientCount), u.clientCount)
                && clients == ApplyClients(old(clients), u)
    {
      var bytes := reading[i];
      reading := reading[..i] + reading[i + 1..];
      ReceiveBytes(bytes);
    }

    /** The effect that mirrors the socket's ready state; a value outside the enumeration fails and changes nothing. */
    method SyncConnectionState(readyState: int) returns (r: Result<ConnectionState, int>)
      modifies this`connectionState
      ensures r == ReadyStateToConnectionState(readyState)
      ensures r.Ok? ==> connectionState == r.value
      ensures r.Err? ==> connectionState == old(connectionState)
    {
      r := ReadyStateToConnectionState(readyState);
      if r.Ok? {
        connectionState := r.value;
      }
    }
  }

  /**
   * A Blob that is still being read when the socket closes is applied after
   * onClose's reset: the stale update's id and room come back.
   */
  method StaleUpdateAfterClose(st: PresenceState, blob: Bytes)
    requires st.Valid() && DeserializeServerUpdate(blob).Ok?
    modifies st
    ensures st.myId == DeserializeServerUpdate(blob).value.myId
    ensures st.roomName == DeserializeServerUpdate(blob).value.roomName
  {
    st.OnMessage(BlobData(blob));
    st.OnClose();
    st.ResumeBlob(|st.reading| - 1);
  }
}
