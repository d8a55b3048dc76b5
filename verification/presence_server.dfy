/** The presence relay of server.js: one process-wide, insertion-ordered map
    from user id to that user's record and socket, mutated by the `message`
    and `close` handlers of each connection and fanned out by `broadcast`.
    Node runs each handler to completion, so a handler is a pure step from a
    state and an event to the next state and the messages it sends. */
module PresenceServer {
  import opened Wrappers
  import opened Js
  import opened AvatarTypes
  import opened Avatar
  import opened Wire

  type ConnId = nat

  /** The `readyState` of a socket: OPEN (1), CLOSING (2) or CLOSED (3). */
  datatype ReadyState = Open | Closing | Closed

  /** One connection: the `userId` variable its handlers share (`None` is the
      initial `null`) and its socket's state. */
  datatype Conn = Conn(bound: Option<string>, ready: ReadyState)

  /** A value of the `users` map: the user record and the socket that joined it. */
  datatype Entry = Entry(user: AvatarData, conn: ConnId)

  /** `users` as the association list a JavaScript `Map` is: keys in insertion
      order, each at most once. */
  datatype State = State(users: seq<Entry>, conns: map<ConnId, Conn>)

  datatype Event =
    | Connect(c: ConnId)                   // `wss.on('connection')`
    | Message(c: ConnId, frame: ClientFrame)
    | CloseStarted(c: ConnId)              // the socket leaves OPEN; no handler runs
    | Close(c: ConnId)                     // `ws.on('close')`
    | SocketError(c: ConnId)               // `ws.on('error')`: logged only

  type Send = (ConnId, ServerMsg)

  const Spawn: Vec3 := Vec3(0.0, 1.6, 5.0)
  const Upright: Vec3 := Vec3(0.0, 0.0, 0.0)

  const Initial: State := State([], map[])

  // ---------------------------------------------------------------------------
  // The `users` map

  predicate DistinctIds(users: seq<Entry>) {
    forall i, j :: 0 <= i < j < |users| ==> users[i].user.id != users[j].user.id
  }

  function IdsOf(users: seq<Entry>): (r: seq<string>)
    ensures |r| == |users|
    ensures forall i :: 0 <= i < |users| ==> r[i] == users[i].user.id
  {
    if users == [] then [] else [users[0].user.id] + IdsOf(users[1..])
  }

  /** `users.get(k)`, with its socket. */
  function Get(users: seq<Entry>, k: string): (r: Option<Entry>)
    ensures r.Some? <==> exists i :: 0 <= i < |users| && users[i].user.id == k
    ensures r.Some? ==> r.value in users && r.value.user.id == k
  {
    if users == [] then None
    else if users[0].user.id == k then Some(users[0])
    else Get(users[1..], k)
  }

  predicate Has(users: seq<Entry>, k: string) {
    Get(users, k).Some?
  }

  /** `users.set(e.user.id, e)`: an existing key keeps its place and takes
      the new value; a new key goes last. */
  function Put(users: seq<Entry>, e: Entry): (r: seq<Entry>)
    ensures Get(r, e.user.id) == Some(e)
    ensures forall k :: k != e.user.id ==> Get(r, k) == Get(users, k)
    ensures forall x :: x in r ==> x in users || x == e
    ensures forall x :: x in users && x.user.id != e.user.id ==> x in r
  {
    if users == [] then [e]
    else if users[0].user.id == e.user.id then [e] + users[1..]
    else [users[0]] + Put(users[1..], e)
  }

  /** `set` keeps the keys' order, adding a new key at the end. */
  lemma {:induction false} PutKeepsOrder(users: seq<Entry>, e: Entry)
    ensures IdsOf(Put(users, e)) == if Has(users, e.user.id) then IdsOf(users) else IdsOf(users) + [e.user.id]
  {
    if users != [] && users[0].user.id != e.user.id {
      PutKeepsOrder(users[1..], e);
      var rest := Put(users[1..], e);
      assert IdsOf([users[0]] + rest)[1..] == IdsOf(rest);
      assert IdsOf(users)[1..] == IdsOf(users[1..]);
    }
  }

  lemma PutKeepsDistinct(users: seq<Entry>, e: Entry)
    requires DistinctIds(users)
    ensures DistinctIds(Put(users, e))
  {
    var r := Put(users, e);
    PutKeepsOrder(users, e);
    forall i, j | 0 <= i < j < |r| ensures r[i].user.id != r[j].user.id {
      assert IdsOf(r)[i] == r[i].user.id && IdsOf(r)[j] == r[j].user.id;
      if Has(users, e.user.id) {
        assert IdsOf(users)[i] == users[i].user.id && IdsOf(users)[j] == users[j].user.id;
      } else if j < |users| {
        assert IdsOf(users)[i] == users[i].user.id && IdsOf(users)[j] == users[j].user.id;
      } else {
        assert IdsOf(users)[i] == users[i].user.id;
      }
    }
  }

  /** `users.delete(k)`. */
  function Remove(users: seq<Entry>, k: string): (r: seq<Entry>)
    ensures Get(r, k) == None
    ensures forall k' :: k' != k ==> Get(r, k') == Get(users, k')
    ensures DistinctIds(users) ==> DistinctIds(r)
    ensures forall x :: x in r ==> x in users
    ensures DistinctIds(users) && Has(users, k) ==> |r| == |users| - 1
    ensures !Has(users, k) ==> r == users
  {
    if users == [] then []
    else if users[0].user.id == k then
      var rest := Remove(users[1..], k);
      assert DistinctIds(users) ==> !Has(users[1..], k);
      rest
    else [users[0]] + Remove(users[1..], k)
  }

  /** The record list of the `users` reply: every entry's record except the
      one under `k`, in map order. */
  function OthersThan(users: seq<Entry>, k: string): (r: seq<AvatarData>)
    ensures forall v :: v in r <==> exists e :: e in users && e.user == v && v.id != k
    ensures DistinctIds(users) ==> |r| == |users| - (if Has(users, k) then 1 else 0)
  {
    if users == [] then []
    else
      var rest := OthersThan(users[1..], k);
      assert forall e :: e in users <==> e == users[0] || e in users[1..];
      if users[0].user.id == k then
        assert DistinctIds(users) ==> !Has(users[1..], k);
        rest
      else [users[0].user] + rest
  }

  // ---------------------------------------------------------------------------
  // broadcast

  predicate IsOpen(conns: map<ConnId, Conn>, c: ConnId) {
    c in conns && conns[c].ready == Open
  }

  /** The entries a broadcast reaches: not under the excluded id, on an open
      socket. */
  predicate Reaches(e: Entry, conns: map<ConnId, Conn>, exclude: string) {
    e.user.id != exclude && IsOpen(conns, e.conn)
  }

  /** The reached entries, in map order, each as often as it is stored. */
  function Reached(users: seq<Entry>, conns: map<ConnId, Conn>, exclude: string): (q: seq<Entry>)
    ensures |q| <= |users|
    ensures forall e :: e in q <==> e in users && Reaches(e, conns, exclude)
    ensures forall e :: Reaches(e, conns, exclude) ==> multiset(q)[e] == multiset(users)[e]
    ensures (exists e :: e in users && !Reaches(e, conns, exclude)) ==> |q| < |users|
  {
    if users == [] then []
    else
      var rest := Reached(users[1..], conns, exclude);
      assert users == [users[0]] + users[1..];
      if Reaches(users[0], conns, exclude) then [users[0]] + rest else rest
  }

  /** One copy of `msg` to each entry's socket, in order. */
  function SendsTo(q: seq<Entry>, msg: ServerMsg): (out: seq<Send>)
    ensures |out| == |q|
    ensures forall i :: 0 <= i < |q| ==> out[i] == (q[i].conn, msg)
  {
    seq(|q|, i requires 0 <= i < |q| => (q[i].conn, msg))
  }

  lemma SendsToCons(e: Entry, q: seq<Entry>, msg: ServerMsg)
    ensures SendsTo([e] + q, msg) == [(e.conn, msg)] + SendsTo(q, msg)
  {
    assert forall i :: 0 < i <= |q| ==> ([e] + q)[i] == q[i - 1];
  }

  /** Who receives a broadcast, read off the reached entries. */
  lemma SendsToReached(users: seq<Entry>, conns: map<ConnId, Conn>, msg: ServerMsg, exclude: string,
                       q: seq<Entry>, out: seq<Send>)
    requires forall e :: e in q <==> e in users && Reaches(e, conns, exclude)
    requires (exists e :: e in users && !Reaches(e, conns, exclude)) ==> |q| < |users|
    requires |out| == |q| && forall i :: 0 <= i < |q| ==> out[i] == (q[i].conn, msg)
    ensures forall i :: 0 <= i < |out| ==> out[i].1 == msg
    ensures forall c :: (c, msg) in out <==>
              exists e :: e in users && e.user.id != exclude && IsOpen(conns, e.conn) && e.conn == c
    ensures DistinctIds(users) && Has(users, exclude) ==> |out| < |users|
  {
    forall c | (c, msg) in out
      ensures exists e :: e in users && e.user.id != exclude && IsOpen(conns, e.conn) && e.conn == c
    {
      var i :| 0 <= i < |out| && out[i] == (c, msg);
      assert q[i] in q;
    }
    forall c | exists e :: e in users && e.user.id != exclude && IsOpen(conns, e.conn) && e.conn == c
      ensures (c, msg) in out
    {
      var e :| e in users && e.user.id != exclude && IsOpen(conns, e.conn) && e.conn == c;
      assert e in q;
      var i :| 0 <= i < |q| && q[i] == e;
      assert out[i] == (c, msg);
    }
    if Has(users, exclude) {
      var e :| e in users && e.user.id == exclude;
      assert !Reaches(e, conns, exclude);
    }
  }

  /** `broadcast(message, excludeUserId)`: one copy of `msg` per map entry, in
      map order, to the entry's socket, skipping the excluded id and sockets
      that are not open. A socket that several entries point to gets one copy
      per entry. */
  function Broadcast(users: seq<Entry>, conns: map<ConnId, Conn>, msg: ServerMsg, exclude: string)
    : (out: seq<Send>)
    ensures out == SendsTo(Reached(users, conns, exclude), msg)
    ensures |out| <= |users|
    ensures forall i :: 0 <= i < |out| ==> out[i].1 == msg
    ensures forall c :: (c, msg) in out <==>
              exists e :: e in users && e.user.id != exclude && IsOpen(conns, e.conn) && e.conn == c
    ensures DistinctIds(users) && Has(users, exclude) ==> |out| < |users|
  {
    var out := BroadcastInOrder(users, conns, msg, exclude);
    SendsToReached(users, conns, msg, exclude, Reached(users, conns, exclude), out);
    out
  }

  /** The loop of `broadcast`, entry by entry. */
  function BroadcastInOrder(users: seq<Entry>, conns: map<ConnId, Conn>, msg: ServerMsg, exclude: string)
    : (out: seq<Send>)
    ensures out == SendsTo(Reached(users, conns, exclude), msg)
  {
    if users == [] then []
    else
      var rest := BroadcastInOrder(users[1..], conns, msg, exclude);
      if Reaches(users[0], conns, exclude) then
        SendsToCons(users[0], Reached(users[1..], conns, exclude), msg);
        [(users[0].conn, msg)] + rest
      else rest
  }

  // ---------------------------------------------------------------------------
  // Handlers

  /** The stored and announced record of a `join`: missing position and
      rotation become the spawn point and no rotation. */
  function JoinRecord(f: ClientFrame): (rec: AvatarData)
    requires f.Join?
    ensures rec.id == f.userId && rec.name == f.name && rec.image == f.image
    ensures rec.customization == f.customization
    ensures rec.position == Some(if f.position.Some? then f.position.value else Spawn)
    ensures rec.rotation == Some(if f.rotation.Some? then f.rotation.value else Upright)
  {
    AvatarData(f.userId, f.name, f.image, Some(f.position.GetOr(Spawn)),
               Some(f.rotation.GetOr(Upright)), f.customization)
  }

  /** `case 'join'`: bind the connection, store the record under its id
      (overwriting whatever entry had that id), reply with everyone else, and
      announce the newcomer to everyone else. */
  function OnJoin(s: State, c: ConnId, f: ClientFrame): (r: (State, seq<Send>))
    requires c in s.conns && f.Join?
    ensures Get(r.0.users, f.userId) == Some(Entry(JoinRecord(f), c))
    ensures forall k :: k != f.userId ==> Get(r.0.users, k) == Get(s.users, k)
    ensures r.0.conns == s.conns[c := s.conns[c].(bound := Some(f.userId))]
    ensures |r.1| >= 1 && r.1[0] == (c, Users(OthersThan(r.0.users, f.userId)))
    ensures forall v :: v in r.1[0].1.users <==>
              v.id != f.userId && exists e :: e in s.users && e.user == v
    ensures r.1[1..] == Broadcast(r.0.users, r.0.conns, UserJoined(JoinRecord(f)), f.userId)
  {
    var rec := JoinRecord(f);
    var users := Put(s.users, Entry(rec, c));
    var conns := s.conns[c := s.conns[c].(bound := Some(f.userId))];
    var reply := OthersThan(users, f.userId);
    (State(users, conns), [(c, Users(reply))] + Broadcast(users, conns, UserJoined(rec), f.userId))
  }

  /** The connection's bound id, when it is truthy and still a key of the map. */
  function Sender(s: State, c: ConnId): (k: Option<string>)
    requires c in s.conns
    ensures k.Some? <==> Truthy(s.conns[c].bound) && Has(s.users, s.conns[c].bound.value)
    ensures k.Some? ==> k == s.conns[c].bound
  {
    var b := s.conns[c].bound;
    if Truthy(b) && Has(s.users, b.value) then b else None
  }

  /** `case 'position'`: the sender's position and rotation take the frame's
      values, and everyone else is told. */
  function OnPosition(s: State, c: ConnId, f: ClientFrame): (r: (State, seq<Send>))
    requires c in s.conns && f.PositionFrame?
    ensures Sender(s, c).None? ==> r == (s, [])
    ensures Sender(s, c).Some? ==>
              var k := Sender(s, c).value;
              var prev := Get(s.users, k).value;
              && Get(r.0.users, k) == Some(prev.(user := prev.user.(position := f.position, rotation := f.rotation)))
              && (forall k' :: k' != k ==> Get(r.0.users, k') == Get(s.users, k'))
              && IdsOf(r.0.users) == IdsOf(s.users)
              && r.0.conns == s.conns
              && r.1 == Broadcast(r.0.users, s.conns, PositionUpdate(k, f.position, f.rotation), k)
  {
    match Sender(s, c)
    case None => (s, [])
    case Some(k) =>
      var e := Get(s.users, k).value;
      var e' := e.(user := e.user.(position := f.position, rotation := f.rotation));
      PutKeepsOrder(s.users, e');
      var users := Put(s.users, e');
      (State(users, s.conns), Broadcast(users, s.conns, PositionUpdate(k, f.position, f.rotation), k))
  }

  /** `case 'avatar-update'`: the sender's customization takes the frame's
      value, and everyone else is told. */
  function OnAvatarUpdate(s: State, c: ConnId, f: ClientFrame): (r: (State, seq<Send>))
    requires c in s.conns && f.AvatarUpdateFrame?
    ensures Sender(s, c).None? ==> r == (s, [])
    ensures Sender(s, c).Some? ==>
              var k := Sender(s, c).value;
              var prev := Get(s.users, k).value;
              && Get(r.0.users, k) == Some(prev.(user := prev.user.(customization := f.customization)))
              && (forall k' :: k' != k ==> Get(r.0.users, k') == Get(s.users, k'))
              && IdsOf(r.0.users) == IdsOf(s.users)
              && r.0.conns == s.conns
              && r.1 == Broadcast(r.0.users, s.conns, AvatarUpdate(k, f.customization), k)
  {
    match Sender(s, c)
    case None => (s, [])
    case Some(k) =>
      var e := Get(s.users, k).value;
      var e' := e.(user := e.user.(customization := f.customization));
      PutKeepsOrder(s.users, e');
      var users := Put(s.users, e');
      (State(users, s.conns), Broadcast(users, s.conns, AvatarUpdate(k, f.customization), k))
  }

  /** `ws.on('close')`: the socket is closed; if the connection's id is truthy
      its entry is deleted, whichever socket owns it now, and everyone else is
      told once. */
  function OnClose(s: State, c: ConnId): (r: (State, seq<Send>))
    requires c in s.conns
    ensures r.0.conns == s.conns[c := s.conns[c].(ready := Closed)]
    ensures !Truthy(s.conns[c].bound) ==> r.0.users == s.users && r.1 == []
    ensures Truthy(s.conns[c].bound) ==>
              var k := s.conns[c].bound.value;
              && !Has(r.0.users, k)
              && (forall k' :: k' != k ==> Get(r.0.users, k') == Get(s.users, k'))
              && r.1 == Broadcast(r.0.users, r.0.conns, UserLeft(k), k)
  {
    var conns := s.conns[c := s.conns[c].(ready := Closed)];
    var b := s.conns[c].bound;
    if Truthy(b) then
      var users := Remove(s.users, b.value);
      (State(users, conns), Broadcast(users, conns, UserLeft(b.value), b.value))
    else (State(s.users, conns), [])
  }

  // ---------------------------------------------------------------------------
  // The step function

  /** The events the socket library can deliver in a state: a fresh id for a
      new connection, messages only on an open socket, `close` once. */
  predicate Admissible(s: State, ev: Event) {
    match ev
    case Connect(c) => c !in s.conns
    case Message(c, _) => IsOpen(s.conns, c)
    case CloseStarted(c) => IsOpen(s.conns, c)
    case Close(c) => c in s.conns && s.conns[c].ready != Closed
    case SocketError(c) => c in s.conns && s.conns[c].ready != Closed
  }

  function Step(s: State, ev: Event): (r: (State, seq<Send>))
    requires Admissible(s, ev)
  {
    match ev
    case Connect(c) => (s.(conns := s.conns[c := Conn(None, Open)]), [])
    case Message(c, f) =>
      (match f
       case Join(_, _, _, _, _, _, _) => OnJoin(s, c, f)
       case PositionFrame(_, _) => OnPosition(s, c, f)
       case AvatarUpdateFrame(_) => OnAvatarUpdate(s, c, f)
       case _ => (s, []))
    case CloseStarted(c) => (s.(conns := s.conns[c := s.conns[c].(ready := Closing)]), [])
    case Close(c) => OnClose(s, c)
    case SocketError(_) => (s, [])
  }

  // ---------------------------------------------------------------------------
  // Properties of the step function

  /** Every map entry's socket belongs to a known connection, and no key
      appears twice. */
  predicate Inv(s: State) {
    && DistinctIds(s.users)
    && forall e :: e in s.users ==> e.conn in s.conns
  }

  lemma InitialInv()
    ensures Inv(Initial)
  {
  }

  lemma StepPreservesInv(s: State, ev: Event)
    requires Inv(s) && Admissible(s, ev)
    ensures Inv(Step(s, ev).0)
  {
    match ev
    case Message(c, f) =>
      if f.Join? {
        PutKeepsDistinct(s.users, Entry(JoinRecord(f), c));
      } else if (f.PositionFrame? || f.AvatarUpdateFrame?) && Sender(s, c).Some? {
        var e := Get(s.users, Sender(s, c).value).value;
        PutKeepsDistinct(s.users, e.(user := if f.PositionFrame?
                                             then e.user.(position := f.position, rotation := f.rotation)
                                             else e.user.(customization := f.customization)));
      }
    case _ =>
  }

  /** After a `join` the map holds exactly one entry for the id: this
      connection's, with the frame's fields. */
  lemma JoinLeavesOneEntry(s: State, c: ConnId, f: ClientFrame)
    requires Inv(s) && IsOpen(s.conns, c) && f.Join?
    ensures var users := Step(s, Message(c, f)).0.users;
            && DistinctIds(users)
            && Get(users, f.userId) == Some(Entry(JoinRecord(f), c))
            && forall i :: 0 <= i < |users| && users[i].user.id == f.userId ==>
                 users[i] == Entry(JoinRecord(f), c)
  {
    PutKeepsDistinct(s.users, Entry(JoinRecord(f), c));
  }

  /** Frames with no case in the `switch` (a `chat` frame, an `officeId`
      frame, anything unknown) and frames that do not parse change nothing and
      send nothing. */
  lemma UnhandledFramesAreIgnored(s: State, c: ConnId, f: ClientFrame)
    requires IsOpen(s.conns, c)
    requires f.ChatFrame? || f.OtherFrame? || f.Unparseable?
    ensures Step(s, Message(c, f)) == (s, [])
  {
  }

  /** The relay never sends chat or chat history. */
  lemma NoChatIsEverSent(s: State, ev: Event)
    requires Admissible(s, ev)
    ensures forall i :: 0 <= i < |Step(s, ev).1| ==> !IsChatMsg(Step(s, ev).1[i].1)
  {
  }

  /** No announcement goes back to its originator's id: a message sent by a
      broadcast reaches only entries under other ids. */
  lemma BroadcastSkipsOriginator(users: seq<Entry>, conns: map<ConnId, Conn>, msg: ServerMsg,
                                 k: string, c: ConnId)
    requires forall e :: e in users && e.conn == c ==> e.user.id == k
    ensures (c, msg) !in Broadcast(users, conns, msg, k)
  {
  }

  /** A second `join` on a connection under another id leaves the first
      entry in place. */
  lemma RejoinKeepsOldEntry(s: State, c: ConnId, f: ClientFrame, earlier: string)
    requires IsOpen(s.conns, c) && f.Join? && s.conns[c].bound == Some(earlier) && earlier != f.userId
    ensures Get(Step(s, Message(c, f)).0.users, earlier) == Get(s.users, earlier)
  {
  }

  /** Two connections joined under one id: the one that closes first deletes
      the shared entry, even though the other connection owns it. */
  lemma SharedIdFirstCloseDeletes(s: State, a: ConnId, b: ConnId, k: string)
    requires a in s.conns && s.conns[a].ready != Closed && s.conns[a].bound == Some(k) && k != ""
    requires Get(s.users, k).Some? && Get(s.users, k).value.conn == b && a != b
    ensures !Has(Step(s, Close(a)).0.users, k)
  {
  }

  /** A `join` under the empty id stores an entry that `close` never deletes,
      because the handler's `if (userId)` treats "" as absent. */
  lemma EmptyIdEntryOutlivesClose(s: State, c: ConnId, f: ClientFrame)
    requires IsOpen(s.conns, c) && f.Join? && f.userId == ""
    ensures var s1 := Step(s, Message(c, f)).0;
            var s2 := Step(s1, Close(c));
            Get(s2.0.users, "") == Some(Entry(JoinRecord(f), c)) && s2.1 == []
  {
  }

  /** A socket that two entries point to (a connection that joined under one
      id and then under another) receives every broadcast twice. */
  lemma SharedSocketGetsOneCopyPerEntry(a: AvatarData, b: AvatarData, c: ConnId, conns: map<ConnId, Conn>,
                                         msg: ServerMsg, exclude: string)
    requires IsOpen(conns, c) && a.id != exclude && b.id != exclude
    ensures Broadcast([Entry(a, c), Entry(b, c)], conns, msg, exclude) == [(c, msg), (c, msg)]
  {
    var users := [Entry(a, c), Entry(b, c)];
    assert users[1..] == [Entry(b, c)];
    assert users[1..][1..] == [];
  }
}
