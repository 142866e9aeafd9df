/**
 * The server's in-memory state (server.js:21-22) and its socket handlers
 * (server.js:85-275), each run to completion as one method call that returns
 * the events it emits.
 */
module Server {
  import opened Wrappers
  import opened Members
  import opened SharedTimer
  import opened Rooms

  const INVALID_CODE: string := "Invalid invite code"

  /** A registered participant (server.js:26-35). */
  datatype User = User(
    id: UserId, name: string, socketId: Option<ConnId>, currentRoom: Option<RoomId>,
    status: Status, focusTime: int)

  /** Who an emitted event reaches: the calling socket, a room's group, or every socket. */
  datatype Audience = Sender | RoomGroup(roomId: RoomId) | Everyone

  datatype Event =
    | UserReady(userId: UserId)
    | RoomCreated(roomId: RoomId, inviteCode: string, room: RoomView)
    | RoomJoined(roomId: RoomId, room: RoomView)
    | MemberJoined(roomId: RoomId, member: Member, members: seq<Member>)
    | MemberLeft(userId: UserId, members: seq<Member>)
    | MemberStatus(userId: UserId, status: Status, members: seq<Member>)
    | TimerStarted(timerState: TimerState, startedBy: string)
    | TimerPaused(timerState: TimerState)
    | TimerUpdate(timerState: TimerState)
    | TimerFinished(timerState: TimerState)
    | RoomList(rooms: seq<RoomView>)
    | RoomListUpdated(rooms: seq<RoomView>)
    | Error(message: string)
      /** The handler threw reading a field of an unregistered user, before changing anything. */
    | Fault

  datatype Emit = Emit(to: Audience, event: Event)

  predicate NoDuplicates(s: seq<RoomId>)
  {
    forall i, j :: 0 <= i < j < |s| ==> s[i] != s[j]
  }

  /** `s` lists every key of the map exactly once. */
  ghost predicate Enumerates(s: seq<RoomId>, keys: set<RoomId>)
  {
    NoDuplicates(s) && forall x :: x in s <==> x in keys
  }

  /** The key order of a JavaScript Map after `delete(k)`. */
  function Erase(s: seq<RoomId>, k: RoomId): (r: seq<RoomId>)
    ensures forall x :: x in r <==> x in s && x != k
    ensures NoDuplicates(s) ==> NoDuplicates(r)
  {
    if s == [] then []
    else if s[0] == k then Erase(s[1..], k)
    else
      var rest := Erase(s[1..], k);
      assert NoDuplicates(s) ==> s[0] !in s[1..];
      [s[0]] + rest
  }

  /** Deleting a present key takes exactly that key out of the order and keeps the others in place. */
  lemma {:induction false} EraseAt(s: seq<RoomId>, i: nat)
    requires NoDuplicates(s) && i < |s|
    ensures Erase(s, s[i]) == s[..i] + s[i + 1..]
  {
    if i == 0 {
      EraseAbsent(s[1..], s[0]);
    } else {
      assert s[0] != s[i];
      assert s[1..][i - 1] == s[i];
      EraseAt(s[1..], i - 1);
      assert s[1..][..i - 1] == s[1..i];
      assert s[1..][i..] == s[i + 1..];
      assert [s[0]] + s[1..i] == s[..i];
    }
  }

  lemma {:induction false} EraseAbsent(s: seq<RoomId>, k: RoomId)
    requires k !in s
    ensures Erase(s, k) == s
  {
    if s != [] {
      EraseAbsent(s[1..], k);
      assert s == [s[0]] + s[1..];
    }
  }

  class Store {
    var users: map<UserId, User>
    var rooms: map<RoomId, StudyRoom>
    /** The insertion order of the keys of `rooms`, which every walk over the rooms follows. */
    var order: seq<RoomId>
    /** The room objects this store has allocated. */
    ghost var Repr: set<StudyRoom>

    /**
     * Every live room is stored under its own id, keeps distinct member ids and
     * has at least one member (an emptied room is deleted at once).
     */
    ghost predicate Valid()
      reads this`rooms, this`order, this`Repr, Repr
    {
      (forall k :: k in rooms ==>
         rooms[k] in Repr && rooms[k].id == k && rooms[k].Valid() && rooms[k].members != []) &&
      Enumerates(order, rooms.Keys)
    }

    /** Every live room's value, by id. */
    ghost function View(): map<RoomId, RoomView>
      reads this`rooms, this`order, this`Repr, Repr
      requires Valid()
    {
      map k | k in rooms :: rooms[k].View()
    }

    /** The values of the first n rooms in insertion order. */
    function ListingOf(n: nat): (r: seq<RoomView>)
      reads this`rooms, this`order, this`Repr, Repr
      requires Valid() && n <= |order|
      ensures |r| == n
      ensures forall i :: 0 <= i < n ==> r[i] == rooms[order[i]].View()
    {
      if n == 0 then [] else ListingOf(n - 1) + [rooms[order[n - 1]].View()]
    }

    /** Every live room, in creation order, each exactly once. */
    function Listing(): (r: seq<RoomView>)
      reads this`rooms, this`order, this`Repr, Repr
      requires Valid()
      ensures |r| == |order| == |rooms|
      ensures forall i :: 0 <= i < |r| ==> r[i] == rooms[order[i]].View() && r[i].id == order[i]
    {
      DistinctCard(order, rooms.Keys);
      ListingOf(|order|)
    }

    /** The user is registered and its current room is live. */
    predicate InLiveRoom(uid: UserId)
      reads this
    {
      uid in users && users[uid].currentRoom.Some? && users[uid].currentRoom.value in rooms
    }

    function RoomOf(uid: UserId): RoomId
      reads this
      requires InLiveRoom(uid)
    {
      users[uid].currentRoom.value
    }

    /** Position i of the insertion order holds the first live room whose code is exactly `code`. */
    predicate FirstWithCode(i: int, code: string)
      reads this
    {
      0 <= i < |order| && order[i] in rooms && rooms[order[i]].inviteCode == code &&
      forall j :: 0 <= j < i ==> order[j] in rooms && rooms[order[j]].inviteCode != code
    }

    /** True when no live room carries this invite code. */
    predicate NoRoomWithCode(code: string)
      reads this
    {
      forall k :: k in rooms ==> rooms[k].inviteCode != code
    }

    constructor ()
      ensures Valid() && fresh(Repr)
      ensures users == map[] && rooms == map[] && order == []
    {
      users, rooms, order := map[], map[], [];
      Repr := {};
    }

    /** Rooms other than k are distinct objects from rooms[k]. */
    lemma Separate(k: RoomId)
      requires Valid() && k in rooms
      ensures forall r :: r in rooms && r != k ==> rooms[r] != rooms[k]
    {
    }

    /** When only room k's fields changed, the store stays valid and only k's view moves. */
    twostate lemma OnlyRoomChanged(k: RoomId)
      requires old(Valid()) && k in old(rooms)
      requires rooms == old(rooms) && order == old(order) && Repr == old(Repr)
      requires forall r :: r in rooms && r != k ==> unchanged(rooms[r])
      requires rooms[k].Valid() && rooms[k].members != []
      ensures Valid()
      ensures View() == old(View())[k := rooms[k].View()]
    {
      forall r | r in rooms && r != k
        ensures rooms[r].Valid() == old(rooms[r].Valid()) && rooms[r].View() == old(rooms[r].View())
      {
      }
    }

    /** When room k was stored (fresh or replacing), and no older room changed, only k's view moves. */
    twostate lemma RoomAdded(k: RoomId)
      requires old(Valid())
      requires k in rooms && rooms == old(rooms)[k := rooms[k]] && Repr == old(Repr) + {rooms[k]}
      requires order == if k in old(rooms) then old(order) else old(order) + [k]
      requires forall r :: r in old(rooms) ==> unchanged(old(rooms)[r])
      requires rooms[k].id == k && rooms[k].Valid() && rooms[k].members != []
      ensures Valid()
      ensures View() == old(View())[k := rooms[k].View()]
    {
      forall r | r in rooms && r != k
        ensures rooms[r] == old(rooms[r]) && rooms[r] in Repr && rooms[r].id == r
        ensures rooms[r].Valid() && rooms[r].members != []
        ensures rooms[r].View() == old(rooms[r].View())
      {
        assert unchanged(old(rooms)[r]);
      }
      if k in old(rooms) {
        assert rooms.Keys == old(rooms).Keys;
      } else {
        Appended(old(order), old(rooms).Keys, k);
        assert rooms.Keys == old(rooms).Keys + {k};
      }
      assert Enumerates(order, rooms.Keys);
      assert Valid();
      var v, w := View(), old(View())[k := rooms[k].View()];
      assert v.Keys == w.Keys;
      forall r | r in v ensures v[r] == w[r] {
        if r != k {
          assert v[r] == rooms[r].View() == old(rooms[r].View()) == old(View())[r];
        }
      }
    }

    /** JavaScript's Map.set of a new key puts it last. */
    static lemma Appended(s: seq<RoomId>, keys: set<RoomId>, k: RoomId)
      requires Enumerates(s, keys) && k !in keys
      ensures Enumerates(s + [k], keys + {k})
    {
      var t := s + [k];
      forall i, j | 0 <= i < j < |t| ensures t[i] != t[j] {
        if j == |s| {
          assert t[i] == s[i] && s[i] in keys;
        } else {
          assert t[i] == s[i] && t[j] == s[j];
        }
      }
    }

    /** When room k left the map and the order, and no other room changed, only k's view is gone. */
    twostate lemma RoomDeleted(k: RoomId)
      requires old(Valid()) && k in old(rooms)
      requires rooms == old(rooms) - {k} && order == Erase(old(order), k) && Repr == old(Repr)
      requires forall r :: r in rooms ==> unchanged(rooms[r])
      ensures Valid()
      ensures View() == old(View()) - {k}
    {
      forall r | r in rooms
        ensures rooms[r] == old(rooms[r]) && rooms[r] in Repr && rooms[r].id == r
        ensures rooms[r].Valid() && rooms[r].members != []
        ensures rooms[r].View() == old(rooms[r].View())
      {
        assert unchanged(rooms[r]);
      }
      assert Enumerates(order, rooms.Keys) by {
        assert NoDuplicates(old(order));
        assert rooms.Keys == old(rooms).Keys - {k};
      }
      assert Valid();
      var v, w := View(), old(View()) - {k};
      assert v.Keys == w.Keys;
      forall r | r in v ensures v[r] == w[r] {
        assert v[r] == rooms[r].View() == old(rooms[r].View()) == old(View())[r];
      }
    }

    /** user:init (server.js:85-93): a falsy supplied id is replaced by the generated one. */
    method InitUser(supplied: Option<UserId>, generated: UserId, name: string, conn: ConnId)
      returns (userId: UserId, out: seq<Emit>)
      requires Valid()
      modifies this
      ensures Valid() && Repr == old(Repr)
      ensures userId == if supplied.Some? && supplied.value != "" then supplied.value else generated
      ensures users == old(users)[userId := User(userId, name, Some(conn), None, IDLE, 0)]
      ensures rooms == old(rooms) && order == old(order) && View() == old(View())
      ensures out == [Emit(Sender, UserReady(userId))]
    {
      userId := if supplied.Some? && supplied.value != "" then supplied.value else generated;
      var user := User(userId, name, None, None, IDLE, 0);
      user := user.(socketId := Some(conn));
      users := users[userId := user];
      out := [Emit(Sender, UserReady(userId))];
    }

    /** room:list (server.js:229-231): every live room, in creation order, sent back to the caller. */
    method ListRooms() returns (out: seq<Emit>)
      requires Valid()
      ensures out == [Emit(Sender, RoomList(Listing()))]
    {
      var list := [];
      var i := 0;
      while i < |order|
        invariant 0 <= i <= |order|
        invariant list == ListingOf(i)
      {
        list := list + [rooms[order[i]].View()];
        i := i + 1;
      }
      out := [Emit(Sender, RoomList(list))];
    }

    /** A duplicate-free enumeration of a set is as long as the set is large. */
    static lemma {:induction false} DistinctCard(s: seq<RoomId>, keys: set<RoomId>)
      requires Enumerates(s, keys)
      ensures |keys| == |s|
      decreases |s|
    {
      if s != [] {
        var last := s[|s| - 1];
        var init := s[..|s| - 1];
        assert forall x :: x in init <==> x in keys - {last} by {
          forall x ensures x in init <==> x in keys - {last} {
            if x in init {
              var i :| 0 <= i < |init| && init[i] == x;
              assert s[i] == x && i < |s| - 1;
            }
            if x in keys - {last} {
              assert x in s;
              var i :| 0 <= i < |s| && s[i] == x;
              assert i != |s| - 1;
              assert init[i] == x;
            }
          }
        }
        DistinctCard(init, keys - {last});
      }
    }

    /** room:create (server.js:96-118). */
    method CreateRoom(uid: UserId, roomId: RoomId, roomName: string, code: string) returns (out: seq<Emit>)
      requires Valid()
      modifies this
      ensures Valid() && fresh(Repr - old(Repr))
      ensures uid !in old(users) ==>
        out == [Emit(Sender, Fault)] && users == old(users) && rooms == old(rooms) && order == old(order) &&
        Repr == old(Repr)
      ensures uid in old(users) ==>
        var creator := old(users[uid]);
        var room := RoomView(roomId, roomName, uid, creator.name, code, [Member(uid, creator.name, IDLE, 0, None)], INITIAL_TIMER);
        roomId in rooms && fresh(rooms[roomId]) &&
        View() == old(View())[roomId := room] &&
        order == (if roomId in old(rooms) then old(order) else old(order) + [roomId]) &&
        users == old(users)[uid := creator.(currentRoom := Some(roomId))] &&
        out == [Emit(Sender, RoomCreated(roomId, code, room)), Emit(Everyone, RoomListUpdated(Listing()))]
    {
      if uid !in users {
        out := [Emit(Sender, Fault)];
        return;
      }
      var user := users[uid];
      var room := new StudyRoom(roomId, roomName, uid, user.name, code);
      if roomId !in rooms {
        order := order + [roomId];
      }
      rooms := rooms[roomId := room];
      Repr := Repr + {room};
      RoomAdded(roomId);
      users := users[uid := user.(currentRoom := Some(roomId))];
      out := [Emit(Sender, RoomCreated(roomId, code, room.View())), Emit(Everyone, RoomListUpdated(Listing()))];
    }

    /** The walk over the rooms in insertion order that stops at the first code match (server.js:127-132). */
    method FindByCode(code: string) returns (i: nat)
      requires Valid()
      ensures i <= |order|
      ensures i < |order| ==> FirstWithCode(i, code)
      ensures i == |order| <==> NoRoomWithCode(code)
    {
      i := 0;
      while i < |order|
        invariant i <= |order|
        invariant forall j :: 0 <= j < i ==> rooms[order[j]].inviteCode != code
      {
        if rooms[order[i]].inviteCode == code {
          return;
        }
        i := i + 1;
      }
      forall k | k in rooms ensures rooms[k].inviteCode != code {
        assert k in order;
      }
    }

    /** room:join (server.js:121-159). */
    method JoinRoom(uid: UserId, code: string, conn: ConnId) returns (out: seq<Emit>)
      requires Valid()
      modifies this, Repr
      ensures Valid() && Repr == old(Repr) && rooms == old(rooms) && order == old(order)
      ensures NoRoomWithCode(code) ==>
        out == [Emit(Sender, Error(INVALID_CODE))] && users == old(users) && View() == old(View())
      ensures forall i :: FirstWithCode(i, code) && uid !in old(users) ==>
        out == [Emit(Sender, Fault)] && users == old(users) && View() == old(View())
      ensures forall i :: FirstWithCode(i, code) && uid in old(users) ==>
        var k := order[i];
        var name := old(users[uid].name);
        var joined := Joined(old(View()[k].members), uid, name, Some(conn));
        users == old(users)[uid := old(users[uid]).(currentRoom := Some(k))] &&
        View() == old(View())[k := old(View()[k]).(members := joined)] &&
        out == [Emit(Sender, RoomJoined(k, View()[k])),
                Emit(RoomGroup(k), MemberJoined(k, NewMember(uid, name, Some(conn)), joined))]
    {
      var i := FindByCode(code);
      if i == |order| {
        out := [Emit(Sender, Error(INVALID_CODE))];
        return;
      }
      FirstUnique(i, code);
      if uid !in users {
        out := [Emit(Sender, Fault)];
        return;
      }
      var room := rooms[order[i]];
      var user := users[uid];
      users := users[uid := user.(currentRoom := Some(room.id))];
      Separate(room.id);
      room.AddMember(uid, user.name, Some(conn));
      OnlyRoomChanged(room.id);
      out := [Emit(Sender, RoomJoined(room.id, room.View())),
              Emit(RoomGroup(room.id), MemberJoined(room.id, NewMember(uid, user.name, Some(conn)), room.members))];
    }

    /** Only one position can be the first match. */
    lemma FirstUnique(i: nat, code: string)
      requires FirstWithCode(i, code)
      ensures forall j :: FirstWithCode(j, code) ==> j == i
    {
    }

    /** timer:start (server.js:162-178). */
    method StartTimer(uid: UserId, duration: Option<int>, isWorkSession: Option<bool>) returns (out: seq<Emit>)
      requires Valid()
      modifies this, Repr
      ensures Valid() && Repr == old(Repr) && rooms == old(rooms) && order == old(order) && users == old(users)
      ensures uid !in old(users) ==> out == [Emit(Sender, Fault)] && View() == old(View())
      ensures uid in old(users) && !old(InLiveRoom(uid)) ==> out == [] && View() == old(View())
      ensures old(InLiveRoom(uid)) ==>
        var k := old(RoomOf(uid));
        var t := Started(duration, isWorkSession);
        View() == old(View())[k := old(View()[k]).(timerState := t)] &&
        out == [Emit(RoomGroup(k), TimerStarted(t, users[uid].name))]
    {
      if uid !in users {
        out := [Emit(Sender, Fault)];
        return;
      }
      var user := users[uid];
      if user.currentRoom.None? || user.currentRoom.value !in rooms {
        out := [];
        return;
      }
      var room := rooms[user.currentRoom.value];
      Separate(room.id);
      var t := room.timerState;
      t := t.(isRunning := true);
      t := t.(isWorkSession := if isWorkSession.Some? then isWorkSession.value else true);
      t := t.(totalTime := if duration.Some? && duration.value != 0 then duration.value
                           else if t.isWorkSession then 30 * 60 else 5 * 60);
      t := t.(timeRemaining := t.totalTime);
      room.timerState := t;
      OnlyRoomChanged(room.id);
      out := [Emit(RoomGroup(room.id), TimerStarted(room.timerState, user.name))];
    }

    /** timer:pause (server.js:181-190). */
    method PauseTimer(uid: UserId) returns (out: seq<Emit>)
      requires Valid()
      modifies this, Repr
      ensures Valid() && Repr == old(Repr) && rooms == old(rooms) && order == old(order) && users == old(users)
      ensures uid !in old(users) ==> out == [Emit(Sender, Fault)] && View() == old(View())
      ensures uid in old(users) && !old(InLiveRoom(uid)) ==> out == [] && View() == old(View())
      ensures old(InLiveRoom(uid)) ==>
        var k := old(RoomOf(uid));
        var t := Paused(old(View()[k].timerState));
        View() == old(View())[k := old(View()[k]).(timerState := t)] &&
        out == [Emit(RoomGroup(k), TimerPaused(t))]
    {
      if uid !in users {
        out := [Emit(Sender, Fault)];
        return;
      }
      var user := users[uid];
      if user.currentRoom.None? || user.currentRoom.value !in rooms {
        out := [];
        return;
      }
      var room := rooms[user.currentRoom.value];
      Separate(room.id);
      room.timerState := room.timerState.(isRunning := false);
      OnlyRoomChanged(room.id);
      out := [Emit(RoomGroup(room.id), TimerPaused(room.timerState))];
    }

    /** timer:tick (server.js:193-208): the reported value is stored as is. */
    method Tick(uid: UserId, reported: int) returns (out: seq<Emit>)
      requires Valid()
      modifies this, Repr
      ensures Valid() && Repr == old(Repr) && rooms == old(rooms) && order == old(order) && users == old(users)
      ensures uid !in old(users) ==> out == [Emit(Sender, Fault)] && View() == old(View())
      ensures uid in old(users) && !old(InLiveRoom(uid)) ==> out == [] && View() == old(View())
      ensures old(InLiveRoom(uid)) ==>
        var k := old(RoomOf(uid));
        var (t, outcome) := Ticked(old(View()[k].timerState), reported);
        View() == old(View())[k := old(View()[k]).(timerState := t)] &&
        out == [Emit(RoomGroup(k), if outcome == Finished then TimerFinished(t) else TimerUpdate(t))]
    {
      if uid !in users {
        out := [Emit(Sender, Fault)];
        return;
      }
      var user := users[uid];
      if user.currentRoom.None? || user.currentRoom.value !in rooms {
        out := [];
        return;
      }
      var room := rooms[user.currentRoom.value];
      Separate(room.id);
      var t := room.timerState.(timeRemaining := reported);
      if t.timeRemaining <= 0 {
        t := t.(isRunning := false);
        room.timerState := t;
        out := [Emit(RoomGroup(room.id), TimerFinished(t))];
      } else {
        room.timerState := t;
        out := [Emit(RoomGroup(room.id), TimerUpdate(t))];
      }
      OnlyRoomChanged(room.id);
    }

    /** status:update (server.js:211-226). */
    method UpdateStatus(uid: UserId, status: Status) returns (out: seq<Emit>)
      requires Valid()
      modifies this, Repr
      ensures Valid() && Repr == old(Repr) && rooms == old(rooms) && order == old(order)
      ensures uid !in old(users) ==> out == [Emit(Sender, Fault)] && users == old(users) && View() == old(View())
      ensures uid in old(users) && !old(InLiveRoom(uid)) ==>
        out == [] && users == old(users) && View() == old(View())
      ensures old(InLiveRoom(uid)) ==>
        var k := old(RoomOf(uid));
        var ms := WithStatus(old(View()[k].members), uid, status);
        users == old(users)[uid := old(users[uid]).(status := status)] &&
        View() == old(View())[k := old(View()[k]).(members := ms)] &&
        out == [Emit(RoomGroup(k), MemberStatus(uid, status, ms))]
    {
      if uid !in users {
        out := [Emit(Sender, Fault)];
        return;
      }
      var user := users[uid];
      if user.currentRoom.None? || user.currentRoom.value !in rooms {
        out := [];
        return;
      }
      var room := rooms[user.currentRoom.value];
      users := users[uid := user.(status := status)];
      Separate(room.id);
      room.UpdateMemberStatus(uid, status);
      OnlyRoomChanged(room.id);
      out := [Emit(RoomGroup(room.id), MemberStatus(uid, status, room.members))];
    }

    /**
     * What removing uid from live room k did: the departure is broadcast with
     * the remaining members, and the room is deleted (from the map and from the
     * order) exactly when none remain; otherwise only its member list changed.
     */
    twostate predicate Dropped(k: RoomId, uid: UserId, out: seq<Emit>)
      reads this`rooms, this`order, this`Repr, Repr
      requires old(Valid()) && k in old(rooms) && Valid()
    {
      var left := Without(old(View()[k].members), uid);
      out == [Emit(RoomGroup(k), MemberLeft(uid, left))] &&
      (k !in rooms <==> left == []) &&
      (left == [] ==> View() == old(View()) - {k} && order == Erase(old(order), k)) &&
      (left != [] ==> View() == old(View())[k := old(View()[k]).(members := left)] && order == old(order))
    }

    /**
     * Removes uid from room k, broadcasts the departure and deletes the room
     * once nobody is left (server.js:240-251 and 263-270).
     */
    method DropMember(k: RoomId, uid: UserId) returns (out: seq<Emit>)
      requires Valid() && k in rooms
      modifies this, Repr
      ensures Valid() && Repr == old(Repr) && users == old(users)
      ensures Dropped(k, uid, out)
    {
      var room := rooms[k];
      Separate(k);
      room.RemoveMember(uid);
      out := [Emit(RoomGroup(k), MemberLeft(uid, room.members))];
      if |room.members| == 0 {
        rooms := rooms - {k};
        order := Erase(order, k);
        RoomDeleted(k);
      } else {
        OnlyRoomChanged(k);
      }
    }

    /** room:leave (server.js:234-255): the user always ends up in no room. */
    method LeaveRoom(uid: UserId) returns (out: seq<Emit>)
      requires Valid()
      modifies this, Repr
      ensures Valid() && Repr == old(Repr)
      ensures uid !in old(users) ==>
        out == [Emit(Sender, Fault)] && users == old(users) && order == old(order) && View() == old(View())
      ensures uid in old(users) ==> users == old(users)[uid := old(users[uid]).(currentRoom := None)]
      ensures uid in old(users) && !old(InLiveRoom(uid)) ==>
        out == [] && order == old(order) && View() == old(View())
      ensures old(InLiveRoom(uid)) ==> Dropped(old(RoomOf(uid)), uid, out)
    {
      if uid !in users {
        out := [Emit(Sender, Fault)];
        return;
      }
      var user := users[uid];
      out := [];
      if user.currentRoom.Some? && user.currentRoom.value in rooms {
        out := DropMember(user.currentRoom.value, uid);
      }
      users := users[uid := user.(currentRoom := None)];
    }

    /**
     * disconnect (server.js:258-275): leaves a live current room as room:leave
     * does, then forgets the user. An unregistered connection changes nothing.
     */
    method Disconnect(uid: UserId) returns (out: seq<Emit>)
      requires Valid()
      modifies this, Repr
      ensures Valid() && Repr == old(Repr)
      ensures users == old(users) - {uid}
      ensures !(old(InLiveRoom(uid)) && old(RoomOf(uid)) != "") ==>
        out == [] && order == old(order) && View() == old(View())
      ensures old(InLiveRoom(uid)) && old(RoomOf(uid)) != "" ==> Dropped(old(RoomOf(uid)), uid, out)
    {
      out := [];
      if uid in users {
        var user := users[uid];
        if user.currentRoom.Some? && user.currentRoom.value != "" && user.currentRoom.value in rooms {
          out := DropMember(user.currentRoom.value, uid);
        }
      }
      users := users - {uid};
    }
  }
}
