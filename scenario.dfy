/**
 * The "Exam Cram" session, derived from the handlers' contracts alone: two
 * users share a room and its timer, and the room's invite code stops working
 * once both have gone. Each step is one handler call.
 */
module Scenario {
  import opened Wrappers
  import opened Members
  import opened SharedTimer
  import opened Rooms
  import opened Server

  const ALICE: Member := Member("alice", "Alice", IDLE, 0, None)
  const BOB: Member := Member("uuid-2", "Bob", IDLE, 0, Some("socket-b"))

  function Cram(members: seq<Member>, t: TimerState): RoomView
  {
    RoomView("room-1", "Exam Cram", "alice", "Alice", "ABC123", members, t)
  }

  /** Alice and Bob register; Alice creates "Exam Cram" with invite code ABC123. */
  method Open() returns (store: Store)
    ensures store.Valid() && fresh(store) && fresh(store.Repr) && store.order == ["room-1"]
    ensures store.View() == map["room-1" := Cram([ALICE], INITIAL_TIMER)]
    ensures "uuid-2" in store.users && store.users["uuid-2"].name == "Bob"
    ensures "alice" in store.users && store.users["alice"].currentRoom == Some("room-1")
    ensures store.users["alice"].name == "Alice"
  {
    store := new Store();
    var alice, ready := store.InitUser(Some("alice"), "uuid-1", "Alice", "socket-a");
    assert alice == "alice" && ready == [Emit(Sender, UserReady("alice"))];
    var bob, _ := store.InitUser(None, "uuid-2", "Bob", "socket-b");
    assert bob == "uuid-2";
    var created := store.CreateRoom(alice, "room-1", "Exam Cram", "ABC123");
    assert created[0] == Emit(Sender, RoomCreated("room-1", "ABC123", Cram([ALICE], INITIAL_TIMER)));
  }

  /** Bob joins with the code: both now see two members. */
  method BobJoins(store: Store)
    requires store.Valid() && store.order == ["room-1"]
    requires store.View() == map["room-1" := Cram([ALICE], INITIAL_TIMER)]
    requires "uuid-2" in store.users && store.users["uuid-2"].name == "Bob" && "alice" in store.users
    modifies store, store.Repr
    ensures store.Valid() && store.Repr == old(store.Repr) && store.order == ["room-1"]
    ensures store.users.Keys == old(store.users.Keys)
    ensures store.View() == map["room-1" := Cram([ALICE, BOB], INITIAL_TIMER)]
    ensures store.users["uuid-2"].currentRoom == Some("room-1")
    ensures store.users["alice"] == old(store.users["alice"])
  {
    assert store.rooms["room-1"].inviteCode == "ABC123" by {
      assert store.View()["room-1"].inviteCode == "ABC123";
    }
    assert store.FirstWithCode(0, "ABC123");
    assert Find([ALICE], "uuid-2") == None;
    assert Joined([ALICE], "uuid-2", "Bob", Some("socket-b")) == [ALICE, BOB];
    var joined := store.JoinRoom("uuid-2", "ABC123", "socket-b");
    assert joined[1] == Emit(RoomGroup("room-1"), MemberJoined("room-1", BOB, [ALICE, BOB]));
  }

  /** Alice starts a 1500 s work phase; Bob's client reports the first second. */
  method StartAndTick(store: Store)
    requires store.Valid() && store.order == ["room-1"]
    requires store.View() == map["room-1" := Cram([ALICE, BOB], INITIAL_TIMER)]
    requires "alice" in store.users && store.users["alice"].currentRoom == Some("room-1")
    requires "uuid-2" in store.users && store.users["uuid-2"].currentRoom == Some("room-1")
    requires store.users["alice"].name == "Alice"
    modifies store, store.Repr
    ensures store.Valid() && store.Repr == old(store.Repr) && store.order == ["room-1"]
    ensures store.users == old(store.users)
    ensures store.View() == map["room-1" := Cram([ALICE, BOB], TimerState(true, true, 1499, 1500))]
  {
    var started := store.StartTimer("alice", Some(1500), Some(true));
    assert started == [Emit(RoomGroup("room-1"), TimerStarted(TimerState(true, true, 1500, 1500), "Alice"))];
    var ticked := store.Tick("uuid-2", 1499);
    assert ticked == [Emit(RoomGroup("room-1"), TimerUpdate(TimerState(true, true, 1499, 1500)))];
  }

  /** Bob disconnects: Alice is told one member is left, and the room lives on. */
  method BobDisconnects(store: Store, t: TimerState)
    requires store.Valid() && store.order == ["room-1"]
    requires store.View() == map["room-1" := Cram([ALICE, BOB], t)]
    requires "uuid-2" in store.users && store.users["uuid-2"].currentRoom == Some("room-1")
    modifies store, store.Repr
    ensures store.Valid() && store.Repr == old(store.Repr) && store.order == ["room-1"]
    ensures store.View() == map["room-1" := Cram([ALICE], t)]
    ensures store.users == old(store.users) - {"uuid-2"}
  {
    assert Without([ALICE, BOB], "uuid-2") == [ALICE];
    var gone := store.Disconnect("uuid-2");
    assert gone == [Emit(RoomGroup("room-1"), MemberLeft("uuid-2", [ALICE]))];
  }

  /** Alice leaves: the room is deleted, and a newcomer's ABC123 is refused. */
  method AliceLeaves(store: Store, t: TimerState) returns (refused: seq<Emit>)
    requires store.Valid() && store.order == ["room-1"]
    requires store.View() == map["room-1" := Cram([ALICE], t)]
    requires "alice" in store.users && store.users["alice"].currentRoom == Some("room-1")
    modifies store, store.Repr
    ensures store.Valid() && store.rooms == map[] && store.order == []
    ensures refused == [Emit(Sender, Error(INVALID_CODE))]
  {
    assert Without([ALICE], "alice") == [];
    var left := store.LeaveRoom("alice");
    assert "room-1" !in store.rooms && store.order == Erase(["room-1"], "room-1");
    assert store.rooms == map[];
    var carol, _ := store.InitUser(Some("carol"), "uuid-3", "Carol", "socket-c");
    refused := store.JoinRoom(carol, "ABC123", "socket-c");
  }

  /** The whole session: the newcomer who tries ABC123 at the end is told the code is invalid. */
  method ExamCram() returns (refused: seq<Emit>)
    ensures refused == [Emit(Sender, Error(INVALID_CODE))]
  {
    var store := Open();
    BobJoins(store);
    StartAndTick(store);
    BobDisconnects(store, TimerState(true, true, 1499, 1500));
    refused := AliceLeaves(store, TimerState(true, true, 1499, 1500));
  }
}
