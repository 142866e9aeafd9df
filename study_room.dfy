/** The `StudyRoom` class (server.js:38-78). */
module Rooms {
  import opened Wrappers
  import opened Members
  import opened SharedTimer

  type RoomId = string

  /** The value of a room at one moment: what the server broadcasts and lists. */
  datatype RoomView = RoomView(
    id: RoomId, name: string, creatorId: UserId, creatorName: string, inviteCode: string,
    members: seq<Member>, timerState: TimerState)

  class StudyRoom {
    const id: RoomId
    const name: string
    const creatorId: UserId
    const creatorName: string
    /** Drawn at random by the constructor in the source; given here by the caller. */
    const inviteCode: string
    var members: seq<Member>
    var timerState: TimerState

    /** addMember never duplicates an id, and removeMember only drops entries. */
    ghost predicate Valid()
      reads this
    {
      DistinctIds(members)
    }

    function View(): RoomView
      reads this
    {
      RoomView(id, name, creatorId, creatorName, inviteCode, members, timerState)
    }

    /** A room whose only member is its creator, idle and not yet connected, with the default timer. */
    constructor (id: RoomId, name: string, creatorId: UserId, creatorName: string, inviteCode: string)
      ensures Valid()
      ensures View() == RoomView(id, name, creatorId, creatorName, inviteCode,
                                 [Member(creatorId, creatorName, IDLE, 0, None)], INITIAL_TIMER)
    {
      this.id := id;
      this.name := name;
      this.creatorId := creatorId;
      this.creatorName := creatorName;
      this.members := [Member(creatorId, creatorName, IDLE, 0, None)];
      this.timerState := TimerState(false, true, 30 * 60, 30 * 60);
      this.inviteCode := inviteCode;
    }

    /** Idempotent join: an existing member only gets the new connection handle. */
    method AddMember(userId: UserId, userName: string, socketId: Option<ConnId>)
      requires Valid()
      modifies this
      ensures Valid()
      ensures members == Joined(old(members), userId, userName, socketId)
      ensures HasMember(members, userId)
      ensures timerState == old(timerState)
    {
      JoinedOnce(members, userId, userName, socketId);
      match Find(members, userId)
      case None =>
        members := members + [Member(userId, userName, IDLE, 0, socketId)];
      case Some(i) =>
        var member := members[i];
        members := members[i := member.(socketId := socketId)];
    }

    method RemoveMember(userId: UserId)
      requires Valid()
      modifies this
      ensures Valid()
      ensures members == Without(old(members), userId)
      ensures !HasMember(members, userId)
      ensures timerState == old(timerState)
    {
      WithoutDistinct(members, userId);
      members := Without(members, userId);
    }

    /** Sets the status of the member with this id, if there is one. */
    method UpdateMemberStatus(userId: UserId, status: Status)
      requires Valid()
      modifies this
      ensures Valid()
      ensures members == WithStatus(old(members), userId, status)
      ensures timerState == old(timerState)
    {
      WithStatusEffect(members, userId, status);
      match Find(members, userId)
      case None =>
      case Some(i) =>
        var member := members[i];
        members := members[i := member.(status := status)];
    }
  }
}
