/**
 * The member list of a study room (server.js:44, 55-77), as values: the
 * specification of StudyRoom.addMember, removeMember and updateMemberStatus.
 */
module Members {
  import opened Wrappers

  type UserId = string
  type ConnId = string
  /** Presence status exactly as the client sent it; the server stores any string. */
  type Status = string

  const IDLE: Status := "idle"

  /** One entry of `room.members`; `socketId` is null for the creator (server.js:44). */
  datatype Member = Member(id: UserId, name: string, status: Status, focusTime: int, socketId: Option<ConnId>)

  predicate HasMember(ms: seq<Member>, id: UserId)
  {
    exists i :: 0 <= i < |ms| && ms[i].id == id
  }

  predicate DistinctIds(ms: seq<Member>)
  {
    forall i, j :: 0 <= i < j < |ms| ==> ms[i].id != ms[j].id
  }

  /** Where the search of the member list by id stops: the first member with that id, if any. */
  function Find(ms: seq<Member>, id: UserId): (r: Option<nat>)
    ensures r.None? <==> !HasMember(ms, id)
    ensures r.Some? ==> r.value < |ms| && ms[r.value].id == id
    ensures r.Some? ==> forall j :: 0 <= j < r.value ==> ms[j].id != id
  {
    if ms == [] then None
    else if ms[0].id == id then Some(0)
    else
      var rest := Find(ms[1..], id);
      assert HasMember(ms, id) ==> HasMember(ms[1..], id) by {
        if HasMember(ms, id) {
          var i :| 0 <= i < |ms| && ms[i].id == id;
          assert ms[1..][i - 1].id == id;
        }
      }
      assert rest.Some? ==> ms[rest.value + 1] == ms[1..][rest.value];
      match rest
      case None => None
      case Some(k) => Some(k + 1)
  }

  /** The member record addMember appends for a newcomer (server.js:57-63). */
  function NewMember(id: UserId, name: string, sock: Option<ConnId>): (m: Member)
    ensures m.id == id && m.status == IDLE && m.focusTime == 0
  {
    Member(id, name, IDLE, 0, sock)
  }

  /**
   * The member list after addMember(id, name, sock): a member already present
   * only gets the new connection handle; otherwise one idle member with no focus
   * time is appended.
   */
  function Joined(ms: seq<Member>, id: UserId, name: string, sock: Option<ConnId>): (r: seq<Member>)
    ensures HasMember(r, id)
    ensures |r| == if HasMember(ms, id) then |ms| else |ms| + 1
    ensures forall j :: 0 <= j < |ms| ==> r[j].id == ms[j].id
  {
    match Find(ms, id)
    case None =>
      var r := ms + [NewMember(id, name, sock)];
      assert r[|ms|].id == id;
      r
    case Some(i) =>
      var r := ms[i := ms[i].(socketId := sock)];
      assert r[i].id == id;
      r
  }

  /** The member list after removeMember: every member whose id differs, in order. */
  function Without(ms: seq<Member>, id: UserId): (r: seq<Member>)
    ensures |r| <= |ms|
    ensures !HasMember(r, id)
    ensures forall m :: m in r ==> m in ms
    ensures forall m :: m in ms && m.id != id ==> m in r
  {
    if ms == [] then []
    else if ms[0].id == id then Without(ms[1..], id)
    else [ms[0]] + Without(ms[1..], id)
  }

  /** The member list after updateMemberStatus(id, status): only the found member's status is set. */
  function WithStatus(ms: seq<Member>, id: UserId, status: Status): (r: seq<Member>)
    ensures |r| == |ms| && forall j :: 0 <= j < |ms| ==> r[j].id == ms[j].id
    ensures !HasMember(ms, id) ==> r == ms
    ensures HasMember(ms, id) ==> exists j :: 0 <= j < |r| && r[j].id == id && r[j].status == status
  {
    match Find(ms, id)
    case None => ms
    case Some(i) => ms[i := ms[i].(status := status)]
  }

  /** Adding a member who is already present changes no entry but that member's connection handle. */
  lemma JoinedPresent(ms: seq<Member>, id: UserId, name: string, sock: Option<ConnId>)
    requires DistinctIds(ms) && HasMember(ms, id)
    ensures var r := Joined(ms, id, name, sock);
      |r| == |ms| &&
      (forall j :: 0 <= j < |ms| ==> r[j].id == ms[j].id && r[j].name == ms[j].name &&
                                     r[j].status == ms[j].status && r[j].focusTime == ms[j].focusTime) &&
      (forall j :: 0 <= j < |ms| ==> r[j].socketId == if ms[j].id == id then sock else ms[j].socketId)
  {
  }

  /** Adding a member who is absent appends exactly one idle member, at the end. */
  lemma JoinedAbsent(ms: seq<Member>, id: UserId, name: string, sock: Option<ConnId>)
    requires !HasMember(ms, id)
    ensures Joined(ms, id, name, sock) == ms + [Member(id, name, IDLE, 0, sock)]
  {
  }

  /** After addMember the id is present exactly once: it is there and ids stay distinct. */
  lemma JoinedOnce(ms: seq<Member>, id: UserId, name: string, sock: Option<ConnId>)
    requires DistinctIds(ms)
    ensures DistinctIds(Joined(ms, id, name, sock))
    ensures HasMember(Joined(ms, id, name, sock), id)
  {
    var r := Joined(ms, id, name, sock);
    match Find(ms, id)
    case None =>
      assert r[|ms|].id == id;
    case Some(i) =>
      assert r[i].id == id;
      assert forall j :: 0 <= j < |ms| ==> r[j].id == ms[j].id;
  }

  /** Joining twice with the same id and connection is the same as joining once. */
  lemma JoinedIdempotent(ms: seq<Member>, id: UserId, name: string, name': string, sock: Option<ConnId>)
    ensures Joined(Joined(ms, id, name, sock), id, name', sock) == Joined(ms, id, name, sock)
  {
    var r := Joined(ms, id, name, sock);
    match Find(ms, id)
    case None =>
      assert forall j :: 0 <= j < |ms| ==> r[j].id == ms[j].id != id;
      assert r[|ms|].id == id;
      assert Find(r, id) == Some(|ms|);
    case Some(i) =>
      assert forall j :: 0 <= j < |ms| ==> r[j].id == ms[j].id;
      assert Find(r, id) == Some(i);
  }

  /** With distinct ids, removing the member at k removes exactly that entry and keeps the others in order. */
  lemma {:induction false} WithoutAt(ms: seq<Member>, id: UserId, k: nat)
    requires DistinctIds(ms) && k < |ms| && ms[k].id == id
    ensures Without(ms, id) == ms[..k] + ms[k + 1..]
  {
    var tail := ms[1..];
    TailDistinct(ms);
    if k == 0 {
      assert !HasMember(tail, id) by {
        forall i | 0 <= i < |tail| ensures tail[i].id != id {
          assert tail[i] == ms[i + 1];
        }
      }
      WithoutAbsent(tail, id);
    } else {
      assert ms[0].id != id;
      assert tail[k - 1] == ms[k];
      WithoutAt(tail, id, k - 1);
      ConsSlices(ms, k);
    }
  }

  lemma TailDistinct(ms: seq<Member>)
    requires DistinctIds(ms) && ms != []
    ensures DistinctIds(ms[1..])
  {
    var tail := ms[1..];
    forall i, j | 0 <= i < j < |tail| ensures tail[i].id != tail[j].id {
      assert tail[i] == ms[i + 1] && tail[j] == ms[j + 1];
    }
  }

  /** Cutting position k out of a list is its head followed by cutting k - 1 out of its tail. */
  lemma ConsSlices(ms: seq<Member>, k: nat)
    requires 0 < k < |ms|
    ensures [ms[0]] + (ms[1..][..k - 1] + ms[1..][k..]) == ms[..k] + ms[k + 1..]
  {
    assert ms[1..][..k - 1] == ms[1..k];
    assert ms[1..][k..] == ms[k + 1..];
    assert [ms[0]] + ms[1..k] == ms[..k];
  }

  /** Removing an id that is not present leaves the list as it was. */
  lemma {:induction false} WithoutAbsent(ms: seq<Member>, id: UserId)
    requires !HasMember(ms, id)
    ensures Without(ms, id) == ms
  {
    if ms != [] {
      assert ms[0].id != id;
      WithoutAbsent(ms[1..], id);
      assert ms == [ms[0]] + ms[1..];
    }
  }

  /** removeMember keeps member ids distinct. */
  lemma {:induction false} WithoutDistinct(ms: seq<Member>, id: UserId)
    requires DistinctIds(ms)
    ensures DistinctIds(Without(ms, id))
  {
    if ms != [] {
      var tail := ms[1..];
      TailDistinct(ms);
      WithoutDistinct(tail, id);
      if ms[0].id != id {
        var rest := Without(tail, id);
        var r := [ms[0]] + rest;
        forall i, j | 0 <= i < j < |r| ensures r[i].id != r[j].id {
          if i == 0 {
            assert r[j] == rest[j - 1] && rest[j - 1] in tail;
            var t :| 0 <= t < |tail| && tail[t] == rest[j - 1];
            assert tail[t] == ms[t + 1];
          } else {
            assert r[i] == rest[i - 1] && r[j] == rest[j - 1];
          }
        }
      }
    }
  }

  /**
   * updateMemberStatus: the list keeps its length and ids, only the found member's
   * status changes; with distinct ids every member with that id gets the status,
   * and an absent id changes nothing.
   */
  lemma WithStatusEffect(ms: seq<Member>, id: UserId, status: Status)
    requires DistinctIds(ms)
    ensures var r := WithStatus(ms, id, status);
      |r| == |ms| && DistinctIds(r) &&
      (forall j :: 0 <= j < |ms| && ms[j].id != id ==> r[j] == ms[j]) &&
      (forall j :: 0 <= j < |ms| && ms[j].id == id ==> r[j] == ms[j].(status := status)) &&
      (!HasMember(ms, id) ==> r == ms)
  {
    var r := WithStatus(ms, id, status);
    assert forall j :: 0 <= j < |ms| ==> r[j].id == ms[j].id;
  }
}
