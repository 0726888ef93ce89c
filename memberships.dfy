/** Memberships and join requests (memberships/models.py): who belongs to
  * which room with which role, and the queries the views run over them. */
module Memberships {
  import opened Common
  import opened Roles
  import opened Rooms

  /** A membership's slug is unique; the model uses it as the identity. */
  type MemberId = nat

  datatype Membership = Membership(id: MemberId, user: UserId, room: RoomId, role: Role)

  /** A pending request of `user` to join `room`. */
  datatype MemberRequest = MemberRequest(slug: nat, user: UserId, room: RoomId)

  function RoomIs(room: RoomId): Membership -> bool
  {
    (m: Membership) => m.room == room
  }

  function MaintainerIn(room: RoomId): Membership -> bool
  {
    (m: Membership) => m.room == room && IsMaintainerRole(m.role)
  }

  /** `Membership.objects.filter(room=room)`. */
  function RoomMembers(ms: seq<Membership>, room: RoomId): (r: seq<Membership>)
    ensures forall m :: m in r <==> m in ms && m.room == room
  {
    Filter(ms, RoomIs(room))
  }

  function MemberCount(ms: seq<Membership>, room: RoomId): nat
  {
    |RoomMembers(ms, room)|
  }

  /** Members of `room` with role 1 or 2. */
  function Maintainers(ms: seq<Membership>, room: RoomId): (r: seq<Membership>)
    ensures forall m :: m in r <==> m in ms && m.room == room && IsMaintainerRole(m.role)
  {
    Filter(ms, MaintainerIn(room))
  }

  /** The `maintainers_count` of the room detail page. */
  function MaintainerCount(ms: seq<Membership>, room: RoomId): (n: nat)
    ensures n <= MemberCount(ms, room)
  {
    FilterStronger(ms, MaintainerIn(room), RoomIs(room));
    |Maintainers(ms, room)|
  }

  /** `user.membership`, when the user has one. */
  function MembershipOf(ms: seq<Membership>, user: UserId): (r: Option<Membership>)
    ensures r.Some? <==> exists m :: m in ms && m.user == user
    ensures r.Some? ==> r.value in ms && r.value.user == user
  {
    if ms == [] then None
    else if ms[0].user == user then Some(ms[0])
    else MembershipOf(ms[1..], user)
  }

  /** `Membership.objects.get(slug=...)`. */
  function MembershipWithId(ms: seq<Membership>, id: MemberId): (r: Option<Membership>)
    ensures r.Some? <==> exists m :: m in ms && m.id == id
    ensures r.Some? ==> r.value in ms && r.value.id == id
  {
    if ms == [] then None
    else if ms[0].id == id then Some(ms[0])
    else MembershipWithId(ms[1..], id)
  }

  function RequestOf(rs: seq<MemberRequest>, user: UserId): (r: Option<MemberRequest>)
    ensures r.Some? <==> exists q :: q in rs && q.user == user
    ensures r.Some? ==> r.value in rs && r.value.user == user
  {
    if rs == [] then None
    else if rs[0].user == user then Some(rs[0])
    else RequestOf(rs[1..], user)
  }

  /** The user column is one-to-one. */
  predicate OneMembershipPerUser(ms: seq<Membership>)
  {
    forall i, j | 0 <= i < j < |ms| :: ms[i].user != ms[j].user
  }

  /** The slug column is unique. */
  predicate UniqueMemberIds(ms: seq<Membership>)
  {
    forall i, j | 0 <= i < j < |ms| :: ms[i].id != ms[j].id
  }

  predicate OneRequestPerUser(rs: seq<MemberRequest>)
  {
    forall i, j | 0 <= i < j < |rs| :: rs[i].user != rs[j].user
  }

  /** Under the one-to-one constraint `user.membership` is THE membership of
    * the user: any membership row of that user is the one found. */
  /** With one membership per user, every membership is the one its user
    * finds. */
  lemma OwnMembership(ms: seq<Membership>)
    ensures OneMembershipPerUser(ms) ==> forall m | m in ms :: MembershipOf(ms, m.user) == Some(m)
  {
    if OneMembershipPerUser(ms) {
      forall m | m in ms ensures MembershipOf(ms, m.user) == Some(m) {
        MembershipOfIsUnique(ms, m);
      }
    }
  }

  lemma {:induction false} MembershipOfIsUnique(ms: seq<Membership>, m: Membership)
    requires OneMembershipPerUser(ms)
    requires m in ms
    ensures MembershipOf(ms, m.user) == Some(m)
  {
    if ms[0] != m {
      assert ms[0].user != m.user by {
        var k :| 0 <= k < |ms| && ms[k] == m;
        assert k != 0;
      }
      assert OneMembershipPerUser(ms[1..]) by {
        forall i, j | 0 <= i < j < |ms[1..]| ensures ms[1..][i].user != ms[1..][j].user {
          assert ms[1..][i] == ms[i + 1] && ms[1..][j] == ms[j + 1];
        }
      }
      assert m in ms[1..];
      MembershipOfIsUnique(ms[1..], m);
    }
  }
}
