/** Rooms and memberships as rooms/views.py and memberships/views.py change
  * them: room creation and its `post_save` receivers, creator-only room
  * changes, room deletion, join requests and their confirmation, and role
  * changes under the six-maintainer cap. Every room keeps at most 15
  * members and at most 6 maintainers. */
module Directory {
  import opened Common
  import opened Roles
  import opened Rooms
  import opened Memberships
  import opened Notifications
  import opened RoomForms
  import Allocation
  import TrackerModels

  const MaxMembers := 15
  const MaxMaintainers := 6

  /** Why a view refused. */
  datatype Why =
    | NoSuchRoom | NoSuchRequest | NoSuchMember | NoMembership | NoSetting
    | RoomFull | HasRequest | IsMember | IsCreator | BadTitle(error: FormError) | BadDescription
    | TooManyMaintainers | NotAllowed | InvalidChoice

  datatype Verdict = Done | Refused(why: Why)

  // ------------------------------------------------------------ preconditions

  predicate CreatedARoom(rooms: seq<Room>, user: UserId)
  {
    exists x | x in rooms :: x.creator.id == user
  }

  /** `RoomCreateView.form_valid`: the user already created a room, is
    * already a member, or has a pending request, tested in that order. */
  function CreateRoomGate(rooms: seq<Room>, ms: seq<Membership>, rs: seq<MemberRequest>, user: UserId): (r: Option<Why>)
    ensures r == Some(IsCreator) <==> CreatedARoom(rooms, user)
    ensures r == Some(IsMember) <==> !CreatedARoom(rooms, user) && MembershipOf(ms, user).Some?
    ensures r == Some(HasRequest) <==>
            !CreatedARoom(rooms, user) && MembershipOf(ms, user).None? && RequestOf(rs, user).Some?
    ensures r.None? <==> !CreatedARoom(rooms, user) && MembershipOf(ms, user).None? && RequestOf(rs, user).None?
  {
    if CreatedARoom(rooms, user) then Some(IsCreator)
    else if MembershipOf(ms, user).Some? then Some(IsMember)
    else if RequestOf(rs, user).Some? then Some(HasRequest)
    else None
  }

  /** `member_request_create`: a full room, a pending request, an existing
    * membership, tested in that order. */
  function JoinGate(ms: seq<Membership>, rs: seq<MemberRequest>, user: UserId, room: RoomId): (r: Option<Why>)
    ensures r == Some(RoomFull) <==> MemberCount(ms, room) >= MaxMembers
    ensures r == Some(HasRequest) <==> MemberCount(ms, room) < MaxMembers && RequestOf(rs, user).Some?
    ensures r == Some(IsMember) <==>
            MemberCount(ms, room) < MaxMembers && RequestOf(rs, user).None? && MembershipOf(ms, user).Some?
    ensures r.None? <==> MemberCount(ms, room) < MaxMembers && RequestOf(rs, user).None? && MembershipOf(ms, user).None?
  {
    if MemberCount(ms, room) > 14 then Some(RoomFull)
    else if RequestOf(rs, user).Some? then Some(HasRequest)
    else if MembershipOf(ms, user).Some? then Some(IsMember)
    else None
  }

  /** `MemberUpdateView.user_passes_test`: the target is in the actor's room
    * and the actor is a manager. */
  function MayChangeMember(ms: seq<Membership>, actor: UserId, target: Membership): (r: bool)
    ensures r ==> exists own | own in ms :: own.user == actor && own.role == Manager && own.room == target.room
    ensures OneMembershipPerUser(ms) ==>
            (r <==> exists own | own in ms :: own.user == actor && own.role == Manager && own.room == target.room)
  {
    OwnMembership(ms);
    match MembershipOf(ms, actor)
    case None => false
    case Some(own) => target.room == own.room && own.role == Manager
  }

  /** `MemberUpdateView.form_valid`: only a change from role 0 to role 1 or 2
    * is checked, against the maintainers already in the room. */
  function PromotionGate(ms: seq<Membership>, room: RoomId, pre: Role, wanted: Role): (r: Option<Why>)
    ensures r.Some? <==> !IsMaintainerRole(pre) && IsMaintainerRole(wanted) && MaintainerCount(ms, room) >= MaxMaintainers
    ensures r.Some? ==> r == Some(TooManyMaintainers)
  {
    if pre != Supervisor && pre != Manager && (wanted == Supervisor || wanted == Manager) && MaintainerCount(ms, room) >= 6
    then Some(TooManyMaintainers)
    else None
  }

  /** The creator-only tests of `RoomUpdateView`, `RoomDeleteView` and
    * `ManagerialSettingUpdateView`. */
  predicate IsCreatorOf(room: Room, user: UserId)
  {
    room.creator.id == user
  }

  // ----------------------------------------------------------------- lookups

  /** `Room.objects.get(slug=slug)`. */
  function RoomWithSlug(rooms: seq<Room>, slug: string): (r: Option<Room>)
    ensures r.Some? ==> r.value in rooms && r.value.slug == slug
    ensures r.None? ==> forall x | x in rooms :: x.slug != slug
  {
    if rooms == [] then None
    else if rooms[0].slug == slug then Some(rooms[0])
    else RoomWithSlug(rooms[1..], slug)
  }

  function RoomWithId(rooms: seq<Room>, id: RoomId): (r: Option<Room>)
    ensures r.Some? ==> r.value in rooms && r.value.id == id
    ensures r.None? ==> forall x | x in rooms :: x.id != id
  {
    if rooms == [] then None
    else if rooms[0].id == id then Some(rooms[0])
    else RoomWithId(rooms[1..], id)
  }

  /** `MemberRequest.objects.get(slug=slug)`. */
  function RequestWithSlug(rs: seq<MemberRequest>, slug: nat): (r: Option<MemberRequest>)
    ensures r.Some? ==> r.value in rs && r.value.slug == slug
    ensures r.None? ==> forall q | q in rs :: q.slug != slug
  {
    if rs == [] then None
    else if rs[0].slug == slug then Some(rs[0])
    else RequestWithSlug(rs[1..], slug)
  }

  /** The `join_room` notification a user sends themself. */
  function JoinKey(user: UserId): NoteKey
  {
    NoteKey(user, Some(user), JoinRoom, None, None)
  }

  function NotJoinFor(user: UserId): Note -> bool
  {
    (n: Note) => !(n.receiver == user && n.kind == JoinRoom)
  }

  /** `Notification.objects.filter(receiver=user, notify_type="join_room").delete()`. */
  function RemoveJoinNotes(notes: seq<Note>, user: UserId): (r: seq<Note>)
    ensures forall n :: n in r <==> n in notes && !(n.receiver == user && n.kind == JoinRoom)
  {
    Filter(notes, NotJoinFor(user))
  }

  function NotFromUser(user: UserId): MemberRequest -> bool { (q: MemberRequest) => q.user != user }
  function NotSlug(slug: nat): MemberRequest -> bool { (q: MemberRequest) => q.slug != slug }
  function NotInRoom(room: RoomId): Membership -> bool { (m: Membership) => m.room != room }
  function RequestNotInRoom(room: RoomId): MemberRequest -> bool { (q: MemberRequest) => q.room != room }
  function SettingNotInRoom(room: RoomId): Setting -> bool { (s: Setting) => s.room != room }
  function RoomNotId(room: RoomId): Room -> bool { (x: Room) => x.id != room }
  function RoomHasId(room: RoomId): Room -> bool { (x: Room) => x.id == room }
  function Retitled(title: string, privacy: Privacy, description: Option<string>): Room -> Room
  {
    (x: Room) => x.(title := title, privacy := privacy, description := description)
  }

  function HasId(id: MemberId): Membership -> bool { (m: Membership) => m.id == id }
  function WithRole(role: Role): Membership -> Membership { (m: Membership) => m.(role := role) }

  /** The membership update the form saves. */
  function SetRole(ms: seq<Membership>, id: MemberId, role: Role): seq<Membership>
  {
    UpdateWhere(ms, HasId(id), WithRole(role))
  }

  function SettingOf(room: RoomId): Setting -> bool { (s: Setting) => s.room == room }
  function WithType(kind: nat): Setting -> Setting { (s: Setting) => s.(shoppingType := kind) }

  // ------------------------------------------------------------------ counts

  lemma CountAppend<T(!new)>(xs: seq<T>, x: T, p: T -> bool)
    ensures |Filter(xs + [x], p)| == |Filter(xs, p)| + (if p(x) then 1 else 0)
  {
    FilterConcat(xs, [x], p);
    assert [x][1..] == [];
  }

  lemma {:induction false} FilterFilterCount<T(!new)>(xs: seq<T>, q: T -> bool, p: T -> bool)
    ensures |Filter(Filter(xs, q), p)| <= |Filter(xs, p)|
  {
    if xs != [] {
      FilterFilterCount(xs[1..], q, p);
      if q(xs[0]) {
        assert Filter(xs, q) == [xs[0]] + Filter(xs[1..], q);
        assert Filter(xs, q)[1..] == Filter(xs[1..], q);
      }
    }
  }

  /** A role change moves the changed membership in or out of `p`'s count
    * and leaves every other membership where it was. */
  lemma {:induction false} SetRoleCount(ms: seq<Membership>, target: Membership, role: Role, p: Membership -> bool)
    requires UniqueMemberIds(ms) && target in ms
    ensures |Filter(SetRole(ms, target.id, role), p)| + (if p(target) then 1 else 0) ==
            |Filter(ms, p)| + (if p(target.(role := role)) then 1 else 0)
  {
    var tail := ms[1..];
    assert UniqueMemberIds(tail) by {
      forall i, j | 0 <= i < j < |tail| ensures tail[i].id != tail[j].id {
        assert tail[i] == ms[i + 1] && tail[j] == ms[j + 1];
      }
    }
    assert SetRole(ms, target.id, role)[1..] == SetRole(tail, target.id, role);
    if ms[0] == target {
      forall i | 0 <= i < |tail| ensures !HasId(target.id)(tail[i]) {
        assert tail[i] == ms[i + 1];
      }
      FilterNone(tail, HasId(target.id));
      assert SetRole(tail, target.id, role) == tail;
    } else {
      assert ms[0].id != target.id by {
        var k :| 0 <= k < |ms| && ms[k] == target;
        assert k != 0;
      }
      assert target in tail;
      SetRoleCount(tail, target, role, p);
    }
  }

  lemma {:induction false} FilterKeepsMemberKeys(ms: seq<Membership>, p: Membership -> bool)
    requires UniqueMemberIds(ms) && OneMembershipPerUser(ms)
    ensures UniqueMemberIds(Filter(ms, p)) && OneMembershipPerUser(Filter(ms, p))
  {
    if ms != [] {
      var tail := ms[1..];
      assert UniqueMemberIds(tail) && OneMembershipPerUser(tail) by {
        forall i, j | 0 <= i < j < |tail| ensures tail[i].id != tail[j].id && tail[i].user != tail[j].user {
          assert tail[i] == ms[i + 1] && tail[j] == ms[j + 1];
        }
      }
      FilterKeepsMemberKeys(tail, p);
      if p(ms[0]) {
        var r := Filter(ms, p);
        assert r == [ms[0]] + Filter(tail, p);
        forall j | 0 < j < |r| ensures r[0].id != r[j].id && r[0].user != r[j].user {
          assert r[j] in tail;
          var k :| 0 <= k < |tail| && tail[k] == r[j];
          assert ms[k + 1] == r[j];
        }
      }
    }
  }

  lemma {:induction false} FilterKeepsOneRequest(rs: seq<MemberRequest>, p: MemberRequest -> bool)
    requires OneRequestPerUser(rs)
    ensures OneRequestPerUser(Filter(rs, p))
  {
    if rs != [] {
      var tail := rs[1..];
      assert OneRequestPerUser(tail) by {
        forall i, j | 0 <= i < j < |tail| ensures tail[i].user != tail[j].user {
          assert tail[i] == rs[i + 1] && tail[j] == rs[j + 1];
        }
      }
      FilterKeepsOneRequest(tail, p);
      if p(rs[0]) {
        var r := Filter(rs, p);
        assert r == [rs[0]] + Filter(tail, p);
        forall j | 0 < j < |r| ensures r[0].user != r[j].user {
          assert r[j] in tail;
          var k :| 0 <= k < |tail| && tail[k] == r[j];
          assert rs[k + 1] == r[j];
        }
      }
    }
  }

  lemma {:induction false} ShoppingTypeAppend(settings: seq<Setting>, s: Setting)
    requires forall x | x in settings :: x.room != s.room
    ensures ShoppingTypeOf(settings + [s], s.room) == Some(s.shoppingType)
  {
    if settings == [] {
    } else {
      assert (settings + [s])[1..] == settings[1..] + [s];
      ShoppingTypeAppend(settings[1..], s);
    }
  }

  // --------------------------------------------------------- table invariants

  /** The membership slug column is unique and the user column one-to-one. */
  predicate MemberKeys(ms: seq<Membership>)
  {
    UniqueMemberIds(ms) && OneMembershipPerUser(ms)
  }

  /** No one with a membership has a pending request. */
  predicate NoMemberRequests(ms: seq<Membership>, rs: seq<MemberRequest>)
  {
    forall q | q in rs :: MembershipOf(ms, q.user).None?
  }

  /** Every room has at most 15 members and at most 6 maintainers. */
  ghost predicate Capped(ms: seq<Membership>)
  {
    forall room: RoomId :: MemberCount(ms, room) <= MaxMembers && MaintainerCount(ms, room) <= MaxMaintainers
  }

  lemma Counts(ms: seq<Membership>, room: RoomId)
    ensures MemberCount(ms, room) == |Filter(ms, RoomIs(room))|
    ensures MaintainerCount(ms, room) == |Filter(ms, MaintainerIn(room))|
  {
  }

  /** Admitting a user without a membership, under a fresh slug, into a room
    * with a free place (and a free maintainer place when the role is one)
    * keeps the keys and the caps, and the user's membership is the new one. */
  lemma AdmitKeeps(ms: seq<Membership>, m: Membership)
    requires MemberKeys(ms) && Capped(ms)
    requires MembershipOf(ms, m.user).None? && forall x | x in ms :: x.id != m.id
    requires MemberCount(ms, m.room) < MaxMembers
    requires IsMaintainerRole(m.role) ==> MaintainerCount(ms, m.room) < MaxMaintainers
    ensures MemberKeys(ms + [m]) && Capped(ms + [m])
    ensures MembershipOf(ms + [m], m.user) == Some(m)
  {
    var r := ms + [m];
    forall room: RoomId ensures MemberCount(r, room) <= MaxMembers && MaintainerCount(r, room) <= MaxMaintainers {
      assert MemberCount(ms, room) <= MaxMembers && MaintainerCount(ms, room) <= MaxMaintainers;
      Counts(ms, room);
      Counts(r, room);
      CountAppend(ms, m, RoomIs(room));
      CountAppend(ms, m, MaintainerIn(room));
    }
    forall i, j | 0 <= i < j < |r| ensures r[i].id != r[j].id && r[i].user != r[j].user {
      if j == |ms| {
        assert r[i] in ms;
      } else {
        assert r[i] == ms[i] && r[j] == ms[j];
      }
    }
    MembershipOfIsUnique(r, m);
  }

  /** Admitting a user who has no request keeps every requester memberless. */
  lemma AdmitKeepsRequests(ms: seq<Membership>, rs: seq<MemberRequest>, m: Membership)
    requires NoMemberRequests(ms, rs) && forall q | q in rs :: q.user != m.user
    ensures NoMemberRequests(ms + [m], rs)
  {
    forall q | q in rs ensures MembershipOf(ms + [m], q.user).None? {
      assert MembershipOf(ms, q.user).None?;
    }
  }

  /** Deleting memberships keeps the keys and the caps. */
  lemma FilterKeepsCaps(ms: seq<Membership>, p: Membership -> bool)
    requires MemberKeys(ms) && Capped(ms)
    ensures MemberKeys(Filter(ms, p)) && Capped(Filter(ms, p))
  {
    FilterKeepsMemberKeys(ms, p);
    forall room: RoomId
      ensures MemberCount(Filter(ms, p), room) <= MaxMembers && MaintainerCount(Filter(ms, p), room) <= MaxMaintainers
    {
      assert MemberCount(ms, room) <= MaxMembers && MaintainerCount(ms, room) <= MaxMaintainers;
      Counts(ms, room);
      Counts(Filter(ms, p), room);
      FilterFilterCount(ms, p, RoomIs(room));
      FilterFilterCount(ms, p, MaintainerIn(room));
    }
  }

  /** A role change keeps the keys and the member counts; it keeps the
    * maintainer cap when a promotion into the maintainer roles finds fewer
    * than 6 maintainers. */
  lemma SetRoleKeeps(ms: seq<Membership>, rs: seq<MemberRequest>, t: Membership, role: Role)
    requires MemberKeys(ms) && Capped(ms) && NoMemberRequests(ms, rs) && t in ms
    requires PromotionGate(ms, t.room, t.role, role).None?
    ensures MemberKeys(SetRole(ms, t.id, role)) && Capped(SetRole(ms, t.id, role))
    ensures NoMemberRequests(SetRole(ms, t.id, role), rs)
  {
    var r := SetRole(ms, t.id, role);
    assert forall i | 0 <= i < |r| :: r[i].id == ms[i].id && r[i].user == ms[i].user;
    forall room: RoomId ensures MemberCount(r, room) <= MaxMembers && MaintainerCount(r, room) <= MaxMaintainers {
      assert MemberCount(ms, room) <= MaxMembers && MaintainerCount(ms, room) <= MaxMaintainers;
      Counts(ms, room);
      Counts(r, room);
      assert forall x :: HasId(t.id)(x) ==> (RoomIs(room)(WithRole(role)(x)) <==> RoomIs(room)(x));
      UpdateWhereCount(ms, HasId(t.id), WithRole(role), RoomIs(room));
      SetRoleCount(ms, t, role, MaintainerIn(room));
    }
    forall q | q in rs ensures MembershipOf(r, q.user).None? {
      assert MembershipOf(ms, q.user).None?;
    }
  }

  /** Confirming a request admits its user and drops their requests, so
    * every remaining requester is still memberless. */
  lemma ConfirmKeepsRequests(ms: seq<Membership>, rs: seq<MemberRequest>, m: Membership)
    requires NoMemberRequests(ms, rs)
    ensures NoMemberRequests(ms + [m], Filter(rs, NotFromUser(m.user)))
  {
    forall q | q in Filter(rs, NotFromUser(m.user)) ensures MembershipOf(ms + [m], q.user).None? {
      assert q in rs && q.user != m.user;
      assert MembershipOf(ms, q.user).None?;
    }
  }

  /** Deleting memberships and requests keeps every requester memberless. */
  lemma DeleteKeepsRequests(ms: seq<Membership>, rs: seq<MemberRequest>, p: Membership -> bool, q: MemberRequest -> bool)
    requires NoMemberRequests(ms, rs)
    ensures NoMemberRequests(Filter(ms, p), Filter(rs, q))
  {
    forall x | x in Filter(rs, q) ensures MembershipOf(Filter(ms, p), x.user).None? {
      assert x in rs;
      assert MembershipOf(ms, x.user).None?;
    }
  }

  // --------------------------------------------------------------- the state

  /** The unique and one-to-one columns, a user is never both a member and
    * a requester, and the two caps, over the tables' values. */
  ghost predicate Consistent(rooms: seq<Room>, members: seq<Membership>, requests: seq<MemberRequest>,
                             settings: seq<Setting>, nextId: nat)
  {
    (forall x | x in rooms :: x.id < nextId) &&
    (forall m | m in members :: m.id < nextId && m.room < nextId) &&
    (forall q | q in requests :: q.slug < nextId && q.room < nextId) &&
    (forall s | s in settings :: s.room < nextId) &&
    MemberKeys(members) && OneRequestPerUser(requests) && NoMemberRequests(members, requests) &&
    Capped(members)
  }

  /** Deleting a room with its memberships, requests and setting keeps the
    * tables consistent. */
  lemma DeleteRoomConsistent(rooms: seq<Room>, members: seq<Membership>, requests: seq<MemberRequest>,
                             settings: seq<Setting>, nextId: nat, id: RoomId)
    requires Consistent(rooms, members, requests, settings, nextId)
    ensures Consistent(Filter(rooms, RoomNotId(id)), Filter(members, NotInRoom(id)),
                       Filter(requests, RequestNotInRoom(id)), Filter(settings, SettingNotInRoom(id)), nextId)
  {
    FilterKeepsCaps(members, NotInRoom(id));
    FilterKeepsOneRequest(requests, RequestNotInRoom(id));
    DeleteKeepsRequests(members, requests, NotInRoom(id), RequestNotInRoom(id));
  }

  /** Confirming a join request keeps the tables consistent. */
  lemma AdmitConsistent(rooms: seq<Room>, members: seq<Membership>, requests: seq<MemberRequest>,
                        settings: seq<Setting>, nextId: nat, q: MemberRequest)
    requires Consistent(rooms, members, requests, settings, nextId)
    requires q in requests && MemberCount(members, q.room) < MaxMembers
    ensures var m := Membership(nextId, q.user, q.room, Member);
            var rs := Filter(requests, NotFromUser(q.user));
            Consistent(rooms, members + [m], rs, settings, nextId + 1) &&
            MembershipOf(members + [m], q.user) == Some(m) && RequestOf(rs, q.user).None?
  {
    var m := Membership(nextId, q.user, q.room, Member);
    var ms := members + [m];
    var rs := Filter(requests, NotFromUser(q.user));
    assert MembershipOf(members, q.user).None?;
    AdmitKeeps(members, m);
    FilterKeepsOneRequest(requests, NotFromUser(q.user));
    ConfirmKeepsRequests(members, requests, m);
  }

  /** The room, membership, request, setting and notification tables, and
    * the source of fresh slugs. */
  class Registry {
    var rooms: seq<Room>
    var members: seq<Membership>
    var requests: seq<MemberRequest>
    var settings: seq<Setting>
    var notes: seq<Note>
    var nextId: nat

    ghost predicate Valid()
      reads this
    {
      Consistent(rooms, members, requests, settings, nextId)
    }

    constructor ()
      ensures Valid()
      ensures rooms == [] && members == [] && requests == [] && settings == [] && notes == []
    {
      rooms, members, requests, settings, notes := [], [], [], [], [];
      nextId := 0;
    }

    /** `RoomCreateView`: the form's title check, the precondition chain,
      * then the room with the user as creator and a slug made of the
      * lower-cased title, '-' and a fresh suffix; its `post_save` receivers
      * add the setting with shopping type 0 and the creator's manager
      * membership, whose own receivers run in the allocation ledger. */
    method CreateRoom(user: User, title: string, description: Option<string>, suffix: string,
                      books: Allocation.Ledger, c: Clock)
      returns (v: Verdict)
      requires Valid() && books.Valid()
      modifies this, books
      ensures Valid() && books.Valid()
      ensures v == Done <==>
              CreateTitleField(old(rooms), title) == Pass && DescriptionField(description) == Pass &&
              CreateRoomGate(old(rooms), old(members), old(requests), user.id).None?
      ensures CreateTitleField(old(rooms), title).Fail? ==> v == Refused(BadTitle(CreateTitleField(old(rooms), title).error))
      ensures CreateTitleField(old(rooms), title) == Pass && DescriptionField(description).Fail? ==> v == Refused(BadDescription)
      ensures v == Done ==>
                var room := Room(old(nextId), title, Lower(title) + "-" + suffix, true, Public, description, user);
                var m := Membership(old(nextId) + 1, user.id, old(nextId), Manager);
                rooms == old(rooms) + [room] && IsPrefix(Lower(title) + "-", room.slug) && IsCreatorOf(room, user.id) &&
                settings == old(settings) + [Setting(old(nextId), 0)] &&
                ShoppingTypeOf(settings, old(nextId)) == Some(0) &&
                members == old(members) + [m] && MembershipOf(members, user.id) == Some(m) &&
                books.holders == old(books.holders) + [m.id] &&
                books.deposits == old(books.deposits) +
                                  Allocation.MapSeq(TrackerModels.DepositFieldsOf(books.depositFields, m.room),
                                                    Allocation.MemberDepositSeed(m.id, c))
      ensures v != Done ==> rooms == old(rooms) && members == old(members) && settings == old(settings) &&
                            books.holders == old(books.holders) && books.deposits == old(books.deposits)
      ensures requests == old(requests) && notes == old(notes)
      ensures books.costFields == old(books.costFields) && books.costs == old(books.costs) &&
              books.depositFields == old(books.depositFields) && books.nextField == old(books.nextField)
    {
      var check := CreateTitleField(rooms, title);
      if check.Fail? {
        return Refused(BadTitle(check.error));
      }
      if DescriptionField(description).Fail? {
        return Refused(BadDescription);
      }
      var gate := CreateRoomGate(rooms, members, requests, user.id);
      if gate.Some? {
        return Refused(gate.value);
      }
      var m := AddRoom(user, title, description, suffix);
      books.OnMembershipCreated(m, c);
      v := Done;
    }

    /** The rows `RoomCreateView` and its receivers insert. */
    method AddRoom(user: User, title: string, description: Option<string>, suffix: string) returns (m: Membership)
      requires Valid() && CreateRoomGate(rooms, members, requests, user.id).None?
      modifies this
      ensures Valid()
      ensures m == Membership(old(nextId) + 1, user.id, old(nextId), Manager)
      ensures var room := Room(old(nextId), title, Lower(title) + "-" + suffix, true, Public, description, user);
              rooms == old(rooms) + [room] && IsPrefix(Lower(title) + "-", room.slug) &&
              settings == old(settings) + [Setting(old(nextId), 0)] && ShoppingTypeOf(settings, old(nextId)) == Some(0) &&
              members == old(members) + [m] && MembershipOf(members, user.id) == Some(m)
      ensures requests == old(requests) && notes == old(notes)
    {
      var id := nextId;
      var room := Room(id, title, Lower(title) + "-" + suffix, true, Public, description, user);
      assert IsPrefix(Lower(title) + "-", room.slug) by {
        assert room.slug[..|Lower(title) + "-"|] == Lower(title) + "-";
      }
      ShoppingTypeAppend(settings, Setting(id, 0));
      m := Membership(id + 1, user.id, id, Manager);
      forall i | 0 <= i < |members| ensures !RoomIs(id)(members[i]) {
        assert members[i] in members;
      }
      FilterNone(members, RoomIs(id));
      AdmitKeeps(members, m);
      AdmitKeepsRequests(members, requests, m);
      rooms := rooms + [room];
      settings := settings + [Setting(id, 0)];
      members := members + [m];
      nextId := nextId + 2;
    }

    /** `member_request_create`: the room by slug, the three refusals in
      * order, then the request and the user's `join_room` notification,
      * counted up when one exists. */
    method RequestJoin(user: UserId, slug: string) returns (v: Verdict)
      requires Valid()
      modifies this
      ensures Valid()
      ensures RoomWithSlug(old(rooms), slug).None? ==> v == Refused(NoSuchRoom)
      ensures RoomWithSlug(old(rooms), slug).Some? ==>
                var gate := JoinGate(old(members), old(requests), user, RoomWithSlug(old(rooms), slug).value.id);
                (gate.Some? ==> v == Refused(gate.value)) && (gate.None? ==> v == Done)
      ensures v == Done ==>
                requests == old(requests) + [MemberRequest(old(nextId), user, RoomWithSlug(old(rooms), slug).value.id)] &&
                notes == Bump(old(notes), JoinKey(user), Note(user, user, JoinRoom, None, slug, 1), None)
      ensures v != Done ==> requests == old(requests) && notes == old(notes)
      ensures rooms == old(rooms) && members == old(members) && settings == old(settings)
    {
      var room := RoomWithSlug(rooms, slug);
      if room.None? {
        return Refused(NoSuchRoom);
      }
      var gate := JoinGate(members, requests, user, room.value.id);
      if gate.Some? {
        return Refused(gate.value);
      }
      ghost var before := requests;
      requests := requests + [MemberRequest(nextId, user, room.value.id)];
      nextId := nextId + 1;
      notes := Bump(notes, JoinKey(user), Note(user, user, JoinRoom, None, slug, 1), None);
      v := Done;
      assert OneRequestPerUser(requests) by {
        forall i, j | 0 <= i < j < |requests| ensures requests[i].user != requests[j].user {
          if j == |before| {
            assert requests[i] in before;
          } else {
            assert requests[i] == before[i] && requests[j] == before[j];
          }
        }
      }
    }

    /** `member_request_confirm`: refused while the room is full; otherwise
      * the user becomes a member (with the allocation receivers), their
      * request goes, zero cost rows are seeded for the room's sectors when
      * they have none, and their `join_room` notifications go. The view
      * checks nothing about who confirms. */
    method ConfirmRequest(slug: nat, books: Allocation.Ledger, c: Clock) returns (v: Verdict)
      requires Valid() && books.Valid()
      modifies this, books
      ensures Valid() && books.Valid()
      ensures RequestWithSlug(old(requests), slug).None? ==> v == Refused(NoSuchRequest)
      ensures RequestWithSlug(old(requests), slug).Some? ==>
                (v == Done <==> MemberCount(old(members), RequestWithSlug(old(requests), slug).value.room) < MaxMembers)
      ensures v == Done ==>
                var q := RequestWithSlug(old(requests), slug).value;
                var m := Membership(old(nextId), q.user, q.room, Member);
                members == old(members) + [m] && MembershipOf(members, q.user) == Some(m) &&
                requests == Filter(old(requests), NotFromUser(q.user)) && RequestOf(requests, q.user).None? &&
                notes == RemoveJoinNotes(old(notes), q.user) &&
                books.holders == old(books.holders) + [m.id] &&
                books.costs == (if Allocation.HasCostRows(old(books.costs), members, q.user) then old(books.costs)
                                else old(books.costs) + Allocation.MapSeq(TrackerModels.CostFieldsOf(books.costFields, q.room),
                                                                          Allocation.MemberCostSeed(m.id))) &&
                books.deposits == old(books.deposits) +
                                  Allocation.MapSeq(TrackerModels.DepositFieldsOf(books.depositFields, q.room),
                                                    Allocation.MemberDepositSeed(m.id, c))
      ensures v != Done ==> members == old(members) && requests == old(requests) && notes == old(notes) &&
                            books.holders == old(books.holders) && books.costs == old(books.costs) &&
                            books.deposits == old(books.deposits)
      ensures rooms == old(rooms) && settings == old(settings)
      ensures books.costFields == old(books.costFields) && books.depositFields == old(books.depositFields) &&
              books.nextField == old(books.nextField)
    {
      var found := RequestWithSlug(requests, slug);
      if found.None? {
        return Refused(NoSuchRequest);
      }
      var q := found.value;
      if MemberCount(members, q.room) > 14 {
        return Refused(RoomFull);
      }
      var m := Admit(q);
      books.OnMembershipCreated(m, c);
      books.SeedMemberCosts(members, q.user, m.id, q.room);
      v := Done;
    }

    /** The rows `member_request_confirm` inserts and deletes. */
    method Admit(q: MemberRequest) returns (m: Membership)
      requires Valid() && q in requests && MemberCount(members, q.room) < MaxMembers
      modifies this
      ensures Valid()
      ensures m == Membership(old(nextId), q.user, q.room, Member)
      ensures members == old(members) + [m] && MembershipOf(members, q.user) == Some(m)
      ensures requests == Filter(old(requests), NotFromUser(q.user)) && RequestOf(requests, q.user).None?
      ensures notes == RemoveJoinNotes(old(notes), q.user)
      ensures rooms == old(rooms) && settings == old(settings)
    {
      m := Membership(nextId, q.user, q.room, Member);
      AdmitConsistent(rooms, members, requests, settings, nextId, q);
      members := members + [m];
      nextId := nextId + 1;
      requests := Filter(requests, NotFromUser(q.user));
      notes := RemoveJoinNotes(notes, q.user);
    }

    /** `member_request_delete`: the request and its user's `join_room`
      * notifications go. The view checks nothing about who deletes. */
    method DeleteRequest(slug: nat) returns (v: Verdict)
      requires Valid()
      modifies this
      ensures Valid()
      ensures v == Done <==> RequestWithSlug(old(requests), slug).Some?
      ensures v == Done ==>
                requests == Filter(old(requests), NotSlug(slug)) &&
                notes == RemoveJoinNotes(old(notes), RequestWithSlug(old(requests), slug).value.user)
      ensures v != Done ==> requests == old(requests) && notes == old(notes)
      ensures forall q | q in requests :: q.slug != slug
      ensures rooms == old(rooms) && members == old(members) && settings == old(settings)
    {
      var found := RequestWithSlug(requests, slug);
      if found.None? {
        return Refused(NoSuchRequest);
      }
      FilterKeepsOneRequest(requests, NotSlug(slug));
      requests := Filter(requests, NotSlug(slug));
      notes := RemoveJoinNotes(notes, found.value.user);
      v := Done;
    }

    /** `MemberUpdateView`: `dispatch` records a refused actor; the form then
      * refuses a promotion from role 0 into a room that has 6 maintainers,
      * and otherwise saves the new role. */
    method UpdateMember(actor: UserId, target: MemberId, role: Role, log: SuspiciousLog) returns (v: Verdict)
      requires Valid()
      modifies this, log
      ensures Valid()
      ensures MembershipWithId(old(members), target).None? ==> v == Refused(NoSuchMember)
      ensures MembershipOf(old(members), actor).None? ==> v.Refused?
      ensures MembershipWithId(old(members), target).Some? && MembershipOf(old(members), actor).Some? ==>
                var t := MembershipWithId(old(members), target).value;
                (v == Refused(NotAllowed) <==> !MayChangeMember(old(members), actor, t)) &&
                (v == Done <==> MayChangeMember(old(members), actor, t) && PromotionGate(old(members), t.room, t.role, role).None?)
      ensures v == Done ==> members == SetRole(old(members), target, role)
      ensures v != Done ==> members == old(members)
      ensures log.attempts == if v == Refused(NotAllowed) then AfterFailedAttempt(old(log.attempts), actor, log.initial)
                              else old(log.attempts)
      ensures rooms == old(rooms) && requests == old(requests) && settings == old(settings) && notes == old(notes)
    {
      var t := MembershipWithId(members, target);
      if t.None? {
        return Refused(NoSuchMember);
      }
      var own := MembershipOf(members, actor);
      if own.None? {
        return Refused(NoMembership);
      }
      var passes := MayChangeMember(members, actor, t.value);
      var allowed := log.Guard(actor, passes);
      if !allowed {
        return Refused(NotAllowed);
      }
      var gate := PromotionGate(members, t.value.room, t.value.role, role);
      if gate.Some? {
        return Refused(gate.value);
      }
      SetRoleKeeps(members, requests, t.value, role);
      members := SetRole(members, target, role);
      v := Done;
    }

    /** `RoomDeleteView`: only the creator passes (`dispatch` records anyone
      * else). The room goes, with its memberships, requests and setting,
      * and `get_success_url` deletes the notifications whose room identifier
      * equals the slug, ignoring case. */
    method DeleteRoom(actor: UserId, slug: string, log: SuspiciousLog) returns (v: Verdict)
      requires Valid()
      modifies this, log
      ensures Valid()
      ensures RoomWithSlug(old(rooms), slug).None? ==> v == Refused(NoSuchRoom)
      ensures RoomWithSlug(old(rooms), slug).Some? ==>
                (v == Done <==> IsCreatorOf(RoomWithSlug(old(rooms), slug).value, actor))
      ensures v == Done ==>
                var id := RoomWithSlug(old(rooms), slug).value.id;
                rooms == Filter(old(rooms), RoomNotId(id)) &&
                members == Filter(old(members), NotInRoom(id)) &&
                requests == Filter(old(requests), RequestNotInRoom(id)) &&
                settings == Filter(old(settings), SettingNotInRoom(id)) &&
                notes == RemoveRoom(old(notes), slug)
      ensures v != Done ==> rooms == old(rooms) && members == old(members) && requests == old(requests) &&
                            settings == old(settings) && notes == old(notes)
      ensures log.attempts == if v == Refused(NotAllowed) then AfterFailedAttempt(old(log.attempts), actor, log.initial)
                              else old(log.attempts)
    {
      var room := RoomWithSlug(rooms, slug);
      if room.None? {
        return Refused(NoSuchRoom);
      }
      var allowed := log.Guard(actor, IsCreatorOf(room.value, actor));
      if !allowed {
        return Refused(NotAllowed);
      }
      RemoveRoomRows(room.value.id, slug);
      v := Done;
    }

    /** The deletions of `DeleteRoom` once the creator is admitted. */
    method RemoveRoomRows(id: RoomId, slug: string)
      requires Valid()
      modifies this
      ensures Valid()
      ensures rooms == Filter(old(rooms), RoomNotId(id)) &&
              members == Filter(old(members), NotInRoom(id)) &&
              requests == Filter(old(requests), RequestNotInRoom(id)) &&
              settings == Filter(old(settings), SettingNotInRoom(id)) &&
              notes == RemoveRoom(old(notes), slug)
    {
      DeleteRoomConsistent(rooms, members, requests, settings, nextId, id);
      rooms := Filter(rooms, RoomNotId(id));
      members := Filter(members, NotInRoom(id));
      requests := Filter(requests, RequestNotInRoom(id));
      settings := Filter(settings, SettingNotInRoom(id));
      notes := RemoveRoom(notes, slug);
    }

    /** `RoomUpdateView`: only the creator passes (`dispatch` records anyone
      * else); the form's title and description checks then guard the new
      * title, privacy and description. The title check is the corrected
      * one, which lets a room be renamed by letter case only. */
    method UpdateRoom(actor: UserId, slug: string, title: string, privacy: Privacy, description: Option<string>,
                      log: SuspiciousLog)
      returns (v: Verdict)
      requires Valid()
      modifies this, log
      ensures Valid()
      ensures RoomWithSlug(old(rooms), slug).None? ==> v == Refused(NoSuchRoom)
      ensures RoomWithSlug(old(rooms), slug).Some? ==>
                var room := RoomWithSlug(old(rooms), slug).value;
                (v == Refused(NotAllowed) <==> !IsCreatorOf(room, actor)) &&
                (v == Done <==> IsCreatorOf(room, actor) && UpdateTitleField(old(rooms), room.id, title) == Pass &&
                                DescriptionField(description) == Pass)
      ensures v == Done ==>
                var id := RoomWithSlug(old(rooms), slug).value.id;
                rooms == UpdateWhere(old(rooms), RoomHasId(id), Retitled(title, privacy, description)) &&
                forall x | x in rooms && x.id == id :: x.title == title && x.privacy == privacy && x.description == description
      ensures v != Done ==> rooms == old(rooms)
      ensures log.attempts == if v == Refused(NotAllowed) then AfterFailedAttempt(old(log.attempts), actor, log.initial)
                              else old(log.attempts)
      ensures members == old(members) && requests == old(requests) && settings == old(settings) && notes == old(notes)
    {
      var room := RoomWithSlug(rooms, slug);
      if room.None? {
        return Refused(NoSuchRoom);
      }
      var allowed := log.Guard(actor, IsCreatorOf(room.value, actor));
      if !allowed {
        return Refused(NotAllowed);
      }
      var check := UpdateTitleField(rooms, room.value.id, title);
      if check.Fail? {
        return Refused(BadTitle(check.error));
      }
      if DescriptionField(description).Fail? {
        return Refused(BadDescription);
      }
      ghost var before := rooms;
      rooms := UpdateWhere(rooms, RoomHasId(room.value.id), Retitled(title, privacy, description));
      v := Done;
      forall x | x in rooms ensures x.id < nextId && (x.id == room.value.id ==> x.title == title && x.privacy == privacy && x.description == description) {
        var k :| 0 <= k < |rooms| && rooms[k] == x;
        assert before[k] in before;
      }
    }

    /** `ManagerialSettingUpdateView`: the setting of the actor's room, which
      * only the room's creator may change, to one of the two shopping
      * types. */
    method ChangeShoppingType(actor: UserId, kind: nat, log: SuspiciousLog) returns (v: Verdict)
      requires Valid()
      modifies this, log
      ensures Valid()
      ensures MembershipOf(old(members), actor).None? ==> v == Refused(NoMembership)
      ensures v == Done <==>
                MembershipOf(old(members), actor).Some? &&
                ShoppingTypeOf(old(settings), MembershipOf(old(members), actor).value.room).Some? &&
                RoomWithId(old(rooms), MembershipOf(old(members), actor).value.room).Some? &&
                IsCreatorOf(RoomWithId(old(rooms), MembershipOf(old(members), actor).value.room).value, actor) &&
                kind <= 1
      ensures v == Done ==>
                settings == UpdateWhere(old(settings), SettingOf(MembershipOf(old(members), actor).value.room), WithType(kind))
      ensures v != Done ==> settings == old(settings)
      ensures rooms == old(rooms) && members == old(members) && requests == old(requests) && notes == old(notes)
    {
      var own := MembershipOf(members, actor);
      if own.None? {
        return Refused(NoMembership);
      }
      var room := own.value.room;
      if ShoppingTypeOf(settings, room).None? {
        return Refused(NoSetting);
      }
      var x := RoomWithId(rooms, room);
      if x.None? {
        return Refused(NoSuchRoom);
      }
      var allowed := log.Guard(actor, IsCreatorOf(x.value, actor));
      if !allowed {
        return Refused(NotAllowed);
      }
      if kind > 1 {
        return Refused(InvalidChoice);
      }
      ghost var before := settings;
      settings := UpdateWhere(settings, SettingOf(room), WithType(kind));
      v := Done;
      forall s | s in settings ensures s.room < nextId {
        var k :| 0 <= k < |settings| && settings[k] == s;
        assert before[k] in before;
      }
    }
  }
}
