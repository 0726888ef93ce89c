/** The `user_passes_test` predicates of tracker/views.py that guard the
  * cost-sector, shopping, deposit and chart views. `user.membership` is the
  * user's membership when there is one; a user without one makes the
  * source raise, which the model reads as a refusal. */
module Permissions {
  import opened Common
  import opened Roles
  import opened Rooms
  import opened Memberships
  import opened TrackerModels

  /** `Membership.objects.filter(user=user, room=room).exists()`. */
  predicate MemberOf(ms: seq<Membership>, user: UserId, room: RoomId)
  {
    exists m | m in ms :: m.user == user && m.room == room
  }

  /** The cost-sector views (create, update, delete, assign): a member of
    * the sector's room who is its manager or the room's creator. */
  function ManagesFields(ms: seq<Membership>, user: UserId, room: Room): (r: bool)
    ensures r ==> MemberOf(ms, user, room.id)
    ensures room.creator.id == user ==> (r <==> MemberOf(ms, user, room.id))
    ensures room.creator.id != user ==>
            (r <==> exists m | m in ms :: m.user == user && m.room == room.id && m.role == Manager)
  {
    exists m | m in ms :: m.user == user && m.room == room.id && (m.role == Manager || room.creator.id == user)
  }

  /** `ShoppingCreateView`: any member of the user's room. */
  function MayAddShopping(ms: seq<Membership>, user: UserId): (r: bool)
    ensures r <==> exists m | m in ms :: m.user == user
  {
    match MembershipOf(ms, user)
    case None => false
    case Some(own) => MemberOf(ms, user, own.room)
  }

  /** `MonthlyShoppingCreateView`: the user's first membership is a manager. */
  function MayAddMonthlyShopping(ms: seq<Membership>, user: UserId): (r: bool)
    ensures r ==> exists m | m in ms :: m.user == user && m.role == Manager
    ensures OneMembershipPerUser(ms) ==> (r <==> exists m | m in ms :: m.user == user && m.role == Manager)
  {
    OwnMembership(ms);
    match MembershipOf(ms, user)
    case None => false
    case Some(own) => MemberOf(ms, user, own.room) && own.role == Manager
  }

  /** `ShoppingUpdateView`: the entry was created by the user's membership. */
  function MayUpdateShopping(ms: seq<Membership>, user: UserId, s: Shopping): (r: bool)
    ensures r ==> exists m | m in ms :: m.user == user && m.id == s.createdBy
    ensures OneMembershipPerUser(ms) ==> (r <==> exists m | m in ms :: m.user == user && m.id == s.createdBy)
  {
    OwnMembership(ms);
    match MembershipOf(ms, user)
    case None => false
    case Some(own) => own.id == s.createdBy
  }

  /** `ShoppingDeleteView`: a member of the creator's room who is the
    * creator's user. */
  function MayDeleteShopping(ms: seq<Membership>, user: UserId, s: Shopping): (r: bool)
    ensures r ==> exists m | m in ms :: m.user == user && m.id == s.createdBy
    ensures UniqueMemberIds(ms) ==> (r <==> exists m | m in ms :: m.user == user && m.id == s.createdBy)
  {
    OwnSlug(ms);
    match MembershipWithId(ms, s.createdBy)
    case None => false
    case Some(creator) => MemberOf(ms, user, creator.room) && creator.user == user
  }

  /** `MonthlyShoppingUpdateView`: a manager of the creator's room. */
  function MayUpdateMonthlyShopping(ms: seq<Membership>, user: UserId, s: Shopping): (r: bool)
    ensures r ==> exists own, creator | own in ms && creator in ms ::
              own.user == user && own.role == Manager && creator.id == s.createdBy && creator.room == own.room
    ensures OneMembershipPerUser(ms) && UniqueMemberIds(ms) ==>
            (r <==> exists own, creator | own in ms && creator in ms ::
                      own.user == user && own.role == Manager && creator.id == s.createdBy && creator.room == own.room)
  {
    OwnMembership(ms);
    OwnSlug(ms);
    match (MembershipOf(ms, user), MembershipWithId(ms, s.createdBy))
    case (Some(own), Some(creator)) => creator.room == own.room && own.role == Manager
    case _ => false
  }

  /** `MonthlyShoppingDeleteView`: a member of the creator's room whose own
    * membership is a manager in that room. */
  function MayDeleteMonthlyShopping(ms: seq<Membership>, user: UserId, s: Shopping): (r: bool)
    ensures r ==> exists own, creator | own in ms && creator in ms ::
              own.user == user && own.role == Manager && creator.id == s.createdBy && creator.room == own.room
    ensures OneMembershipPerUser(ms) && UniqueMemberIds(ms) ==>
            (r <==> exists own, creator | own in ms && creator in ms ::
                      own.user == user && own.role == Manager && creator.id == s.createdBy && creator.room == own.room)
  {
    OwnMembership(ms);
    OwnSlug(ms);
    match (MembershipOf(ms, user), MembershipWithId(ms, s.createdBy))
    case (Some(own), Some(creator)) =>
      MemberOf(ms, user, creator.room) && creator.room == own.room && own.role == Manager
    case _ => false
  }

  /** `CashDepositFieldCreateView`: a manager. */
  function MayCreateDepositField(ms: seq<Membership>, user: UserId): (r: bool)
    ensures r ==> exists m | m in ms :: m.user == user && m.role == Manager
    ensures OneMembershipPerUser(ms) ==> (r <==> exists m | m in ms :: m.user == user && m.role == Manager)
  {
    OwnMembership(ms);
    match MembershipOf(ms, user)
    case None => false
    case Some(own) => own.role == Manager
  }

  /** `CashDepositFieldUpdateView` and `CashDepositFieldDeleteView`: a
    * manager of the field's room. */
  function MayChangeDepositField(ms: seq<Membership>, user: UserId, f: DepositField): (r: bool)
    ensures r ==> exists m | m in ms :: m.user == user && m.role == Manager && m.room == f.room
    ensures OneMembershipPerUser(ms) ==>
            (r <==> exists m | m in ms :: m.user == user && m.role == Manager && m.room == f.room)
  {
    OwnMembership(ms);
    match MembershipOf(ms, user)
    case None => false
    case Some(own) => own.role == Manager && f.room == own.room
  }

  /** `CashDepositFieldAssignView`: a manager of the target member's room.
    * A missing target makes the source raise; the model refuses. */
  function MayAssignDeposit(ms: seq<Membership>, user: UserId, target: MemberId): (r: bool)
    ensures r ==> exists own, t | own in ms && t in ms ::
              own.user == user && own.role == Manager && t.id == target && t.room == own.room
    ensures OneMembershipPerUser(ms) && UniqueMemberIds(ms) ==>
            (r <==> exists own, t | own in ms && t in ms ::
                      own.user == user && own.role == Manager && t.id == target && t.room == own.room)
  {
    OwnMembership(ms);
    OwnSlug(ms);
    match (MembershipOf(ms, user), MembershipWithId(ms, target))
    case (Some(own), Some(member)) => own.role == Manager && own.room == member.room
    case _ => false
  }

  /** `CostChartView`, `ShoppingChartView`, `DepositChartView`: role 1 or 2. */
  function MaySeeCharts(ms: seq<Membership>, user: UserId): (r: bool)
    ensures r ==> exists m | m in ms :: m.user == user && m.role != Member
    ensures OneMembershipPerUser(ms) ==> (r <==> exists m | m in ms :: m.user == user && m.role != Member)
  {
    OwnMembership(ms);
    match MembershipOf(ms, user)
    case None => false
    case Some(own) => IsMaintainerRole(own.role)
  }

  /** `MealChartView`: any member. */
  function MaySeeMealChart(ms: seq<Membership>, user: UserId): (r: bool)
    ensures r <==> exists m | m in ms :: m.user == user
  {
    MembershipOf(ms, user).Some?
  }

  // ----------------------------------------------------------------- lemmas

  /** With unique slugs, every membership is the one its slug finds. */
  lemma OwnSlug(ms: seq<Membership>)
    ensures UniqueMemberIds(ms) ==> forall m | m in ms :: MembershipWithId(ms, m.id) == Some(m)
  {
    if UniqueMemberIds(ms) {
      forall m | m in ms ensures MembershipWithId(ms, m.id) == Some(m) {
        MembershipWithIdIsUnique(ms, m);
      }
    }
  }

  /** With unique membership slugs, the membership found by slug is the
    * only one with that slug. */
  lemma {:induction false} MembershipWithIdIsUnique(ms: seq<Membership>, m: Membership)
    requires UniqueMemberIds(ms) && m in ms
    ensures MembershipWithId(ms, m.id) == Some(m)
  {
    if ms[0] != m {
      assert ms[0].id != m.id by {
        var k :| 0 <= k < |ms| && ms[k] == m;
        assert k != 0;
      }
      assert UniqueMemberIds(ms[1..]) by {
        forall i, j | 0 <= i < j < |ms[1..]| ensures ms[1..][i].id != ms[1..][j].id {
          assert ms[1..][i] == ms[i + 1] && ms[1..][j] == ms[j + 1];
        }
      }
      assert m in ms[1..];
      MembershipWithIdIsUnique(ms[1..], m);
    }
  }

  /** The shopping update and delete views test different things, but with
    * one membership per user and unique slugs they admit the same users:
    * the entry's creator. */
  lemma ShoppingUpdateIffDelete(ms: seq<Membership>, user: UserId, s: Shopping)
    requires OneMembershipPerUser(ms) && UniqueMemberIds(ms)
    ensures MayUpdateShopping(ms, user, s) <==> MayDeleteShopping(ms, user, s)
    ensures MayDeleteShopping(ms, user, s) <==> exists m | m in ms :: m.user == user && m.id == s.createdBy
  {
    if exists m | m in ms :: m.user == user && m.id == s.createdBy {
      var m :| m in ms && m.user == user && m.id == s.createdBy;
      MembershipOfIsUnique(ms, m);
      MembershipWithIdIsUnique(ms, m);
    } else {
      match MembershipWithId(ms, s.createdBy) {
        case None =>
        case Some(creator) =>
          assert creator in ms && creator.user != user;
      }
    }
  }

  /** Likewise the monthly-shopping update and delete views admit the same
    * users: a manager of the creator's room. */
  lemma MonthlyUpdateIffDelete(ms: seq<Membership>, user: UserId, s: Shopping)
    ensures MayUpdateMonthlyShopping(ms, user, s) <==> MayDeleteMonthlyShopping(ms, user, s)
  {
    match (MembershipOf(ms, user), MembershipWithId(ms, s.createdBy)) {
      case (Some(own), Some(creator)) =>
        assert creator.room == own.room ==> MemberOf(ms, user, creator.room);
      case _ =>
    }
  }

  /** Every deposit view, and the monthly shopping views, admit managers
    * only; the cost-sector views admit a non-manager only when they created
    * the room. */
  lemma ManagerOnlyViews(ms: seq<Membership>, user: UserId, s: Shopping, f: DepositField, target: MemberId, room: Room)
    ensures (MayCreateDepositField(ms, user) || MayChangeDepositField(ms, user, f) ||
             MayAssignDeposit(ms, user, target) || MayAddMonthlyShopping(ms, user) ||
             MayUpdateMonthlyShopping(ms, user, s)) ==>
            exists m | m in ms :: m.user == user && m.role == Manager
    ensures ManagesFields(ms, user, room) && room.creator.id != user ==>
            exists m | m in ms :: m.user == user && m.room == room.id && m.role == Manager
  {
    var own := MembershipOf(ms, user);
    if own.Some? {
      assert own.value in ms;
    }
  }

  /** A manager of a room may do everything a member of it may; the
    * meal chart is open to every member, the other charts to maintainers. */
  lemma ChartsNest(ms: seq<Membership>, user: UserId)
    ensures MaySeeCharts(ms, user) ==> MaySeeMealChart(ms, user)
    ensures MayAddMonthlyShopping(ms, user) ==> MayAddShopping(ms, user) && MaySeeCharts(ms, user)
    ensures MaySeeMealChart(ms, user) <==> MayAddShopping(ms, user)
  {
    var own := MembershipOf(ms, user);
    if own.Some? {
      assert own.value in ms;
    }
  }
}
