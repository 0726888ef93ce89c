/** The allocation ledgers: cost sectors with their per-member `MemberTrack`
  * rows and cash-deposit fields with their per-member `CashDepositMember`
  * rows (tracker/forms.py), the zero rows seeded when a field or a
  * membership is created (tracker/forms.py and the `post_save` receivers of
  * tracker/models.py), and the role-gated assignment forms, which update a
  * member's row for each posted field when it exists and create it
  * otherwise. */
module Allocation {
  import opened Common
  import opened Roles
  import opened Rooms
  import opened Memberships
  import opened TrackerModels
  import opened TrackerForms
  import opened Notifications
  import Permissions

  /** One posted value of an assignment form, keyed by the field's title. */
  datatype Entry = Entry(title: string, value: Option<Amount>)

  /** How an assignment form's `save` ended: the actor has no membership
    * (the source raises), the target is outside the actor's room (the
    * attempt is recorded), the actor's role is too low (a warning), or the
    * values were written. */
  datatype Outcome = NoMembership | Suspicious | NotPermitted | Assigned

  // ---------------------------------------------------------------- upserts

  /** `qs = filter(...)`, then `qs.update(...)` when it selects a row and
    * `create(...)` otherwise. */
  function Upsert<T>(rows: seq<T>, hit: T -> bool, write: T -> T, created: T): seq<T>
  {
    if exists i | 0 <= i < |rows| :: hit(rows[i]) then UpdateWhere(rows, hit, write) else rows + [created]
  }

  /** After an upsert some row is selected, and every selected row has the
    * written value. */
  lemma UpsertHits<T>(rows: seq<T>, hit: T -> bool, write: T -> T, created: T, post: T -> bool)
    requires hit(created) && post(created)
    requires forall y :: hit(y) ==> hit(write(y)) && post(write(y))
    ensures exists x | x in Upsert(rows, hit, write, created) :: hit(x)
    ensures forall x | x in Upsert(rows, hit, write, created) && hit(x) :: post(x)
  {
    var r := Upsert(rows, hit, write, created);
    if exists i | 0 <= i < |rows| :: hit(rows[i]) {
      var i :| 0 <= i < |rows| && hit(rows[i]);
      assert r[i] == write(rows[i]);
      forall x | x in r && hit(x) ensures post(x) {
        var k :| 0 <= k < |r| && r[k] == x;
        assert hit(rows[k]);
      }
    } else {
      assert r[|rows|] == created;
      assert forall x | x in rows :: !hit(x);
    }
  }

  /** Rows that the upsert can neither select nor produce stay exactly as
    * they were, in order. */
  lemma UpsertKeeps<T(!new)>(rows: seq<T>, hit: T -> bool, write: T -> T, created: T, keep: T -> bool)
    requires !keep(created)
    requires forall y :: hit(y) ==> !keep(y) && !keep(write(y))
    ensures Filter(Upsert(rows, hit, write, created), keep) == Filter(rows, keep)
  {
    if exists i | 0 <= i < |rows| :: hit(rows[i]) {
      UpdateWhereFrame(rows, hit, write, keep);
    } else {
      FilterConcat(rows, [created], keep);
      assert [created][1..] == [];
    }
  }

  /** The map of `xs` through `f`, in order. */
  function MapSeq<U, T>(xs: seq<U>, f: U -> T): (r: seq<T>)
    ensures |r| == |xs| && forall i | 0 <= i < |xs| :: r[i] == f(xs[i])
  {
    seq(|xs|, i requires 0 <= i < |xs| => f(xs[i]))
  }

  /** When `p` picks out the image of exactly one element, filtering the map
    * by `p` yields that image alone. */
  lemma {:induction false} MapSelectsOne<U, T(!new)>(xs: seq<U>, f: U -> T, p: T -> bool, k: nat)
    requires k < |xs| && p(f(xs[k]))
    requires forall i | 0 <= i < |xs| && i != k :: !p(f(xs[i]))
    ensures Filter(MapSeq(xs, f), p) == [f(xs[k])]
  {
    var ys := MapSeq(xs, f);
    assert ys == ys[..k] + [ys[k]] + ys[k + 1..];
    FilterConcat(ys[..k] + [ys[k]], ys[k + 1..], p);
    FilterConcat(ys[..k], [ys[k]], p);
    FilterNone(ys[..k], p);
    FilterNone(ys[k + 1..], p);
    assert [ys[k]][1..] == [];
  }

  /** Filtering the map by a `p` no image satisfies yields nothing. */
  lemma MapSelectsNone<U, T(!new)>(xs: seq<U>, f: U -> T, p: T -> bool)
    requires forall i | 0 <= i < |xs| :: !p(f(xs[i]))
    ensures Filter(MapSeq(xs, f), p) == []
  {
    FilterNone(MapSeq(xs, f), p);
  }

  // ------------------------------------------------------------ cost rows

  function CostPair(field: FieldId, member: MemberId): CostRow -> bool
  {
    (r: CostRow) => r.field == field && r.member == member
  }

  function SetCost(value: Option<Amount>): CostRow -> CostRow
  {
    (r: CostRow) => r.(cost := value)
  }

  function CostIs(value: Option<Amount>): CostRow -> bool
  {
    (r: CostRow) => r.cost == value
  }

  /** The upsert of one posted cost. */
  function UpsertCost(rows: seq<CostRow>, field: FieldId, member: MemberId, value: Option<Amount>): seq<CostRow>
  {
    Upsert(rows, CostPair(field, member), SetCost(value), CostRow(field, member, value))
  }

  /** `TrackerField.objects.get(title=title, room=room)`. */
  function CostFieldTitled(fields: seq<CostField>, room: RoomId, title: string): (r: Option<CostField>)
    ensures r.Some? ==> r.value in fields && r.value.room == room && r.value.title == title
    ensures r.None? ==> forall f | f in fields :: !(f.room == room && f.title == title)
  {
    if fields == [] then None
    else if fields[0].room == room && fields[0].title == title then Some(fields[0])
    else CostFieldTitled(fields[1..], room, title)
  }

  /** `AssignFieldToMemberForm.save` once the gate has passed: each posted
    * value, in order, upserted into the member's row for the room's field
    * of that title. */
  function AssignCosts(rows: seq<CostRow>, fields: seq<CostField>, room: RoomId, member: MemberId,
                       entries: seq<Entry>): seq<CostRow>
  {
    if entries == [] then rows
    else
      var rest := AssignCosts(rows, fields, room, member, entries[..|entries| - 1]);
      var e := entries[|entries| - 1];
      match CostFieldTitled(fields, room, e.title)
      case None => rest
      case Some(f) => UpsertCost(rest, f.id, member, e.value)
  }

  /** The value the last posted entry for field `fid` carries, if any. */
  function LastCostFor(fields: seq<CostField>, room: RoomId, entries: seq<Entry>, fid: FieldId): Option<Option<Amount>>
  {
    if entries == [] then None
    else
      var e := entries[|entries| - 1];
      var f := CostFieldTitled(fields, room, e.title);
      if f.Some? && f.value.id == fid then Some(e.value)
      else LastCostFor(fields, room, entries[..|entries| - 1], fid)
  }

  /** After an assignment the member has a row for every field that was
    * posted, holding the last value posted for it; the member's rows for
    * other fields are untouched. */
  lemma {:induction false} AssignCostsEffect(rows: seq<CostRow>, fields: seq<CostField>, room: RoomId,
                                             member: MemberId, entries: seq<Entry>, fid: FieldId)
    ensures var r := AssignCosts(rows, fields, room, member, entries);
            match LastCostFor(fields, room, entries, fid)
            case Some(v) =>
              Filter(r, CostPair(fid, member)) != [] &&
              forall x | x in Filter(r, CostPair(fid, member)) :: x.cost == v
            case None => Filter(r, CostPair(fid, member)) == Filter(rows, CostPair(fid, member))
  {
    if entries != [] {
      var init := entries[..|entries| - 1];
      var e := entries[|entries| - 1];
      var rest := AssignCosts(rows, fields, room, member, init);
      AssignCostsEffect(rows, fields, room, member, init, fid);
      match CostFieldTitled(fields, room, e.title) {
        case None =>
        case Some(f) =>
          if f.id == fid {
            UpsertHits(rest, CostPair(fid, member), SetCost(e.value), CostRow(fid, member, e.value), CostIs(e.value));
            var r := UpsertCost(rest, fid, member, e.value);
            var x :| x in r && CostPair(fid, member)(x);
            assert x in Filter(r, CostPair(fid, member));
          } else {
            UpsertKeeps(rest, CostPair(f.id, member), SetCost(e.value), CostRow(f.id, member, e.value), CostPair(fid, member));
          }
      }
    }
  }

  /** Rows that belong to no row of the assigned member are untouched: in
    * particular, every other member's rows. */
  lemma {:induction false} AssignCostsFrame(rows: seq<CostRow>, fields: seq<CostField>, room: RoomId,
                                            member: MemberId, entries: seq<Entry>, keep: CostRow -> bool)
    requires forall x :: keep(x) ==> x.member != member
    ensures Filter(AssignCosts(rows, fields, room, member, entries), keep) == Filter(rows, keep)
  {
    if entries != [] {
      var init := entries[..|entries| - 1];
      var e := entries[|entries| - 1];
      AssignCostsFrame(rows, fields, room, member, init, keep);
      match CostFieldTitled(fields, room, e.title) {
        case None =>
        case Some(f) =>
          var rest := AssignCosts(rows, fields, room, member, init);
          UpsertKeeps(rest, CostPair(f.id, member), SetCost(e.value), CostRow(f.id, member, e.value), keep);
      }
    }
  }

  // --------------------------------------------------------- deposit rows

  /** `created_at__month=now.month, created_at__year=now.year`. */
  predicate ThisMonth(d: DepositRow, c: Clock)
  {
    d.createdYear == c.year && d.createdMonth == c.month
  }

  function DepositPair(field: FieldId, member: MemberId, c: Clock): DepositRow -> bool
  {
    (d: DepositRow) => d.field == field && d.member == member && ThisMonth(d, c)
  }

  function SetAmount(value: Option<Amount>): DepositRow -> DepositRow
  {
    (d: DepositRow) => d.(amount := value)
  }

  function AmountIs(value: Option<Amount>): DepositRow -> bool
  {
    (d: DepositRow) => d.amount == value
  }

  /** The upsert of one posted deposit, corrected: only a row created this
    * month is updated; otherwise a row stamped with this month is created.
    * The save loop's own fallback is `UpsertDepositAsWritten` below, which
    * can leave the month without a row; the ledger uses this version. */
  function UpsertDeposit(rows: seq<DepositRow>, field: FieldId, member: MemberId, value: Option<Amount>, c: Clock): seq<DepositRow>
  {
    Upsert(rows, DepositPair(field, member, c), SetAmount(value), DepositRow(field, member, value, c.year, c.month))
  }

  function AmountMatch(field: FieldId, member: MemberId, value: Option<Amount>): DepositRow -> bool
  {
    (d: DepositRow) => d.field == field && d.member == member && d.amount == value
  }

  /** The upsert of one posted deposit as the save loop writes it: a row
    * created this month is updated; otherwise `get_or_create` looks the
    * member, field and amount up with no month, so an older row with the
    * posted amount is found and nothing is created. */
  function UpsertDepositAsWritten(rows: seq<DepositRow>, field: FieldId, member: MemberId, value: Option<Amount>,
                                  c: Clock): seq<DepositRow>
  {
    if exists i | 0 <= i < |rows| :: DepositPair(field, member, c)(rows[i]) then
      UpdateWhere(rows, DepositPair(field, member, c), SetAmount(value))
    else if exists i | 0 <= i < |rows| :: AmountMatch(field, member, value)(rows[i]) then rows
    else rows + [DepositRow(field, member, value, c.year, c.month)]
  }

  /** The written upsert and the month-scoped one differ exactly when the
    * member has no row of the field this month but an older row with the
    * posted amount; the month then stays without a row. */
  lemma UpsertDepositAsWrittenDiffers(rows: seq<DepositRow>, field: FieldId, member: MemberId, value: Option<Amount>,
                                      c: Clock)
    ensures var lost := Filter(rows, DepositPair(field, member, c)) == [] &&
                       Filter(rows, AmountMatch(field, member, value)) != [];
            (UpsertDepositAsWritten(rows, field, member, value, c) != UpsertDeposit(rows, field, member, value, c) <==> lost) &&
            (lost ==> Filter(UpsertDepositAsWritten(rows, field, member, value, c), DepositPair(field, member, c)) == [])
  {
    var hit := DepositPair(field, member, c);
    var same := AmountMatch(field, member, value);
    if Filter(rows, hit) == [] && Filter(rows, same) != [] {
      var x := Filter(rows, same)[0];
      assert x in Filter(rows, same);
      assert forall i | 0 <= i < |rows| :: !hit(rows[i]);
      var k :| 0 <= k < |rows| && rows[k] == x;
      assert same(rows[k]);
      assert |UpsertDeposit(rows, field, member, value, c)| == |rows| + 1;
    } else if Filter(rows, hit) == [] {
      assert forall i | 0 <= i < |rows| :: !same(rows[i]);
      assert forall i | 0 <= i < |rows| :: !hit(rows[i]);
    } else {
      var x := Filter(rows, hit)[0];
      assert x in Filter(rows, hit);
      var k :| 0 <= k < |rows| && rows[k] == x;
      assert hit(rows[k]);
    }
  }

  /** A monthly deposit of 500.00 posted again in February, after January's
    * row of 500.00: as written nothing is created, so February has no
    * deposit row; the month-scoped upsert records it. */
  lemma RecurringDepositLost()
    ensures var jan := [DepositRow(0, 0, Some(50000), 2024, 1)];
            var feb := Clock(2024, 2, 3, 9, 0, 29, 31);
            Filter(UpsertDepositAsWritten(jan, 0, 0, Some(50000), feb), DepositPair(0, 0, feb)) == [] &&
            Filter(UpsertDeposit(jan, 0, 0, Some(50000), feb), DepositPair(0, 0, feb)) == [DepositRow(0, 0, Some(50000), 2024, 2)]
  {
    var jan := [DepositRow(0, 0, Some(50000), 2024, 1)];
    var feb := Clock(2024, 2, 3, 9, 0, 29, 31);
    assert AmountMatch(0, 0, Some(50000))(jan[0]);
    assert !DepositPair(0, 0, feb)(jan[0]);
    assert UpsertDepositAsWritten(jan, 0, 0, Some(50000), feb) == jan;
    var feb2 := DepositRow(0, 0, Some(50000), 2024, 2);
    assert UpsertDeposit(jan, 0, 0, Some(50000), feb) == jan + [feb2];
    assert (jan + [feb2])[1..] == [feb2];
  }

  /** The corrected upsert always leaves the member a row of the field for
    * the current month, and every such row holds the posted amount. */
  lemma DepositRecordedThisMonth(rows: seq<DepositRow>, field: FieldId, member: MemberId, value: Option<Amount>, c: Clock)
    ensures var r := UpsertDeposit(rows, field, member, value, c);
            Filter(r, DepositPair(field, member, c)) != [] &&
            forall x | x in Filter(r, DepositPair(field, member, c)) :: x.amount == value
  {
    var r := UpsertDeposit(rows, field, member, value, c);
    UpsertHits(rows, DepositPair(field, member, c), SetAmount(value),
               DepositRow(field, member, value, c.year, c.month), AmountIs(value));
    var x :| x in r && DepositPair(field, member, c)(x);
    assert x in Filter(r, DepositPair(field, member, c));
  }

  /** `CashDepositField.objects.get(title=title, room=room)`. */
  function DepositFieldTitled(fields: seq<DepositField>, room: RoomId, title: string): (r: Option<DepositField>)
    ensures r.Some? ==> r.value in fields && r.value.room == room && r.value.title == title
    ensures r.None? ==> forall f | f in fields :: !(f.room == room && f.title == title)
  {
    if fields == [] then None
    else if fields[0].room == room && fields[0].title == title then Some(fields[0])
    else DepositFieldTitled(fields[1..], room, title)
  }

  /** `AssignCashDepositToMemberForm.save` once the gate has passed. */
  function AssignDeposits(rows: seq<DepositRow>, fields: seq<DepositField>, room: RoomId, member: MemberId,
                          c: Clock, entries: seq<Entry>): seq<DepositRow>
  {
    if entries == [] then rows
    else
      var rest := AssignDeposits(rows, fields, room, member, c, entries[..|entries| - 1]);
      var e := entries[|entries| - 1];
      match DepositFieldTitled(fields, room, e.title)
      case None => rest
      case Some(f) => UpsertDeposit(rest, f.id, member, e.value, c)
  }

  function LastDepositFor(fields: seq<DepositField>, room: RoomId, entries: seq<Entry>, fid: FieldId): Option<Option<Amount>>
  {
    if entries == [] then None
    else
      var e := entries[|entries| - 1];
      var f := DepositFieldTitled(fields, room, e.title);
      if f.Some? && f.value.id == fid then Some(e.value)
      else LastDepositFor(fields, room, entries[..|entries| - 1], fid)
  }

  /** After a deposit assignment the member has a row created this month for
    * every posted field, holding the last value posted for it. */
  lemma {:induction false} AssignDepositsEffect(rows: seq<DepositRow>, fields: seq<DepositField>, room: RoomId,
                                                member: MemberId, c: Clock, entries: seq<Entry>, fid: FieldId)
    ensures var r := AssignDeposits(rows, fields, room, member, c, entries);
            match LastDepositFor(fields, room, entries, fid)
            case Some(v) =>
              Filter(r, DepositPair(fid, member, c)) != [] &&
              forall x | x in Filter(r, DepositPair(fid, member, c)) :: x.amount == v
            case None => Filter(r, DepositPair(fid, member, c)) == Filter(rows, DepositPair(fid, member, c))
  {
    if entries != [] {
      var init := entries[..|entries| - 1];
      var e := entries[|entries| - 1];
      var rest := AssignDeposits(rows, fields, room, member, c, init);
      AssignDepositsEffect(rows, fields, room, member, c, init, fid);
      match DepositFieldTitled(fields, room, e.title) {
        case None =>
        case Some(f) =>
          if f.id == fid {
            UpsertHits(rest, DepositPair(fid, member, c), SetAmount(e.value),
                       DepositRow(fid, member, e.value, c.year, c.month), AmountIs(e.value));
            var r := UpsertDeposit(rest, fid, member, e.value, c);
            var x :| x in r && DepositPair(fid, member, c)(x);
            assert x in Filter(r, DepositPair(fid, member, c));
          } else {
            UpsertKeeps(rest, DepositPair(f.id, member, c), SetAmount(e.value),
                        DepositRow(f.id, member, e.value, c.year, c.month), DepositPair(fid, member, c));
          }
      }
    }
  }

  /** Rows of other members, and rows created in another month, are
    * untouched by a deposit assignment. */
  lemma {:induction false} AssignDepositsFrame(rows: seq<DepositRow>, fields: seq<DepositField>, room: RoomId,
                                               member: MemberId, c: Clock, entries: seq<Entry>, keep: DepositRow -> bool)
    requires forall x :: keep(x) ==> x.member != member || !ThisMonth(x, c)
    ensures Filter(AssignDeposits(rows, fields, room, member, c, entries), keep) == Filter(rows, keep)
  {
    if entries != [] {
      var init := entries[..|entries| - 1];
      var e := entries[|entries| - 1];
      AssignDepositsFrame(rows, fields, room, member, c, init, keep);
      match DepositFieldTitled(fields, room, e.title) {
        case None =>
        case Some(f) =>
          var rest := AssignDeposits(rows, fields, room, member, c, init);
          UpsertKeeps(rest, DepositPair(f.id, member, c), SetAmount(e.value),
                      DepositRow(f.id, member, e.value, c.year, c.month), keep);
      }
    }
  }

  // ----------------------------------------------------------------- gates

  /** `membership_cross_check`, then `maintainer_filter` with the roles the
    * form admits: 1 or 2 for cost sectors, 2 for deposits. */
  function Gate(ms: seq<Membership>, actor: UserId, target: MemberId, admits: Role -> bool): (r: Outcome)
    ensures r == NoMembership <==> !exists m | m in ms :: m.user == actor
    ensures r == Assigned ==>
            exists own, t | own in ms && t in ms ::
              own.user == actor && admits(own.role) && t.id == target && t.room == own.room
  {
    match MembershipOf(ms, actor)
    case None => NoMembership
    case Some(own) =>
      if !(exists m | m in ms :: m.id == target && m.room == own.room) then Suspicious
      else if !(exists m | m in ms :: m.user == actor && m.room == own.room && admits(m.role)) then NotPermitted
      else Assigned
  }

  function CostRoles(): Role -> bool { (r: Role) => IsMaintainerRole(r) }
  function DepositRoles(): Role -> bool { (r: Role) => r == Manager }

  /** With one membership per user, a cost assignment is written exactly
    * when the target is in the actor's room and the actor is a supervisor or
    * manager, a deposit assignment exactly when the actor is a manager; a
    * target outside the room is always the suspicious case. */
  lemma GateAdmits(ms: seq<Membership>, actor: UserId, target: MemberId)
    requires OneMembershipPerUser(ms)
    ensures Gate(ms, actor, target, CostRoles()) == Assigned <==>
            exists own, m | own in ms && m in ms ::
              own.user == actor && IsMaintainerRole(own.role) && m.id == target && m.room == own.room
    ensures Gate(ms, actor, target, DepositRoles()) == Assigned <==>
            exists own, m | own in ms && m in ms ::
              own.user == actor && own.role == Manager && m.id == target && m.room == own.room
    ensures Gate(ms, actor, target, CostRoles()) == Suspicious <==> Gate(ms, actor, target, DepositRoles()) == Suspicious
  {
    match MembershipOf(ms, actor) {
      case None =>
      case Some(own) =>
        forall m | m in ms && m.user == actor ensures m == own {
          MembershipOfIsUnique(ms, m);
        }
    }
  }

  /** The view that serves the cost-assignment form lets in only a manager
    * of the actor's room or the room's creator; the form's save then admits
    * a supervisor or a manager. Together a cost assignment is written
    * exactly for a manager, or a supervisor who created the room, whose
    * target is in that room: a supervisor who is not the creator never
    * assigns costs, so for a non-creator the test is the deposit test. */
  lemma {:induction false} AssignCostAccess(ms: seq<Membership>, actor: UserId, target: MemberId, room: Room)
    requires OneMembershipPerUser(ms)
    requires forall own | own in ms && own.user == actor :: own.room == room.id
    ensures Permissions.ManagesFields(ms, actor, room) && Gate(ms, actor, target, CostRoles()) == Assigned <==>
            exists own, m | own in ms && m in ms ::
              own.user == actor && m.id == target && m.room == room.id &&
              (own.role == Manager || (own.role == Supervisor && room.creator.id == actor))
    ensures room.creator.id != actor ==>
              (Permissions.ManagesFields(ms, actor, room) && Gate(ms, actor, target, CostRoles()) == Assigned <==>
               Gate(ms, actor, target, DepositRoles()) == Assigned)
  {
    GateAdmits(ms, actor, target);
  }

  // ----------------------------------------------------------------- seeds

  function CostSeed(field: FieldId): Membership -> CostRow
  {
    (m: Membership) => CostRow(field, m.id, Some(0))
  }

  function MemberCostSeed(member: MemberId): CostField -> CostRow
  {
    (f: CostField) => CostRow(f.id, member, Some(0))
  }

  function DepositSeed(field: FieldId, c: Clock): Membership -> DepositRow
  {
    (m: Membership) => DepositRow(field, m.id, Some(0), c.year, c.month)
  }

  function MemberDepositSeed(member: MemberId, c: Clock): DepositField -> DepositRow
  {
    (f: DepositField) => DepositRow(f.id, member, Some(0), c.year, c.month)
  }

  /** A field new to the rows, seeded for members with unique slugs, gives
    * each of those members exactly one zero row and nobody else any. */
  lemma SeedsOnePerMember(rows: seq<CostRow>, field: FieldId, members: seq<Membership>, id: MemberId)
    requires forall x | x in rows :: x.field != field
    requires UniqueMemberIds(members)
    ensures var r := rows + MapSeq(members, CostSeed(field));
            Filter(r, CostPair(field, id)) ==
              if exists m | m in members :: m.id == id then [CostRow(field, id, Some(0))] else []
  {
    var p := CostPair(field, id);
    FilterConcat(rows, MapSeq(members, CostSeed(field)), p);
    FilterNone(rows, p);
    if exists m | m in members :: m.id == id {
      var k :| 0 <= k < |members| && members[k].id == id;
      MapSelectsOne(members, CostSeed(field), p, k);
    } else {
      MapSelectsNone(members, CostSeed(field), p);
    }
  }

  /** Likewise for deposit fields: one zero row this month per member. */
  lemma DepositSeedsOnePerMember(rows: seq<DepositRow>, field: FieldId, members: seq<Membership>, id: MemberId, c: Clock)
    requires forall x | x in rows :: x.field != field
    requires UniqueMemberIds(members)
    ensures var r := rows + MapSeq(members, DepositSeed(field, c));
            Filter(r, DepositPair(field, id, c)) ==
              if exists m | m in members :: m.id == id then [DepositRow(field, id, Some(0), c.year, c.month)] else []
  {
    var p := DepositPair(field, id, c);
    FilterConcat(rows, MapSeq(members, DepositSeed(field, c)), p);
    FilterNone(rows, p);
    if exists m | m in members :: m.id == id {
      var k :| 0 <= k < |members| && members[k].id == id;
      MapSelectsOne(members, DepositSeed(field, c), p, k);
    } else {
      MapSelectsNone(members, DepositSeed(field, c), p);
    }
  }

  /** The rows seeded for a member come one per field, and only from those
    * fields. */
  lemma SeedsFromFields(fields: seq<DepositField>, member: MemberId, c: Clock)
    ensures forall f | f in fields :: DepositRow(f.id, member, Some(0), c.year, c.month) in MapSeq(fields, MemberDepositSeed(member, c))
    ensures forall x | x in MapSeq(fields, MemberDepositSeed(member, c)) :: exists f | f in fields :: x.field == f.id
  {
    var r := MapSeq(fields, MemberDepositSeed(member, c));
    forall f | f in fields ensures DepositRow(f.id, member, Some(0), c.year, c.month) in r {
      var k :| 0 <= k < |fields| && fields[k] == f;
      assert r[k] == MemberDepositSeed(member, c)(f);
    }
    forall x | x in r ensures exists f | f in fields :: x.field == f.id {
      var k :| 0 <= k < |r| && r[k] == x;
      assert fields[k] in fields;
    }
  }

  /** `MemberTrack.objects.filter(member__user=user).exists()`. */
  predicate HasCostRows(rows: seq<CostRow>, ms: seq<Membership>, user: UserId)
  {
    exists x, m | x in rows && m in ms :: x.member == m.id && m.user == user
  }

  /** How many times `id` appears. */
  function Occurrences(xs: seq<MemberId>, id: MemberId): nat
  {
    |Filter(xs, (x: MemberId) => x == id)|
  }

  // ---------------------------------------------------------------- ledger

  /** The cost-sector and deposit tables, the `TotalHolder` table (one
    * member slug per holder) and the source of fresh field slugs. */
  class Ledger {
    var costFields: seq<CostField>
    var costs: seq<CostRow>
    var depositFields: seq<DepositField>
    var deposits: seq<DepositRow>
    var holders: seq<MemberId>
    var nextField: nat

    /** Every field and row refers to a field slug already handed out. */
    predicate Valid()
      reads this
    {
      (forall f | f in costFields :: f.id < nextField) &&
      (forall x | x in costs :: x.field < nextField) &&
      (forall f | f in depositFields :: f.id < nextField) &&
      (forall x | x in deposits :: x.field < nextField)
    }

    constructor ()
      ensures Valid()
      ensures costFields == [] && costs == [] && depositFields == [] && deposits == [] && holders == []
    {
      costFields, costs, depositFields, deposits, holders := [], [], [], [], [];
      nextField := 0;
    }

    /** The `for member in member_filter: MemberTrack.objects.create(...)`
      * loop of `TrackerFieldCreateForm.save`. */
    method SeedCostField(field: FieldId, members: seq<Membership>)
      modifies this
      ensures costs == old(costs) + MapSeq(members, CostSeed(field))
      ensures costFields == old(costFields) && depositFields == old(depositFields)
      ensures deposits == old(deposits) && holders == old(holders) && nextField == old(nextField)
    {
      var i := 0;
      while i < |members|
        invariant 0 <= i <= |members|
        invariant costs == old(costs) + MapSeq(members[..i], CostSeed(field))
        invariant costFields == old(costFields) && depositFields == old(depositFields)
        invariant deposits == old(deposits) && holders == old(holders) && nextField == old(nextField)
      {
        costs := costs + [CostRow(field, members[i].id, Some(0))];
        assert MapSeq(members[..i + 1], CostSeed(field)) == MapSeq(members[..i], CostSeed(field)) + [CostSeed(field)(members[i])];
        i := i + 1;
      }
      assert members[..i] == members;
    }

    /** `TrackerFieldCreateForm`: `clean_title` and the description field's
      * 30-character bound, then `save`, which creates the field and a zero
      * cost row for every member of the room. A refused title is the error
      * reported. */
    method CreateCostField(ms: seq<Membership>, room: RoomId, title: string, description: Option<string>)
      returns (check: Check)
      requires Valid()
      modifies this
      ensures Valid()
      ensures check == Pass <==> CleanCostTitle(old(costFields), room, title) == Pass &&
                                 (description.Some? ==> CleanDescription(description.value) == Pass)
      ensures CleanCostTitle(old(costFields), room, title) != Pass ==> check == CleanCostTitle(old(costFields), room, title)
      ensures check == Pass ==>
                nextField == old(nextField) + 1 &&
                costFields == old(costFields) + [CostField(old(nextField), title, room, description)] &&
                costs == old(costs) + MapSeq(RoomMembers(ms, room), CostSeed(old(nextField)))
      ensures check != Pass ==> costFields == old(costFields) && costs == old(costs) && nextField == old(nextField)
      ensures depositFields == old(depositFields) && deposits == old(deposits) && holders == old(holders)
    {
      check := CleanCostTitle(costFields, room, title);
      if check == Pass && description.Some? {
        check := CleanDescription(description.value);
      }
      if check == Pass {
        var id := nextField;
        costFields := costFields + [CostField(id, title, room, description)];
        nextField := nextField + 1;
        SeedCostField(id, RoomMembers(ms, room));
      }
    }

    /** `create_or_update_cash_deposit_field`. */
    method SeedDepositField(field: FieldId, members: seq<Membership>, c: Clock)
      modifies this
      ensures deposits == old(deposits) + MapSeq(members, DepositSeed(field, c))
      ensures costFields == old(costFields) && costs == old(costs) && depositFields == old(depositFields)
      ensures holders == old(holders) && nextField == old(nextField)
    {
      var i := 0;
      while i < |members|
        invariant 0 <= i <= |members|
        invariant deposits == old(deposits) + MapSeq(members[..i], DepositSeed(field, c))
        invariant costFields == old(costFields) && costs == old(costs) && depositFields == old(depositFields)
        invariant holders == old(holders) && nextField == old(nextField)
      {
        deposits := deposits + [DepositRow(field, members[i].id, Some(0), c.year, c.month)];
        assert MapSeq(members[..i + 1], DepositSeed(field, c)) ==
               MapSeq(members[..i], DepositSeed(field, c)) + [DepositSeed(field, c)(members[i])];
        i := i + 1;
      }
      assert members[..i] == members;
    }

    /** `CashDepositFieldCreateForm` and `CashDepositFieldCreateView.form_valid`:
      * the title and description checks, then the room duplicate test; the
      * saved field is seeded for every member of the room. */
    method CreateDepositField(ms: seq<Membership>, room: RoomId, title: string, description: Option<string>, c: Clock)
      returns (ok: bool)
      requires Valid()
      modifies this
      ensures Valid()
      ensures ok <==> CreateDepositFieldCheck(old(depositFields), room, title) == Pass &&
                      (description.Some? ==> CleanDescription(description.value) == Pass)
      ensures ok ==> nextField == old(nextField) + 1 &&
                     depositFields == old(depositFields) + [DepositField(old(nextField), title, room, description)] &&
                     deposits == old(deposits) + MapSeq(RoomMembers(ms, room), DepositSeed(old(nextField), c))
      ensures !ok ==> depositFields == old(depositFields) && deposits == old(deposits) && nextField == old(nextField)
      ensures costFields == old(costFields) && costs == old(costs) && holders == old(holders)
    {
      ok := CreateDepositFieldCheck(depositFields, room, title) == Pass &&
            (description.Some? ==> CleanDescription(description.value) == Pass);
      if ok {
        var id := nextField;
        depositFields := depositFields + [DepositField(id, title, room, description)];
        nextField := nextField + 1;
        SeedDepositField(id, RoomMembers(ms, room), c);
      }
    }

    /** The loop of `create_or_update_cash_deposit_member`. */
    method SeedMemberDeposits(member: MemberId, fields: seq<DepositField>, c: Clock)
      modifies this
      ensures deposits == old(deposits) + MapSeq(fields, MemberDepositSeed(member, c))
      ensures costFields == old(costFields) && costs == old(costs) && depositFields == old(depositFields)
      ensures holders == old(holders) && nextField == old(nextField)
    {
      var i := 0;
      while i < |fields|
        invariant 0 <= i <= |fields|
        invariant deposits == old(deposits) + MapSeq(fields[..i], MemberDepositSeed(member, c))
        invariant costFields == old(costFields) && costs == old(costs) && depositFields == old(depositFields)
        invariant holders == old(holders) && nextField == old(nextField)
      {
        deposits := deposits + [DepositRow(fields[i].id, member, Some(0), c.year, c.month)];
        assert MapSeq(fields[..i + 1], MemberDepositSeed(member, c)) ==
               MapSeq(fields[..i], MemberDepositSeed(member, c)) + [MemberDepositSeed(member, c)(fields[i])];
        i := i + 1;
      }
      assert fields[..i] == fields;
    }

    /** The two `post_save` receivers on `Membership`: one `TotalHolder`
      * for the new membership, and a zero deposit row for each deposit field
      * of its room. */
    method OnMembershipCreated(m: Membership, c: Clock)
      requires Valid()
      modifies this
      ensures Valid()
      ensures holders == old(holders) + [m.id]
      ensures Occurrences(holders, m.id) == Occurrences(old(holders), m.id) + 1
      ensures deposits == old(deposits) + MapSeq(DepositFieldsOf(depositFields, m.room), MemberDepositSeed(m.id, c))
      ensures forall f | f in depositFields && f.room == m.room :: DepositRow(f.id, m.id, Some(0), c.year, c.month) in deposits
      ensures costFields == old(costFields) && costs == old(costs) && depositFields == old(depositFields)
      ensures nextField == old(nextField)
    {
      holders := holders + [m.id];
      FilterConcat(old(holders), [m.id], (x: MemberId) => x == m.id);
      assert [m.id][1..] == [];
      var fields := DepositFieldsOf(depositFields, m.room);
      SeedMemberDeposits(m.id, fields, c);
      SeedsFromFields(fields, m.id, c);
      assert forall x | x in old(deposits) :: x.field < nextField;
    }

    /** The cost rows `member_request_confirm` creates: a zero row for each
      * cost sector of the room, only when the room has sectors and the user
      * has no cost row yet. */
    method SeedMemberCosts(ms: seq<Membership>, user: UserId, member: MemberId, room: RoomId)
      requires Valid()
      modifies this
      ensures Valid()
      ensures costs == if HasCostRows(old(costs), ms, user) then old(costs)
                       else old(costs) + MapSeq(CostFieldsOf(costFields, room), MemberCostSeed(member))
      ensures costFields == old(costFields) && depositFields == old(depositFields) && deposits == old(deposits)
      ensures holders == old(holders) && nextField == old(nextField)
    {
      var fields := CostFieldsOf(costFields, room);
      if fields != [] && !HasCostRows(costs, ms, user) {
        var i := 0;
        while i < |fields|
          invariant 0 <= i <= |fields|
          invariant costs == old(costs) + MapSeq(fields[..i], MemberCostSeed(member))
          invariant Valid()
          invariant costFields == old(costFields) && depositFields == old(depositFields) && deposits == old(deposits)
          invariant holders == old(holders) && nextField == old(nextField)
        {
          assert fields[i] in costFields;
          costs := costs + [CostRow(fields[i].id, member, Some(0))];
          assert MapSeq(fields[..i + 1], MemberCostSeed(member)) ==
                 MapSeq(fields[..i], MemberCostSeed(member)) + [MemberCostSeed(member)(fields[i])];
          i := i + 1;
        }
        assert fields[..i] == fields;
      } else if fields == [] {
        assert MapSeq(fields, MemberCostSeed(member)) == [];
      }
    }

    /** One posted cost: the queryset `update` when the member has a row
      * for the field, the `create` otherwise. */
    method UpsertCostRow(field: FieldId, member: MemberId, value: Option<Amount>)
      modifies this
      ensures costs == UpsertCost(old(costs), field, member, value)
      ensures costFields == old(costFields) && depositFields == old(depositFields) && deposits == old(deposits)
      ensures holders == old(holders) && nextField == old(nextField)
    {
      var found := false;
      var j := 0;
      while j < |costs|
        invariant 0 <= j <= |costs| == |old(costs)|
        invariant found <==> exists k | 0 <= k < j :: CostPair(field, member)(old(costs)[k])
        invariant forall k | 0 <= k < j ::
                    costs[k] == if CostPair(field, member)(old(costs)[k]) then old(costs)[k].(cost := value) else old(costs)[k]
        invariant forall k | j <= k < |costs| :: costs[k] == old(costs)[k]
        invariant costFields == old(costFields) && depositFields == old(depositFields) && deposits == old(deposits)
        invariant holders == old(holders) && nextField == old(nextField)
      {
        if costs[j].field == field && costs[j].member == member {
          costs := costs[j := costs[j].(cost := value)];
          found := true;
        }
        j := j + 1;
      }
      if found {
        assert costs == UpdateWhere(old(costs), CostPair(field, member), SetCost(value));
      } else {
        assert costs == old(costs);
        costs := costs + [CostRow(field, member, value)];
      }
    }

    /** One posted deposit, with the corrected fallback of `UpsertDeposit`:
      * only a row created this month is updated, else one is created. */
    method UpsertDepositRow(field: FieldId, member: MemberId, value: Option<Amount>, c: Clock)
      modifies this
      ensures deposits == UpsertDeposit(old(deposits), field, member, value, c)
      ensures costFields == old(costFields) && costs == old(costs) && depositFields == old(depositFields)
      ensures holders == old(holders) && nextField == old(nextField)
    {
      var found := false;
      var j := 0;
      while j < |deposits|
        invariant 0 <= j <= |deposits| == |old(deposits)|
        invariant found <==> exists k | 0 <= k < j :: DepositPair(field, member, c)(old(deposits)[k])
        invariant forall k | 0 <= k < j ::
                    deposits[k] == if DepositPair(field, member, c)(old(deposits)[k]) then old(deposits)[k].(amount := value) else old(deposits)[k]
        invariant forall k | j <= k < |deposits| :: deposits[k] == old(deposits)[k]
        invariant costFields == old(costFields) && costs == old(costs) && depositFields == old(depositFields)
        invariant holders == old(holders) && nextField == old(nextField)
      {
        var d := deposits[j];
        if d.field == field && d.member == member && d.createdYear == c.year && d.createdMonth == c.month {
          deposits := deposits[j := d.(amount := value)];
          found := true;
        }
        j := j + 1;
      }
      if found {
        assert deposits == UpdateWhere(old(deposits), DepositPair(field, member, c), SetAmount(value));
      } else {
        assert deposits == old(deposits);
        deposits := deposits + [DepositRow(field, member, value, c.year, c.month)];
      }
    }

    /** `AssignFieldToMemberForm.save`. */
    method AssignCostForm(ms: seq<Membership>, log: SuspiciousLog, actor: UserId, target: MemberId, entries: seq<Entry>)
      returns (outcome: Outcome)
      requires Valid()
      modifies this, log
      ensures Valid()
      ensures outcome == Gate(ms, actor, target, CostRoles())
      ensures outcome == Assigned ==>
                costs == AssignCosts(old(costs), costFields, MembershipOf(ms, actor).value.room, target, entries)
      ensures outcome != Assigned ==> costs == old(costs)
      ensures log.attempts == if outcome == Suspicious then AfterFailedAttempt(old(log.attempts), actor, log.initial)
                              else old(log.attempts)
      ensures costFields == old(costFields) && depositFields == old(depositFields) && deposits == old(deposits)
      ensures holders == old(holders) && nextField == old(nextField)
    {
      outcome := Gate(ms, actor, target, CostRoles());
      if outcome == Suspicious {
        log.RecordFailedAttempt(actor);
      } else if outcome == Assigned {
        AssignCostRows(MembershipOf(ms, actor).value.room, target, entries);
      }
    }

    /** The saving loop of `AssignFieldToMemberForm.save`, one entry at a time. */
    method AssignCostRows(room: RoomId, target: MemberId, entries: seq<Entry>)
      requires Valid()
      modifies this
      ensures Valid()
      ensures costs == AssignCosts(old(costs), costFields, room, target, entries)
      ensures costFields == old(costFields) && depositFields == old(depositFields) && deposits == old(deposits)
      ensures holders == old(holders) && nextField == old(nextField)
    {
      var i := 0;
      while i < |entries|
        invariant 0 <= i <= |entries|
        invariant costs == AssignCosts(old(costs), costFields, room, target, entries[..i])
        invariant Valid()
        invariant costFields == old(costFields) && depositFields == old(depositFields) && deposits == old(deposits)
        invariant holders == old(holders) && nextField == old(nextField)
      {
        assert entries[..i + 1][..i] == entries[..i];
        match CostFieldTitled(costFields, room, entries[i].title) {
          case None =>
          case Some(f) =>
            UpsertCostRow(f.id, target, entries[i].value);
        }
        i := i + 1;
      }
      assert entries[..i] == entries;
    }

    /** `AssignCashDepositToMemberForm.save`. */
    method AssignDepositForm(ms: seq<Membership>, log: SuspiciousLog, actor: UserId, target: MemberId,
                             entries: seq<Entry>, c: Clock)
      returns (outcome: Outcome)
      requires Valid()
      modifies this, log
      ensures Valid()
      ensures outcome == Gate(ms, actor, target, DepositRoles())
      ensures outcome == Assigned ==>
                deposits == AssignDeposits(old(deposits), depositFields, MembershipOf(ms, actor).value.room, target, c, entries)
      ensures outcome != Assigned ==> deposits == old(deposits)
      ensures log.attempts == if outcome == Suspicious then AfterFailedAttempt(old(log.attempts), actor, log.initial)
                              else old(log.attempts)
      ensures costFields == old(costFields) && costs == old(costs) && depositFields == old(depositFields)
      ensures holders == old(holders) && nextField == old(nextField)
    {
      outcome := Gate(ms, actor, target, DepositRoles());
      if outcome == Suspicious {
        log.RecordFailedAttempt(actor);
      } else if outcome == Assigned {
        AssignDepositRows(MembershipOf(ms, actor).value.room, target, entries, c);
      }
    }

    /** The saving loop of `AssignCashDepositToMemberForm.save`. */
    method AssignDepositRows(room: RoomId, target: MemberId, entries: seq<Entry>, c: Clock)
      requires Valid()
      modifies this
      ensures Valid()
      ensures deposits == AssignDeposits(old(deposits), depositFields, room, target, c, entries)
      ensures costFields == old(costFields) && costs == old(costs) && depositFields == old(depositFields)
      ensures holders == old(holders) && nextField == old(nextField)
    {
      var i := 0;
      while i < |entries|
        invariant 0 <= i <= |entries|
        invariant deposits == AssignDeposits(old(deposits), depositFields, room, target, c, entries[..i])
        invariant Valid()
        invariant costFields == old(costFields) && costs == old(costs) && depositFields == old(depositFields)
        invariant holders == old(holders) && nextField == old(nextField)
      {
        assert entries[..i + 1][..i] == entries[..i];
        match DepositFieldTitled(depositFields, room, entries[i].title) {
          case None =>
          case Some(f) =>
            UpsertDepositRow(f.id, target, entries[i].value, c);
        }
        i := i + 1;
      }
      assert entries[..i] == entries;
    }
  }
}
