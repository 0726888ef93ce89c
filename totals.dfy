/** The `TotalHolder.get_*` aggregates of tracker/models.py: filtered sums
  * per member and per room. Each getter returns 0 when its filter selects
  * no row and the SQL `SUM` of the column otherwise, and `SUM` over a
  * nullable column whose selected values are all NULL is NULL. The sums
  * as written are `Option`s; the sums with NULL read as zero are the
  * `SumWhere` forms, which the room and grand totals are proved about. */
module Totals {
  import opened Common
  import opened Roles
  import opened Rooms
  import opened Memberships
  import opened MealTable
  import opened TrackerModels

  // ------------------------------------------------------------ generic sums

  function Val(o: Option<Amount>): nat
  {
    if o.Some? then o.value else 0
  }

  /** The column `val` of the rows `xs`. */
  function Column<T>(xs: seq<T>, val: T -> Option<Amount>): (r: seq<Option<Amount>>)
    ensures |r| == |xs| && forall i | 0 <= i < |xs| :: r[i] == val(xs[i])
  {
    seq(|xs|, i requires 0 <= i < |xs| => val(xs[i]))
  }

  /** A getter as written: 0 when nothing is selected, else the SQL sum. */
  function Aggregate<T(!new)>(xs: seq<T>, p: T -> bool, val: T -> Option<Amount>): Option<Amount>
  {
    var selected := Filter(xs, p);
    if selected == [] then Some(0) else SqlSum(Column(selected, val))
  }

  /** The sum of the selected values with NULL read as zero. */
  function SumWhere<T>(xs: seq<T>, p: T -> bool, val: T -> Option<Amount>): nat
  {
    if xs == [] then 0
    else (if p(xs[0]) then Val(val(xs[0])) else 0) + SumWhere(xs[1..], p, val)
  }

  lemma {:induction false} SumWhereIsSumOrZero<T(!new)>(xs: seq<T>, p: T -> bool, val: T -> Option<Amount>)
    ensures SumWhere(xs, p, val) == SumOrZero(Column(Filter(xs, p), val))
  {
    if xs != [] {
      SumWhereIsSumOrZero(xs[1..], p, val);
      var head := if p(xs[0]) then [xs[0]] else [];
      var rest := Filter(xs[1..], p);
      assert Filter(xs, p) == head + rest;
      assert Column(head + rest, val) == Column(head, val) + Column(rest, val);
      SumOrZeroAppend(Column(head, val), Column(rest, val));
      if p(xs[0]) {
        var col := Column(head, val);
        assert col == [val(xs[0])];
        assert col[..|col| - 1] == [];
      }
    }
  }

  /** A getter as written agrees with the NULL-as-zero sum whenever it is
    * not NULL, and is NULL exactly when rows are selected and every
    * selected value is NULL. */
  lemma AggregateAgrees<T(!new)>(xs: seq<T>, p: T -> bool, val: T -> Option<Amount>)
    ensures Aggregate(xs, p, val).Some? ==> Aggregate(xs, p, val).value == SumWhere(xs, p, val)
    ensures Aggregate(xs, p, val).None? ==> SumWhere(xs, p, val) == 0
    ensures Aggregate(xs, p, val).None? <==>
            Filter(xs, p) != [] && forall x | x in xs && p(x) :: val(x).None?
  {
    var selected := Filter(xs, p);
    SumWhereIsSumOrZero(xs, p, val);
    SqlSumAgrees(Column(selected, val));
    if selected != [] {
      var col := Column(selected, val);
      assert (forall i | 0 <= i < |col| :: col[i].None?) <==> (forall x | x in selected :: val(x).None?) by {
        if forall i | 0 <= i < |col| :: col[i].None? {
          forall x | x in selected ensures val(x).None? {
            var i :| 0 <= i < |selected| && selected[i] == x;
            assert col[i].None?;
          }
        }
      }
    }
  }

  /** The getter as written, stated on the rows themselves: NULL exactly
    * when some row is selected and every selected value is NULL, the
    * NULL-as-zero sum otherwise. */
  lemma AggregateOnRows<T(!new)>(xs: seq<T>, p: T -> bool, val: T -> Option<Amount>)
    ensures Aggregate(xs, p, val).Some? ==> Aggregate(xs, p, val).value == SumWhere(xs, p, val)
    ensures Aggregate(xs, p, val).None? <==>
            (exists x | x in xs :: p(x)) && forall x | x in xs && p(x) :: val(x).None?
  {
    AggregateAgrees(xs, p, val);
    if Filter(xs, p) != [] {
      assert Filter(xs, p)[0] in Filter(xs, p);
    }
  }

  /** Over a NOT NULL column the getter as written is never NULL. */
  lemma NotNullColumn<T(!new)>(xs: seq<T>, p: T -> bool, val: T -> Option<Amount>)
    requires forall x :: val(x).Some?
    ensures Aggregate(xs, p, val) == Some(SumWhere(xs, p, val))
  {
    AggregateAgrees(xs, p, val);
    if Filter(xs, p) != [] {
      var x := Filter(xs, p)[0];
      assert x in Filter(xs, p);
    }
  }

  /** Selected by two disjoint filters that together make `p`: the sum
    * splits. */
  lemma {:induction false} SumWhereSplit<T>(xs: seq<T>, p: T -> bool, q: T -> bool, r: T -> bool,
                                            val: T -> Option<Amount>)
    requires forall x :: p(x) <==> q(x) || r(x)
    requires forall x :: !(q(x) && r(x))
    ensures SumWhere(xs, p, val) == SumWhere(xs, q, val) + SumWhere(xs, r, val)
  {
    if xs != [] {
      SumWhereSplit(xs[1..], p, q, r, val);
    }
  }

  // --------------------------------------------------------- member vs room

  /** The room of the membership with slug `id`. */
  function RoomOfMember(ms: seq<Membership>, id: MemberId): (r: Option<RoomId>)
    ensures r.Some? <==> exists m :: m in ms && m.id == id
  {
    match MembershipWithId(ms, id)
    case None => None
    case Some(m) => Some(m.room)
  }

  /** `filter(member=id, ...)`. */
  function ByMember<T>(id: MemberId, who: T -> MemberId, extra: T -> bool): T -> bool
  {
    (x: T) => who(x) == id && extra(x)
  }

  /** `filter(member__room=room, ...)`. */
  function InRoom<T>(ms: seq<Membership>, room: RoomId, who: T -> MemberId, extra: T -> bool): T -> bool
  {
    (x: T) => RoomOfMember(ms, who(x)) == Some(room) && extra(x)
  }

  /** The member totals of `members`, added up. */
  function MemberSums<T>(xs: seq<T>, who: T -> MemberId, extra: T -> bool, val: T -> Option<Amount>,
                         members: seq<Membership>): nat
  {
    if members == [] then 0
    else SumWhere(xs, ByMember(members[0].id, who, extra), val) + MemberSums(xs, who, extra, val, members[1..])
  }

  lemma {:induction false} MemberSumsNil<T>(who: T -> MemberId, extra: T -> bool, val: T -> Option<Amount>,
                                            members: seq<Membership>)
    ensures MemberSums([], who, extra, val, members) == 0
  {
    if members != [] {
      MemberSumsNil(who, extra, val, members[1..]);
    }
  }

  /** One row adds its value to the total of each listed member it belongs
    * to; with unique slugs that is at most one member. */
  lemma {:induction false} MemberSumsCons<T>(x: T, rest: seq<T>, who: T -> MemberId, extra: T -> bool,
                                             val: T -> Option<Amount>, members: seq<Membership>)
    requires UniqueMemberIds(members)
    ensures MemberSums([x] + rest, who, extra, val, members) ==
            MemberSums(rest, who, extra, val, members) +
            (if extra(x) && exists m | m in members :: m.id == who(x) then Val(val(x)) else 0)
  {
    if members != [] {
      var tail := members[1..];
      assert UniqueMemberIds(tail) by {
        forall i, j | 0 <= i < j < |tail| ensures tail[i].id != tail[j].id {
          assert tail[i] == members[i + 1] && tail[j] == members[j + 1];
        }
      }
      MemberSumsCons(x, rest, who, extra, val, tail);
      assert ([x] + rest)[1..] == rest;
      assert (exists m | m in members :: m.id == who(x)) <==>
             members[0].id == who(x) || exists m | m in tail :: m.id == who(x);
      if members[0].id == who(x) {
        forall m | m in tail ensures m.id != who(x) {
          var k :| 0 <= k < |tail| && tail[k] == m;
          assert members[k + 1] == m;
        }
      }
    }
  }

  lemma {:induction false} FilterKeepsUniqueIds(ms: seq<Membership>, p: Membership -> bool)
    requires UniqueMemberIds(ms)
    ensures UniqueMemberIds(Filter(ms, p))
  {
    if ms != [] {
      var tail := ms[1..];
      assert UniqueMemberIds(tail) by {
        forall i, j | 0 <= i < j < |tail| ensures tail[i].id != tail[j].id {
          assert tail[i] == ms[i + 1] && tail[j] == ms[j + 1];
        }
      }
      FilterKeepsUniqueIds(tail, p);
      if p(ms[0]) {
        var r := Filter(ms, p);
        assert r == [ms[0]] + Filter(tail, p);
        forall j | 0 < j < |r| ensures r[0].id != r[j].id {
          assert r[j] in tail;
          var k :| 0 <= k < |tail| && tail[k] == r[j];
          assert ms[k + 1] == r[j];
        }
      }
    }
  }

  /** With unique slugs, a row's member is in the room exactly when the
    * membership found by slug is in the room. */
  lemma {:induction false} RoomOfMemberUnique(ms: seq<Membership>, room: RoomId, id: MemberId)
    requires UniqueMemberIds(ms)
    ensures RoomOfMember(ms, id) == Some(room) <==> exists m | m in ms :: m.id == id && m.room == room
  {
    if ms != [] && ms[0].id != id {
      var tail := ms[1..];
      assert UniqueMemberIds(tail) by {
        forall i, j | 0 <= i < j < |tail| ensures tail[i].id != tail[j].id {
          assert tail[i] == ms[i + 1] && tail[j] == ms[j + 1];
        }
      }
      RoomOfMemberUnique(tail, room, id);
      assert MembershipWithId(ms, id) == MembershipWithId(tail, id);
      assert (exists m | m in ms :: m.id == id && m.room == room) <==>
             (exists m | m in tail :: m.id == id && m.room == room);
    } else if ms != [] {
      forall m | m in ms && m.id == id ensures m == ms[0] {
        var k :| 0 <= k < |ms| && ms[k] == m;
        assert k == 0;
      }
    }
  }

  /** A room total is the sum of the totals of the room's members. */
  lemma {:induction false} RoomIsSumOfMembers<T>(xs: seq<T>, ms: seq<Membership>, room: RoomId,
                                                 who: T -> MemberId, extra: T -> bool, val: T -> Option<Amount>)
    requires UniqueMemberIds(ms)
    ensures SumWhere(xs, InRoom(ms, room, who, extra), val) == MemberSums(xs, who, extra, val, RoomMembers(ms, room))
  {
    var members := RoomMembers(ms, room);
    FilterKeepsUniqueIds(ms, RoomIs(room));
    if xs == [] {
      MemberSumsNil(who, extra, val, members);
    } else {
      var x := xs[0];
      RoomIsSumOfMembers(xs[1..], ms, room, who, extra, val);
      assert xs == [x] + xs[1..];
      MemberSumsCons(x, xs[1..], who, extra, val, members);
      RoomOfMemberUnique(ms, room, who(x));
    }
  }

  // ------------------------------------------------------------------ meals

  function MealMember(): Meal -> MemberId { (m: Meal) => m.member }
  function MealToday(): Meal -> Option<Amount> { (m: Meal) => m.mealToday }

  /** `meal_date__day__lte=now.day, meal_date__month=now.month,
    * meal_date__year=now.year`. */
  function MonthSoFar(c: Clock): Meal -> bool
  {
    (m: Meal) => m.date.year == c.year && m.date.month == c.month && m.date.day <= c.day
  }

  /** `get_total_meal` as written. */
  function TotalMeal(rows: seq<Meal>, member: MemberId, c: Clock): (r: Option<Amount>)
    ensures r.Some? ==> r.value == SumWhere(rows, ByMember(member, MealMember(), MonthSoFar(c)), MealToday())
    ensures r.None? <==> (exists m | m in rows :: m.member == member && MonthSoFar(c)(m)) &&
                         forall m | m in rows && m.member == member && MonthSoFar(c)(m) :: m.mealToday.None?
  {
    AggregateOnRows(rows, ByMember(member, MealMember(), MonthSoFar(c)), MealToday());
    Aggregate(rows, ByMember(member, MealMember(), MonthSoFar(c)), MealToday())
  }

  /** `get_total_meal_room` as written. */
  function TotalMealRoom(rows: seq<Meal>, ms: seq<Membership>, room: RoomId, c: Clock): (r: Option<Amount>)
    ensures r.Some? ==> r.value == SumWhere(rows, InRoom(ms, room, MealMember(), MonthSoFar(c)), MealToday())
    ensures r.None? <==>
            (exists m | m in rows :: RoomOfMember(ms, m.member) == Some(room) && MonthSoFar(c)(m)) &&
            forall m | m in rows && RoomOfMember(ms, m.member) == Some(room) && MonthSoFar(c)(m) :: m.mealToday.None?
  {
    AggregateOnRows(rows, InRoom(ms, room, MealMember(), MonthSoFar(c)), MealToday());
    Aggregate(rows, InRoom(ms, room, MealMember(), MonthSoFar(c)), MealToday())
  }

  /** `get_total_meal` with a NULL sum read as 0. */
  function TotalMealOrZero(rows: seq<Meal>, member: MemberId, c: Clock): (r: nat)
    ensures TotalMeal(rows, member, c).Some? ==> r == TotalMeal(rows, member, c).value
    ensures TotalMeal(rows, member, c).None? ==> r == 0
  {
    AggregateAgrees(rows, ByMember(member, MealMember(), MonthSoFar(c)), MealToday());
    SumWhere(rows, ByMember(member, MealMember(), MonthSoFar(c)), MealToday())
  }

  /** A member whose rows this month are all backfill placeholders has a
    * NULL meal total, not 0. */
  lemma TotalMealNullOnPlaceholders()
    ensures var c := Clock(2019, 1, 3, 12, 0, 31, 28);
            var rows := [Meal(0, 5, Date(2019, 1, 1), None, None, false, None, 5)];
            TotalMeal(rows, 5, c) == None && TotalMealOrZero(rows, 5, c) == 0
  {
    var c := Clock(2019, 1, 3, 12, 0, 31, 28);
    var rows := [Meal(0, 5, Date(2019, 1, 1), None, None, false, None, 5)];
    var p := ByMember(5, MealMember(), MonthSoFar(c));
    assert Filter(rows, p) == rows;
    assert Column(rows, MealToday()) == [None];
  }

  /** The room's meal total, NULL read as zero, is the sum of its members'
    * totals. */
  lemma MealRoomIsSumOfMembers(rows: seq<Meal>, ms: seq<Membership>, room: RoomId, c: Clock)
    requires UniqueMemberIds(ms)
    ensures SumWhere(rows, InRoom(ms, room, MealMember(), MonthSoFar(c)), MealToday()) ==
            MemberSums(rows, MealMember(), MonthSoFar(c), MealToday(), RoomMembers(ms, room))
    ensures TotalMealRoom(rows, ms, room, c).Some? ==>
            TotalMealRoom(rows, ms, room, c).value == MemberSums(rows, MealMember(), MonthSoFar(c), MealToday(), RoomMembers(ms, room))
  {
    RoomIsSumOfMembers(rows, ms, room, MealMember(), MonthSoFar(c), MealToday());
    AggregateAgrees(rows, InRoom(ms, room, MealMember(), MonthSoFar(c)), MealToday());
  }

  // ------------------------------------------------------------------ costs

  function CostMember(): CostRow -> MemberId { (r: CostRow) => r.member }
  function CostValue(): CostRow -> Option<Amount> { (r: CostRow) => r.cost }
  function AnyCost(): CostRow -> bool { (r: CostRow) => true }

  /** `get_total_cost_sector` as written (its room filter is the member's
    * own room, so it selects every row of the member). */
  function TotalCost(costs: seq<CostRow>, member: MemberId): (r: Option<Amount>)
    ensures r.Some? ==> r.value == SumWhere(costs, ByMember(member, CostMember(), AnyCost()), CostValue())
    ensures r.None? <==> (exists x | x in costs :: x.member == member) &&
                         forall x | x in costs && x.member == member :: x.cost.None?
  {
    AggregateOnRows(costs, ByMember(member, CostMember(), AnyCost()), CostValue());
    Aggregate(costs, ByMember(member, CostMember(), AnyCost()), CostValue())
  }

  /** `get_total_cost_sector_room` as written. */
  function TotalCostRoom(costs: seq<CostRow>, ms: seq<Membership>, room: RoomId): (r: Option<Amount>)
    ensures r.Some? ==> r.value == SumWhere(costs, InRoom(ms, room, CostMember(), AnyCost()), CostValue())
    ensures r.None? <==> (exists x | x in costs :: RoomOfMember(ms, x.member) == Some(room)) &&
                         forall x | x in costs && RoomOfMember(ms, x.member) == Some(room) :: x.cost.None?
  {
    AggregateOnRows(costs, InRoom(ms, room, CostMember(), AnyCost()), CostValue());
    Aggregate(costs, InRoom(ms, room, CostMember(), AnyCost()), CostValue())
  }

  /** The room's cost total is the sum of its members' cost totals (NULL
    * read as zero), and so is the getter's value when it is not NULL. */
  lemma CostRoomIsSumOfMembers(costs: seq<CostRow>, ms: seq<Membership>, room: RoomId)
    requires UniqueMemberIds(ms)
    ensures TotalCostRoom(costs, ms, room).Some? ==>
            TotalCostRoom(costs, ms, room).value == MemberSums(costs, CostMember(), AnyCost(), CostValue(), RoomMembers(ms, room))
    ensures TotalCostRoom(costs, ms, room).None? ==>
            MemberSums(costs, CostMember(), AnyCost(), CostValue(), RoomMembers(ms, room)) == 0
  {
    RoomIsSumOfMembers(costs, ms, room, CostMember(), AnyCost(), CostValue());
    AggregateAgrees(costs, InRoom(ms, room, CostMember(), AnyCost()), CostValue());
    SumWhereIsSumOrZero(costs, InRoom(ms, room, CostMember(), AnyCost()), CostValue());
    SqlSumAgrees(Column(Filter(costs, InRoom(ms, room, CostMember(), AnyCost())), CostValue()));
  }

  // --------------------------------------------------------------- shopping

  function ShopMember(): Shopping -> MemberId { (s: Shopping) => s.createdBy }

  /** The cost column is NOT NULL. */
  function ShopCost(): Shopping -> Option<Amount> { (s: Shopping) => Some(s.cost) }

  /** `shop_type=k, date__month=now.month, date__year=now.year`. */
  function OfTypeThisMonth(k: ShopType, c: Clock): Shopping -> bool
  {
    (s: Shopping) => s.shopType == k && s.date.year == c.year && s.date.month == c.month
  }

  function ThisMonth(c: Clock): Shopping -> bool
  {
    (s: Shopping) => s.date.year == c.year && s.date.month == c.month
  }

  /** `get_total_shopping`: the member's individual shopping this month. */
  function TotalShopping(shops: seq<Shopping>, member: MemberId, c: Clock): (r: nat)
    ensures Aggregate(shops, ByMember(member, ShopMember(), OfTypeThisMonth(Individual, c)), ShopCost()) == Some(r)
  {
    NotNullColumn(shops, ByMember(member, ShopMember(), OfTypeThisMonth(Individual, c)), ShopCost());
    SumWhere(shops, ByMember(member, ShopMember(), OfTypeThisMonth(Individual, c)), ShopCost())
  }

  /** `get_total_shopping_room`: the room's individual shopping this month. */
  function TotalShoppingRoom(shops: seq<Shopping>, ms: seq<Membership>, room: RoomId, c: Clock): (r: nat)
    ensures Aggregate(shops, InRoom(ms, room, ShopMember(), OfTypeThisMonth(Individual, c)), ShopCost()) == Some(r)
  {
    NotNullColumn(shops, InRoom(ms, room, ShopMember(), OfTypeThisMonth(Individual, c)), ShopCost());
    SumWhere(shops, InRoom(ms, room, ShopMember(), OfTypeThisMonth(Individual, c)), ShopCost())
  }

  /** `get_total_monthly_shopping`: the room's managerial shopping this month. */
  function TotalMonthlyShopping(shops: seq<Shopping>, ms: seq<Membership>, room: RoomId, c: Clock): (r: nat)
    ensures Aggregate(shops, InRoom(ms, room, ShopMember(), OfTypeThisMonth(Managerial, c)), ShopCost()) == Some(r)
  {
    NotNullColumn(shops, InRoom(ms, room, ShopMember(), OfTypeThisMonth(Managerial, c)), ShopCost());
    SumWhere(shops, InRoom(ms, room, ShopMember(), OfTypeThisMonth(Managerial, c)), ShopCost())
  }

  /** The room's individual shopping this month is the sum of its members'
    * individual shopping this month. */
  lemma ShoppingRoomIsSumOfMembers(shops: seq<Shopping>, ms: seq<Membership>, room: RoomId, c: Clock)
    requires UniqueMemberIds(ms)
    ensures TotalShoppingRoom(shops, ms, room, c) ==
            MemberSums(shops, ShopMember(), OfTypeThisMonth(Individual, c), ShopCost(), RoomMembers(ms, room))
  {
    RoomIsSumOfMembers(shops, ms, room, ShopMember(), OfTypeThisMonth(Individual, c), ShopCost());
  }

  /** With a NOT NULL column the getter as written never returns NULL. */
  lemma ShoppingNeverNull(shops: seq<Shopping>, ms: seq<Membership>, room: RoomId, c: Clock, k: ShopType)
    ensures Aggregate(shops, InRoom(ms, room, ShopMember(), OfTypeThisMonth(k, c)), ShopCost()) ==
            Some(SumWhere(shops, InRoom(ms, room, ShopMember(), OfTypeThisMonth(k, c)), ShopCost()))
  {
    NotNullColumn(shops, InRoom(ms, room, ShopMember(), OfTypeThisMonth(k, c)), ShopCost());
  }

  /** `get_grand_total_shopping`: 0 without a setting or without shopping
    * this month; otherwise individual plus managerial shopping when every
    * member shops (type 0), managerial shopping only otherwise. */
  function GrandTotalShopping(shops: seq<Shopping>, ms: seq<Membership>, settings: seq<Setting>,
                              room: RoomId, c: Clock): (r: nat)
    ensures ShoppingTypeOf(settings, room).None? ==> r == 0
    ensures r <= SumWhere(shops, InRoom(ms, room, ShopMember(), ThisMonth(c)), ShopCost())
  {
    SumWhereSplit(shops, InRoom(ms, room, ShopMember(), ThisMonth(c)),
                  InRoom(ms, room, ShopMember(), OfTypeThisMonth(Individual, c)),
                  InRoom(ms, room, ShopMember(), OfTypeThisMonth(Managerial, c)), ShopCost());
    match ShoppingTypeOf(settings, room)
    case None => 0
    case Some(kind) =>
      if Filter(shops, InRoom(ms, room, ShopMember(), ThisMonth(c))) == [] then 0
      else if kind == 0 then TotalShoppingRoom(shops, ms, room, c) + TotalMonthlyShopping(shops, ms, room, c)
      else TotalMonthlyShopping(shops, ms, room, c)
  }

  /** With shopping type 0 the grand total is all of the room's shopping this
    * month; otherwise it is the managerial shopping alone. */
  lemma GrandTotalSwitch(shops: seq<Shopping>, ms: seq<Membership>, settings: seq<Setting>, room: RoomId, c: Clock)
    ensures ShoppingTypeOf(settings, room) == Some(0) ==>
            GrandTotalShopping(shops, ms, settings, room, c) == SumWhere(shops, InRoom(ms, room, ShopMember(), ThisMonth(c)), ShopCost())
    ensures ShoppingTypeOf(settings, room).Some? && ShoppingTypeOf(settings, room) != Some(0) ==>
            GrandTotalShopping(shops, ms, settings, room, c) == TotalMonthlyShopping(shops, ms, room, c)
    ensures ShoppingTypeOf(settings, room).None? ==> GrandTotalShopping(shops, ms, settings, room, c) == 0
  {
    var all := InRoom(ms, room, ShopMember(), ThisMonth(c));
    var ind := InRoom(ms, room, ShopMember(), OfTypeThisMonth(Individual, c));
    var man := InRoom(ms, room, ShopMember(), OfTypeThisMonth(Managerial, c));
    SumWhereSplit(shops, all, ind, man, ShopCost());
    if Filter(shops, all) == [] {
      forall i | 0 <= i < |shops| ensures !all(shops[i]) {
        assert shops[i] in shops;
      }
      NothingSelected(shops, all, ShopCost());
    }
  }

  lemma {:induction false} NothingSelected<T>(xs: seq<T>, p: T -> bool, val: T -> Option<Amount>)
    requires forall i | 0 <= i < |xs| :: !p(xs[i])
    ensures SumWhere(xs, p, val) == 0
  {
    if xs != [] {
      NothingSelected(xs[1..], p, val);
    }
  }

  // --------------------------------------------------------------- deposits

  function DepositMember(): DepositRow -> MemberId { (d: DepositRow) => d.member }
  function DepositAmount(): DepositRow -> Option<Amount> { (d: DepositRow) => d.amount }

  /** `created_at__month=now.month, created_at__year=now.year`. */
  function CreatedThisMonth(c: Clock): DepositRow -> bool
  {
    (d: DepositRow) => d.createdYear == c.year && d.createdMonth == c.month
  }

  /** `get_deposit_total_member` as written. */
  function DepositTotal(deposits: seq<DepositRow>, member: MemberId, c: Clock): (r: Option<Amount>)
    ensures r.Some? ==> r.value == SumWhere(deposits, ByMember(member, DepositMember(), CreatedThisMonth(c)), DepositAmount())
    ensures r.None? <==> (exists d | d in deposits :: d.member == member && CreatedThisMonth(c)(d)) &&
                         forall d | d in deposits && d.member == member && CreatedThisMonth(c)(d) :: d.amount.None?
  {
    AggregateOnRows(deposits, ByMember(member, DepositMember(), CreatedThisMonth(c)), DepositAmount());
    Aggregate(deposits, ByMember(member, DepositMember(), CreatedThisMonth(c)), DepositAmount())
  }

  /** `get_deposit_total_room` as written. */
  function DepositTotalRoom(deposits: seq<DepositRow>, ms: seq<Membership>, room: RoomId, c: Clock): (r: Option<Amount>)
    ensures r.Some? ==> r.value == SumWhere(deposits, InRoom(ms, room, DepositMember(), CreatedThisMonth(c)), DepositAmount())
    ensures r.None? <==>
            (exists d | d in deposits :: RoomOfMember(ms, d.member) == Some(room) && CreatedThisMonth(c)(d)) &&
            forall d | d in deposits && RoomOfMember(ms, d.member) == Some(room) && CreatedThisMonth(c)(d) :: d.amount.None?
  {
    AggregateOnRows(deposits, InRoom(ms, room, DepositMember(), CreatedThisMonth(c)), DepositAmount());
    Aggregate(deposits, InRoom(ms, room, DepositMember(), CreatedThisMonth(c)), DepositAmount())
  }

  /** The room's deposits this month are the sum of its members' deposits
    * this month (NULL read as zero). */
  lemma DepositRoomIsSumOfMembers(deposits: seq<DepositRow>, ms: seq<Membership>, room: RoomId, c: Clock)
    requires UniqueMemberIds(ms)
    ensures DepositTotalRoom(deposits, ms, room, c).Some? ==>
            DepositTotalRoom(deposits, ms, room, c).value ==
            MemberSums(deposits, DepositMember(), CreatedThisMonth(c), DepositAmount(), RoomMembers(ms, room))
  {
    RoomIsSumOfMembers(deposits, ms, room, DepositMember(), CreatedThisMonth(c), DepositAmount());
    AggregateAgrees(deposits, InRoom(ms, room, DepositMember(), CreatedThisMonth(c)), DepositAmount());
  }
}
