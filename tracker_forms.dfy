/** The validators of tracker/forms.py: cost-sector and deposit-field titles,
  * shopping entries, and the choice of approver for a meal change request.
  * Each form field's own `required` and `max_length` checks run before its
  * `clean_*` method, and the `...Field` functions below put them in front.
  * Text fields arrive stripped of surrounding whitespace, as Django's
  * CharField leaves them. */
module TrackerForms {
  import opened Common
  import opened Roles
  import opened Rooms
  import opened Memberships
  import opened TrackerModels

  /** `[0-9A-Za-z-]`. */
  predicate TitleChar(ch: char)
  {
    IsDigit(ch) || IsLetter(ch) || ch == '-'
  }

  /** `[0-9A-Za-z-_]`. */
  predicate ItemChar(ch: char)
  {
    TitleChar(ch) || ch == '_'
  }

  const TitleLimit := 20
  const DescriptionLimit := 30
  const ItemLimit := 15
  const UnitLimit := 10

  // ------------------------------------------------------------ cost sectors

  /** Character set, then length: `TrackerFieldUpdateForm.clean_title` and
    * `CashDepositFieldCreateForm.clean_title`. */
  function CheckFieldTitle(title: string): (r: Check)
    ensures r == Pass <==> MatchesPlus(title, TitleChar) && |title| <= TitleLimit
    ensures r.Fail? ==> r.error == BadCharacters || r.error == TooLong
  {
    if !MatchesPlus(title, TitleChar) then Fail(BadCharacters)
    else if |title| > TitleLimit then Fail(TooLong)
    else Pass
  }

  /** The room already has a cost sector with this title, ignoring case. */
  predicate CostTitleTaken(fields: seq<CostField>, room: RoomId, title: string)
  {
    exists f :: f in fields && f.room == room && EqualsIgnoreCase(f.title, title)
  }

  /** `TrackerFieldCreateForm.clean_title`: a duplicate in the room first,
    * then the character set, then the length. */
  function CleanCostTitle(fields: seq<CostField>, room: RoomId, title: string): (r: Check)
    ensures r == Pass <==>
            !CostTitleTaken(fields, room, title) && MatchesPlus(title, TitleChar) && |title| <= TitleLimit
    ensures r == Fail(Duplicate) <==> CostTitleTaken(fields, room, title)
  {
    if CostTitleTaken(fields, room, title) then Fail(Duplicate) else CheckFieldTitle(title)
  }

  /** A title taken in one room stays free in every other room. */
  lemma CostTitleScopedToRoom(fields: seq<CostField>, room: RoomId, other: RoomId, title: string)
    requires forall f :: f in fields ==> f.room == other
    requires room != other
    ensures CleanCostTitle(fields, room, title) == CheckFieldTitle(title)
  {
  }

  // ---------------------------------------------------------- deposit fields

  /** The 30-character limit on a field's help text: the deposit form's
    * `clean_description`, and the cost form's `max_length=30` description
    * field. */
  function CleanDescription(d: string): (r: Check)
    ensures r == Pass <==> |d| <= DescriptionLimit
  {
    if |d| > DescriptionLimit then Fail(TooLong) else Pass
  }

  predicate DepositTitleTaken(fields: seq<DepositField>, room: RoomId, title: string)
  {
    exists f :: f in fields && f.room == room && EqualsIgnoreCase(f.title, title)
  }

  /** Creating a deposit field: the form's `clean_title`, then the view's
    * `form_valid` refuses a title the room already has, ignoring case. */
  function CreateDepositFieldCheck(fields: seq<DepositField>, room: RoomId, title: string): (r: Check)
    ensures r == Pass <==>
            MatchesPlus(title, TitleChar) && |title| <= TitleLimit && !DepositTitleTaken(fields, room, title)
  {
    var shape := CheckFieldTitle(title);
    if shape.Fail? then shape
    else if DepositTitleTaken(fields, room, title) then Fail(Duplicate)
    else Pass
  }

  /** Cost sectors and deposit fields accept the same titles when neither
    * room has them yet, though they test in a different order. */
  lemma FieldTitlesAgree(costs: seq<CostField>, deposits: seq<DepositField>, room: RoomId, title: string)
    requires !CostTitleTaken(costs, room, title) && !DepositTitleTaken(deposits, room, title)
    ensures CleanCostTitle(costs, room, title) == CreateDepositFieldCheck(deposits, room, title)
  {
  }

  // ---------------------------------------------------------------- shopping

  /** The room of a shopping entry's creator. */
  function CreatorRoom(ms: seq<Membership>, s: Shopping): Option<RoomId>
  {
    var m := MembershipWithId(ms, s.createdBy);
    if m.Some? then Some(m.value.room) else None
  }

  /** The duplicate test of `clean_item`: with shopping type 0 the creator's
    * own individual items, otherwise the room's managerial items; a room
    * without a setting is not tested. */
  predicate ItemTaken(shops: seq<Shopping>, ms: seq<Membership>, settings: seq<Setting>,
                      creator: Membership, item: string)
  {
    match ShoppingTypeOf(settings, creator.room)
    case None => false
    case Some(t) =>
      if t == 0 then
        exists s :: s in shops && s.createdBy == creator.id && CreatorRoom(ms, s) == Some(creator.room) &&
                    s.shopType == Individual && EqualsIgnoreCase(s.item, item)
      else
        exists s :: s in shops && CreatorRoom(ms, s) == Some(creator.room) &&
                    s.shopType == Managerial && EqualsIgnoreCase(s.item, item)
  }

  function CheckItemShape(item: string): (r: Check)
    ensures r == Pass <==> MatchesPlus(item, ItemChar) && |item| <= ItemLimit
  {
    if !MatchesPlus(item, ItemChar) then Fail(BadCharacters)
    else if |item| > ItemLimit then Fail(TooLong)
    else Pass
  }

  /** `ShoppingCreateForm.clean_item`. */
  function CleanItem(shops: seq<Shopping>, ms: seq<Membership>, settings: seq<Setting>,
                     creator: Membership, item: string): (r: Check)
    ensures r == Pass <==>
            !ItemTaken(shops, ms, settings, creator, item) && MatchesPlus(item, ItemChar) && |item| <= ItemLimit
    ensures r == Fail(Duplicate) <==> ItemTaken(shops, ms, settings, creator, item)
  {
    if ItemTaken(shops, ms, settings, creator, item) then Fail(Duplicate) else CheckItemShape(item)
  }

  /** `ShoppingUpdateForm.clean_item`: nothing is tested when the item is
    * exactly the entry's current item. */
  function CleanItemOnUpdate(shops: seq<Shopping>, ms: seq<Membership>, settings: seq<Setting>,
                             creator: Membership, current: string, item: string): (r: Check)
    ensures item == current ==> r == Pass
    ensures item != current ==> r == CleanItem(shops, ms, settings, creator, item)
  {
    if item == current then Pass else CleanItem(shops, ms, settings, creator, item)
  }

  /** The item field as the form runs it: required, at most 15 characters,
    * then `clean_item`. */
  function ItemField(shops: seq<Shopping>, ms: seq<Membership>, settings: seq<Setting>,
                     creator: Membership, item: string): (r: Check)
    ensures item == "" ==> r == Fail(Required)
    ensures r == Pass ==> 0 < |item| <= ItemLimit && CleanItem(shops, ms, settings, creator, item) == Pass
  {
    if item == "" then Fail(Required)
    else if |item| > ItemLimit then Fail(TooLong)
    else CleanItem(shops, ms, settings, creator, item)
  }

  /** Under shopping type 0 only the creator's own entries can clash, and
    * under type 1 only managerial entries can; without a setting nothing
    * clashes. */
  lemma ItemUniquenessScope(shops: seq<Shopping>, ms: seq<Membership>, settings: seq<Setting>,
                            creator: Membership, item: string)
    ensures ShoppingTypeOf(settings, creator.room) == Some(0) &&
            (forall s :: s in shops && EqualsIgnoreCase(s.item, item) ==> s.createdBy != creator.id) ==>
            CleanItem(shops, ms, settings, creator, item) == CheckItemShape(item)
    ensures ShoppingTypeOf(settings, creator.room).Some? && ShoppingTypeOf(settings, creator.room) != Some(0) &&
            (forall s :: s in shops && EqualsIgnoreCase(s.item, item) ==> s.shopType == Individual) ==>
            CleanItem(shops, ms, settings, creator, item) == CheckItemShape(item)
    ensures ShoppingTypeOf(settings, creator.room).None? ==>
            CleanItem(shops, ms, settings, creator, item) == CheckItemShape(item)
  {
  }

  /** `clean_quantity_unit`: a blank unit is None; a unit is at most 10
    * characters and letters only. */
  function CleanQuantityUnit(unit: Option<string>): (r: Check)
    ensures r == Pass <==> unit.None? || (|unit.value| <= UnitLimit && MatchesPlus(unit.value, IsLetter))
  {
    match unit
    case None => Pass
    case Some(u) =>
      if |u| > UnitLimit then Fail(TooLong)
      else if !MatchesPlus(u, IsLetter) then Fail(BadCharacters)
      else Pass
  }

  /** `clean`: a unit given without a quantity. */
  function CleanQuantity(quantity: Option<Amount>, unit: Option<string>): (r: Check)
    ensures r == Pass <==> (unit.Some? ==> quantity.Some?)
  {
    if quantity.None? && unit.Some? then Fail(UnitWithoutQuantity) else Pass
  }

  /** `clean_date`: four comparisons against now's month and year. */
  function CleanShoppingDate(date: Date, c: Clock): (r: Check)
    ensures r == Pass <==> InMonthOf(date, c)
  {
    if date.month < c.month || date.year < c.year || date.month > c.month || date.year > c.year
    then Fail(OutsideCurrentMonth)
    else Pass
  }

  // ------------------------------------------------------- request approver

  /** `MealUpdateRequestForm`'s `request_to` choices. */
  function RequestToCandidates(ms: seq<Membership>, requester: Membership): (r: seq<Membership>)
    ensures forall m :: m in r ==> m in ms && m.room == requester.room
    ensures MemberCount(ms, requester.room) < 2 ==> r == RoomMembers(ms, requester.room)
    ensures MemberCount(ms, requester.room) >= 2 ==> forall m :: m in r ==> m.user != requester.user
    ensures MemberCount(ms, requester.room) >= 2 && requester.role == Member ==>
            forall m :: m in r ==> IsMaintainerRole(m.role)
  {
    var roomMembers := RoomMembers(ms, requester.room);
    var others := Filter(roomMembers, (m: Membership) => m.user != requester.user);
    var otherMaintainers := Filter(roomMembers, (m: Membership) => IsMaintainerRole(m.role) && m.user != requester.user);
    if |roomMembers| < 2 then roomMembers
    else if requester.role == Member then otherMaintainers
    else if |otherMaintainers| > 0 then otherMaintainers
    else others
  }

  /** A supervisor or manager in a room of two or more always has someone to
    * ask, and a maintainer is preferred whenever there is one. */
  lemma {:induction false} MaintainerAlwaysHasApprover(ms: seq<Membership>, requester: Membership)
    requires OneMembershipPerUser(ms) && requester in ms
    requires requester.role != Member && MemberCount(ms, requester.room) >= 2
    ensures |RequestToCandidates(ms, requester)| > 0
    ensures (exists m :: m in ms && m.room == requester.room && m.user != requester.user && IsMaintainerRole(m.role)) ==>
            forall m :: m in RequestToCandidates(ms, requester) ==> IsMaintainerRole(m.role)
  {
    var roomMembers := RoomMembers(ms, requester.room);
    assert requester in roomMembers;
    var other: Membership :| other in roomMembers && other != requester by {
      if forall m :: m in roomMembers ==> m == requester {
        assert |roomMembers| >= 2;
        assert roomMembers[0] == requester && roomMembers[1] == requester;
        assert roomMembers[0] in ms && roomMembers[1] in ms;
        FilterDistinct(ms, requester.room);
        assert false;
      }
    }
    assert other.user != requester.user by {
      var i :| 0 <= i < |ms| && ms[i] == other;
      var j :| 0 <= j < |ms| && ms[j] == requester;
      assert i != j;
    }
    var others := Filter(roomMembers, (m: Membership) => m.user != requester.user);
    assert other in others;
    var otherMaintainers := Filter(roomMembers, (m: Membership) => IsMaintainerRole(m.role) && m.user != requester.user);
    if exists m :: m in ms && m.room == requester.room && m.user != requester.user && IsMaintainerRole(m.role) {
      var m :| m in ms && m.room == requester.room && m.user != requester.user && IsMaintainerRole(m.role);
      assert m in otherMaintainers;
    }
  }

  /** Under the one-to-one user column, a room's member list never holds the
    * same membership twice. */
  lemma {:induction false} FilterDistinct(ms: seq<Membership>, room: RoomId)
    requires OneMembershipPerUser(ms)
    ensures forall i, j | 0 <= i < j < |RoomMembers(ms, room)| :: RoomMembers(ms, room)[i] != RoomMembers(ms, room)[j]
  {
    if ms != [] {
      var tail := ms[1..];
      assert OneMembershipPerUser(tail) by {
        forall i, j | 0 <= i < j < |tail| ensures tail[i].user != tail[j].user {
          assert tail[i] == ms[i + 1] && tail[j] == ms[j + 1];
        }
      }
      FilterDistinct(tail, room);
      if ms[0].room == room {
        assert RoomMembers(ms, room) == [ms[0]] + RoomMembers(tail, room);
        forall x | x in RoomMembers(tail, room) ensures x != ms[0] {
          var k :| 0 <= k < |tail| && tail[k] == x;
          assert ms[k + 1] == x;
        }
      } else {
        assert RoomMembers(ms, room) == RoomMembers(tail, room);
      }
    }
  }
}
