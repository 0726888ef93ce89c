/** Rooms and the room queries of rooms/models.py: the queryset filters, the
  * manager's `all`, `get_by_id` and `search`. */
module Rooms {
  import opened Common

  type RoomId = nat
  type UserId = nat

  /** The account fields a room search looks at. */
  datatype User = User(id: UserId, username: string, firstName: string, lastName: string, email: string)

  datatype Privacy = Public | Secret

  datatype Room = Room(id: RoomId, title: string, slug: string, isActive: bool,
                       privacy: Privacy, description: Option<string>, creator: User)

  /** `ManagerialSetting`: 0 when every member shops for themself, 1 when the
    * room manager does the shopping. */
  datatype Setting = Setting(room: RoomId, shoppingType: nat)

  /** `ManagerialSetting.objects.filter(room=room).first().shopping_type`,
    * when the room has a setting. */
  function ShoppingTypeOf(settings: seq<Setting>, room: RoomId): (r: Option<nat>)
    ensures r.Some? <==> exists x :: x in settings && x.room == room
    ensures r.Some? ==> exists i | 0 <= i < |settings| ::
              settings[i].room == room && r.value == settings[i].shoppingType &&
              forall j | 0 <= j < i :: settings[j].room != room
  {
    if settings == [] then None
    else if settings[0].room == room then Some(settings[0].shoppingType)
    else ShoppingTypeOf(settings[1..], room)
  }

  /** With one setting per room, as the `post_save` receiver of a room
    * creates it, the shopping type is that setting's. */
  lemma ShoppingTypeOfOnly(settings: seq<Setting>, s: Setting)
    requires s in settings
    requires forall x | x in settings && x.room == s.room :: x == s
    ensures ShoppingTypeOf(settings, s.room) == Some(s.shoppingType)
  {
    var r := ShoppingTypeOf(settings, s.room);
    var i :| 0 <= i < |settings| && settings[i].room == s.room && r.value == settings[i].shoppingType;
    assert settings[i] in settings;
  }

  /** `RoomQuerySet.active`. */
  function Active(rooms: seq<Room>): (r: seq<Room>)
    ensures forall x :: x in r <==> x in rooms && x.isActive
  {
    Filter(rooms, (x: Room) => x.isActive)
  }

  /** `RoomQuerySet.privacy_public`: privacy code 0. */
  function PrivacyPublic(rooms: seq<Room>): (r: seq<Room>)
    ensures forall x :: x in r <==> x in rooms && x.privacy == Public
  {
    Filter(rooms, (x: Room) => x.privacy == Public)
  }

  /** `RoomQuerySet.privacy_secret`: privacy code 1. */
  function PrivacySecret(rooms: seq<Room>): (r: seq<Room>)
    ensures forall x :: x in r <==> x in rooms && x.privacy == Secret
  {
    Filter(rooms, (x: Room) => x.privacy == Secret)
  }

  /** `RoomManager.all`: the manager hides inactive rooms. */
  function AllRooms(rooms: seq<Room>): (r: seq<Room>)
    ensures forall x :: x in r ==> x.isActive
    ensures forall x :: x in rooms && x.isActive ==> x in r
  {
    Active(rooms)
  }

  /** The lookups of `RoomQuerySet.search`: the query occurs, ignoring case, in
    * the title, the description or one of the creator's name fields. */
  predicate RoomMatches(x: Room, q: string)
  {
    ContainsIgnoreCase(x.title, q) ||
    (x.description.Some? && ContainsIgnoreCase(x.description.value, q)) ||
    ContainsIgnoreCase(x.creator.username, q) ||
    ContainsIgnoreCase(x.creator.firstName, q) ||
    ContainsIgnoreCase(x.creator.lastName, q) ||
    ContainsIgnoreCase(x.creator.email, q)
  }

  /** `RoomManager.search`: active, public, matching rooms. */
  function Search(rooms: seq<Room>, q: string): (r: seq<Room>)
    ensures forall x :: x in r <==> x in rooms && x.isActive && x.privacy == Public && RoomMatches(x, q)
  {
    Filter(PrivacyPublic(Active(rooms)), (x: Room) => RoomMatches(x, q))
  }

  function WithId(rooms: seq<Room>, id: RoomId): (r: seq<Room>)
    ensures forall x :: x in r <==> x in rooms && x.id == id
  {
    Filter(rooms, (x: Room) => x.id == id)
  }

  /** `RoomManager.get_by_id`: the room when exactly one row has the id, else
    * None. It reads the unfiltered queryset, so inactive rooms are found. */
  function GetById(rooms: seq<Room>, id: RoomId): (r: Option<Room>)
    ensures r.Some? <==> |WithId(rooms, id)| == 1
    ensures r.Some? ==> r.value in rooms && r.value.id == id
  {
    var qs := WithId(rooms, id);
    if |qs| == 1 then Some(qs[0]) else None
  }

  predicate UniqueIds(rooms: seq<Room>)
  {
    forall i, j | 0 <= i < j < |rooms| :: rooms[i].id != rooms[j].id
  }

  lemma {:induction false} WithIdAbsent(rooms: seq<Room>, id: RoomId)
    requires forall k | 0 <= k < |rooms| :: rooms[k].id != id
    ensures WithId(rooms, id) == []
  {
    if rooms != [] { WithIdAbsent(rooms[1..], id); }
  }

  lemma {:induction false} WithIdUnique(rooms: seq<Room>, id: RoomId)
    requires UniqueIds(rooms)
    ensures |WithId(rooms, id)| <= 1
  {
    if rooms != [] {
      if rooms[0].id == id {
        forall k | 0 <= k < |rooms[1..]| ensures rooms[1..][k].id != id {
          assert rooms[1..][k] == rooms[k + 1];
        }
        WithIdAbsent(rooms[1..], id);
      } else {
        assert UniqueIds(rooms[1..]) by {
          forall i, j | 0 <= i < j < |rooms[1..]| ensures rooms[1..][i].id != rooms[1..][j].id {
            assert rooms[1..][i] == rooms[i + 1] && rooms[1..][j] == rooms[j + 1];
          }
        }
        WithIdUnique(rooms[1..], id);
      }
    }
  }

  /** With the primary key unique, `get_by_id` finds exactly the rooms that
    * exist, active or not. */
  lemma GetByIdFindsExisting(rooms: seq<Room>, id: RoomId)
    requires UniqueIds(rooms)
    ensures GetById(rooms, id).Some? <==> exists x :: x in rooms && x.id == id
  {
    WithIdUnique(rooms, id);
    if exists x :: x in rooms && x.id == id {
      var x :| x in rooms && x.id == id;
      assert x in WithId(rooms, id);
    } else {
      WithIdAbsent(rooms, id);
    }
  }

  /** Every search result is also listed by `all()`; a secret room is never
    * found by search. */
  lemma SearchWithinAll(rooms: seq<Room>, q: string)
    ensures forall x :: x in Search(rooms, q) ==> x in AllRooms(rooms)
    ensures forall x :: x in PrivacySecret(rooms) ==> x !in Search(rooms, q)
  {
  }
}
