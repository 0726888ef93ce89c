/** The role and meal tags of accounts/templatetags/tags.py, which the
  * templates use to decide what a member sees. */
module Tags {
  import opened Common
  import opened Roles
  import opened Rooms
  import opened Memberships
  import opened MealTable
  import opened MealEntry
  import opened MealProperties

  /** `is_manager_tag`: role 2. */
  function IsManagerTag(m: Membership): (r: bool)
    ensures r <==> m.role == Manager
  {
    RoleCode(m.role) == 2
  }

  /** `is_supervisor_tag`: role 1. */
  function IsSupervisorTag(m: Membership): (r: bool)
    ensures r <==> m.role == Supervisor
  {
    RoleCode(m.role) == 1
  }

  /** `is_modifier_tag`: the creator of the member's room, or a manager.
    * `room` is the member's own room, `m.room`. */
  function IsModifierTag(user: UserId, m: Membership, room: Room): (r: bool)
    requires room.id == m.room
    ensures r <==> room.creator.id == user || m.role == Manager
  {
    room.creator.id == user || RoleCode(m.role) == 2
  }

  /** `is_maintainer_tag`: the creator of the member's room, or role 1 or 2. */
  function IsMaintainerTag(user: UserId, m: Membership, room: Room): (r: bool)
    requires room.id == m.room
    ensures r <==> room.creator.id == user || m.role != Member
  {
    room.creator.id == user || RoleCode(m.role) == 2 || RoleCode(m.role) == 1
  }

  /** The tags nest: a manager modifies, a modifier maintains, and a
    * modifier who did not create the room is a manager. */
  lemma TagsNest(user: UserId, m: Membership, room: Room)
    requires room.id == m.room
    ensures IsManagerTag(m) ==> IsModifierTag(user, m, room)
    ensures IsModifierTag(user, m, room) ==> IsMaintainerTag(user, m, room)
    ensures IsModifierTag(user, m, room) && room.creator.id != user ==> IsManagerTag(m)
  {
  }

  /** `meal_slug_tag`: the slug of the member's most recently inserted row
    * dated today, or none. */
  function MealSlugTag(rows: seq<Meal>, member: MemberId, c: Clock): (r: Option<nat>)
    ensures r.None? <==> !HasRow(rows, member, Today(c))
    ensures r.Some? ==> exists i | 0 <= i < |rows| ::
              IsFor(rows[i], member, Today(c)) && rows[i].slug == r.value &&
              forall j | i < j < |rows| :: !IsFor(rows[j], member, Today(c))
  {
    var i := LastIndex(rows, member, Today(c));
    if i < 0 then None else Some(rows[i].slug)
  }

  /** After an accepted create the tag names the row the form just saved. */
  lemma TagAfterCreate(t: Table, me: MemberId, c: Clock, today: Amount, tomorrow: Amount, value: Option<Amount>)
    requires Valid(t) && !Maintenance(c) && !HasRow(t.rows, me, Today(c))
    ensures var r := CreateEntry(t, me, c, today, tomorrow, value);
            MealSlugTag(r.rows, me, c) == Some(r.next - 1)
  {
    var decision := AutoDecision(c, value);
    CreateWritesRows(t, me, c, today, tomorrow, decision.0, decision.1);
    var r := CreateEntry(t, me, c, today, tomorrow, value);
    var i := LastIndex(r.rows, me, Today(c));
    assert IsFor(r.rows[|r.rows| - 1], me, Today(c));
    assert i == |r.rows| - 1;
  }
}
