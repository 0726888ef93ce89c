/** The meal views of tracker/views.py as they are written: step by step
  * over a mutable meal table, with the `daterange` loops and the per-member
  * backfill loop of `post`. Every view is proved to leave exactly the state
  * its functional rule in MealEntry / MealRequests describes, so the
  * properties proved about those rules hold of the views. */
module MealLedger {
  import opened Common
  import opened Roles
  import opened Rooms
  import opened Memberships
  import opened MealTable
  import opened MealEntry
  import opened MealProperties
  import opened UpdateProperties
  import opened Notifications
  import opened TrackerForms
  import opened MealRequests
  import opened RequestProperties

  /** The `Meal`, `MealUpdateRequest` and `Notification` tables. */
  class MealBook {
    var rows: seq<Meal>
    var next: nat
    var requests: seq<MealRequest>
    var notes: seq<Note>

    function State(): Table
      reads this
    {
      Table(rows, next)
    }

    function Desk(): MealRequests.Desk
      reads this
    {
      MealRequests.Desk(State(), requests, notes)
    }

    predicate Valid()
      reads this
    {
      MealTable.Valid(State())
    }

    constructor ()
      ensures State() == Table([], 0) && requests == [] && notes == []
      ensures Valid()
    {
      rows := [];
      next := 0;
      requests := [];
      notes := [];
    }

    // ------------------------------------------------------- table access

    /** `Meal.objects.create(...)`: a new row with the next slug. */
    method AddRow(m: Meal)
      modifies this
      ensures State() == Append(old(State()), m)
      ensures requests == old(requests) && notes == old(notes)
    {
      rows := rows + [m.(slug := next)];
      next := next + 1;
    }

    /** `queryset.update(...)` over the rows `sel` picks. */
    method UpdateRows(sel: Meal -> bool, f: Meal -> Meal)
      modifies this
      ensures State() == Table(UpdateWhere(old(rows), sel, f), old(next))
      ensures requests == old(requests) && notes == old(notes)
    {
      rows := UpdateWhere(rows, sel, f);
    }

    /** `if len(qs) >= 2: qs.first().delete()` on the rows of (member, d). */
    method DropEarliestOf(member: MemberId, d: Date)
      modifies this
      ensures State() == DropEarliest(old(State()), member, d)
      ensures requests == old(requests) && notes == old(notes)
    {
      if CountFor(rows, member, d) >= 2 {
        rows := RemoveAt(rows, FirstIndex(rows, member, d));
      }
    }

    // ------------------------------------------------------------- create

    /** The create view's `daterange` loop: one auto row per day from
      * `from` to the month's end. */
    method FillCreateWindow(me: MemberId, c: Clock, v: Amount, from: int)
      modifies this
      ensures State() == FillWindowCreate(old(State()), me, c, v, from)
      ensures requests == old(requests) && notes == old(notes)
    {
      var d := from;
      while d <= c.monthLength
        invariant FillWindowCreate(State(), me, c, v, d) == FillWindowCreate(old(State()), me, c, v, from)
        invariant requests == old(requests) && notes == old(notes)
        decreases c.monthLength + 1 - d
      {
        AddRow(AutoRow(me, DayOfMonth(c, d), v));
        d := d + 1;
      }
    }

    /** `MealCreateView.form_valid`. */
    method Create(me: MemberId, c: Clock, today: Amount, tomorrow: Amount, value: Option<Amount>)
      returns (accepted: bool)
      requires Valid()
      modifies this
      ensures accepted <==> !Maintenance(c) && !HasRow(old(rows), me, Today(c))
      ensures State() == CreateEntry(old(State()), me, c, today, tomorrow, value)
      ensures Valid()
      ensures requests == old(requests) && notes == old(notes)
    {
      if (c.hour == 0 && c.minute == 0) || HasRow(rows, me, Today(c)) {
        return false;
      }
      var auto := value.Some?;
      var v := value;
      if c.day >= c.monthLength - 1 && auto {
        auto := false;
        v := None;
      }
      CreateWritesRows(State(), me, c, today, tomorrow, auto, v);
      AddRow(Meal(0, me, Tomorrow(c), Some(tomorrow), Some(0), auto, v, me));
      if auto {
        FillCreateWindow(me, c, v.value, c.day + 2);
      }
      AddRow(Meal(0, me, Today(c), Some(today), Some(tomorrow), auto, v, me));
      accepted := true;
    }

    // ----------------------------------------------------------- backfill

    /** The `post` backfill: for each member, for each day 1..`last`, a
      * placeholder row where the member has none. */
    method BackfillMonth(members: seq<MemberId>, confirmer: Option<MemberId>, year: int, month: int, last: int)
      requires Valid()
      modifies this
      ensures State() == Backfill(old(State()), members, confirmer, year, month, last)
      ensures Valid()
      ensures requests == old(requests) && notes == old(notes)
    {
      BackfillWrites(State(), members, confirmer, year, month, last);
      var i := 0;
      while i < |members|
        invariant 0 <= i <= |members|
        invariant Backfill(State(), members[i..], confirmer, year, month, last) ==
                  Backfill(old(State()), members, confirmer, year, month, last)
        invariant requests == old(requests) && notes == old(notes)
      {
        var member := members[i];
        ghost var start := State();
        var d := 1;
        while d <= last
          invariant BackfillDays(State(), member, confirmer, year, month, d, last) ==
                    BackfillDays(start, member, confirmer, year, month, 1, last)
          invariant requests == old(requests) && notes == old(notes)
          decreases last + 1 - d
        {
          var day := Date(year, month, d);
          if !HasRow(rows, member, day) {
            AddRow(Placeholder(member, day, confirmer));
          }
          d := d + 1;
        }
        assert members[i..][1..] == members[i + 1..];
        i := i + 1;
      }
    }

    /** `MealCreateView.post`: the form, then the current month's backfill. */
    method CreateView(me: MemberId, room: seq<MemberId>, c: Clock, today: Amount, tomorrow: Amount,
                      value: Option<Amount>) returns (accepted: bool)
      requires Valid()
      modifies this
      ensures accepted <==> !Maintenance(c) && !HasRow(old(rows), me, Today(c))
      ensures State() == CreatePost(old(State()), me, room, c, today, tomorrow, value)
      ensures Valid()
    {
      accepted := Create(me, c, today, tomorrow, value);
      BackfillMonth(room, None, c.year, c.month, c.monthLength);
    }

    // ------------------------------------------------------------- update

    /** The update view's `daterange` loop: each day from `from` to the
      * month's end is set to the auto value, or created with it. */
    method FillUpdateWindow(me: MemberId, c: Clock, v: Amount, from: int)
      modifies this
      ensures State() == FillWindowUpdate(old(State()), me, c, v, from)
      ensures requests == old(requests) && notes == old(notes)
    {
      var d := from;
      while d <= c.monthLength
        invariant FillWindowUpdate(State(), me, c, v, d) == FillWindowUpdate(old(State()), me, c, v, from)
        invariant requests == old(requests) && notes == old(notes)
        decreases c.monthLength + 1 - d
      {
        var day := DayOfMonth(c, d);
        if HasRow(rows, me, day) {
          UpdateRows(ForKey(me, day), AutoSet(me, v));
        } else {
          AddRow(AutoRow(me, day, v));
        }
        d := d + 1;
      }
    }

    /** Tomorrow's rows updated (or one created), then deduplicated. */
    method WriteTomorrowRows(me: MemberId, c: Clock, tomorrow: Amount, auto: bool, v: Option<Amount>)
      modifies this
      ensures State() == WriteTomorrow(old(State()), me, c, tomorrow, auto, v)
      ensures requests == old(requests) && notes == old(notes)
    {
      var day := Tomorrow(c);
      if HasRow(rows, me, day) {
        UpdateRows(ForKey(me, day), TomorrowSet(me, tomorrow, auto, v));
      } else {
        AddRow(Meal(0, me, day, Some(tomorrow), Some(0), auto, v, me));
      }
      DropEarliestOf(me, day);
    }

    /** The window filled (auto entry on) or cleared (off). */
    method AdjustWindowRows(me: MemberId, c: Clock, auto: bool, v: Option<Amount>)
      requires auto ==> v.Some?
      modifies this
      ensures State() == AdjustWindow(old(State()), me, c, auto, v)
      ensures requests == old(requests) && notes == old(notes)
    {
      if auto {
        FillUpdateWindow(me, c, v.value, c.day + 2);
        DropEarliestOf(me, DayOfMonth(c, c.monthLength));
      } else if c.day != c.monthLength {
        UpdateRows(ClearSel(me, c), Cleared());
      }
    }

    /** `MealUpdateView.form_valid`. */
    method Update(me: MemberId, c: Clock, tomorrow: Amount, value: Option<Amount>) returns (accepted: bool)
      requires Valid() && ValidClock(c)
      modifies this
      ensures accepted <==> !Maintenance(c) && HasRow(old(rows), me, Today(c))
      ensures State() == UpdateEntry(old(State()), me, c, tomorrow, value)
      ensures Valid()
      ensures requests == old(requests) && notes == old(notes)
    {
      UpdateEntryKeeps(State(), me, c, tomorrow, value);
      if c.hour == 0 && c.minute == 0 {
        return false;
      }
      var i := LastIndex(rows, me, Today(c));
      if i < 0 {
        return false;
      }
      var slug := rows[i].slug;
      var auto := value.Some?;
      var v := value;
      if c.day >= c.monthLength - 1 && auto {
        auto := false;
        v := None;
      }
      WriteTomorrowRows(me, c, tomorrow, auto, v);
      AdjustWindowRows(me, c, auto, v);
      UpdateRows(WithSlug(slug), TodaySet(tomorrow, auto, v));
      accepted := true;
    }

    /** `MealUpdateView.post`: the form, then the next month's backfill on
      * the month's last day. */
    method UpdateView(me: MemberId, room: seq<MemberId>, c: Clock, tomorrow: Amount, value: Option<Amount>)
      returns (accepted: bool)
      requires Valid() && ValidClock(c)
      modifies this
      ensures accepted <==> !Maintenance(c) && HasRow(old(rows), me, Today(c))
      ensures State() == UpdatePost(old(State()), me, room, c, tomorrow, value)
      ensures Valid()
    {
      accepted := Update(me, c, tomorrow, value);
      if c.day == c.monthLength {
        BackfillMonth(room, None, NextMonthYear(c), NextMonth(c), c.nextMonthLength);
      }
    }

    // -------------------------------------------------------------- admin

    /** `MealUpdateAdminView.form_valid`. */
    method AdminUpdate(actor: MemberId, slug: nat, c: Clock, value: Amount) returns (accepted: bool)
      requires Valid()
      modifies this
      ensures accepted <==> !Maintenance(c)
      ensures State() == AdminOverride(old(State()), actor, slug, c, value)
      ensures Valid()
      ensures requests == old(requests) && notes == old(notes)
    {
      if c.hour == 0 && c.minute == 0 {
        return false;
      }
      UpdateWhereValid(State(), WithSlug(slug), AdminSet(actor, value));
      UpdateRows(WithSlug(slug), AdminSet(actor, value));
      accepted := true;
    }

    /** `MealUpdateAdminView.post`: the form, then the backfill confirmed by
      * the manager. */
    method AdminView(actor: MemberId, room: seq<MemberId>, slug: nat, c: Clock, value: Amount)
      returns (accepted: bool)
      requires Valid()
      modifies this
      ensures accepted <==> !Maintenance(c)
      ensures State() == AdminPost(old(State()), actor, room, slug, c, value)
      ensures Valid()
      ensures requests == old(requests) && notes == old(notes)
    {
      accepted := AdminUpdate(actor, slug, c, value);
      if c.day == c.monthLength {
        BackfillMonth(room, Some(actor), NextMonthYear(c), NextMonth(c), c.nextMonthLength);
      } else if c.day < c.monthLength {
        BackfillMonth(room, Some(actor), c.year, c.month, c.monthLength);
      }
    }

    /** The whole `MealUpdateAdminView`: `user_passes_test` on the row with
      * the slug (`dispatch` records a refused actor), then `post`, and on an
      * accepted form the owner's `meal_update_by_maintainer` notification
      * for the row, counted up when one exists. A missing row or membership
      * makes the source raise; the model refuses without a record. */
    method AdminDispatch(ms: seq<Membership>, log: SuspiciousLog, actor: UserId, room: seq<MemberId>,
                         roomSlug: string, slug: nat, c: Clock, value: Amount)
      returns (accepted: bool)
      requires Valid()
      modifies this, log
      ensures Valid()
      ensures var i := IndexOfSlug(old(rows), slug);
              var own := MembershipOf(ms, actor);
              var owner := if i < 0 then None else MembershipWithId(ms, old(rows)[i].member);
              var passes := i >= 0 && own.Some? && owner.Some? && AdminMayOverride(own.value, owner.value, old(rows)[i], c);
              (accepted <==> passes && !Maintenance(c)) &&
              (passes ==> State() == AdminPost(old(State()), own.value.id, room, slug, c, value)) &&
              (!passes ==> State() == old(State())) &&
              (accepted ==> notes == Bump(old(notes), NoteKey(actor, Some(owner.value.user), MealUpdateByMaintainer, Some(slug), None),
                                          Note(actor, owner.value.user, MealUpdateByMaintainer, Some(slug), roomSlug, 1), None)) &&
              (!accepted ==> notes == old(notes)) &&
              log.attempts == if i >= 0 && own.Some? && owner.Some? && !passes
                              then AfterFailedAttempt(old(log.attempts), actor, log.initial) else old(log.attempts)
      ensures requests == old(requests)
    {
      var i := IndexOfSlug(rows, slug);
      if i < 0 {
        return false;
      }
      var meal := rows[i];
      var own := MembershipOf(ms, actor);
      var owner := MembershipWithId(ms, meal.member);
      if own.None? || owner.None? {
        return false;
      }
      var allowed := log.Guard(actor, AdminMayOverride(own.value, owner.value, meal, c));
      if !allowed {
        return false;
      }
      accepted := AdminView(own.value.id, room, slug, c, value);
      if accepted {
        notes := Bump(notes, NoteKey(actor, Some(owner.value.user), MealUpdateByMaintainer, Some(slug), None),
                      Note(actor, owner.value.user, MealUpdateByMaintainer, Some(slug), roomSlug, 1), None);
      }
    }

    // ----------------------------------------------------------- requests

    /** `MealUpdateRequestView`: the owner test and the form's choice, then
      * the earlier request replaced and the approver notified. */
    method Request(ms: seq<Membership>, actor: Membership, roomSlug: string, slug: nat,
                   shouldBe: Amount, requestTo: Membership) returns (accepted: bool)
      modifies this
      ensures accepted <==> MealOwner(old(State()), slug) == Some(actor.id) && requestTo in RequestToCandidates(ms, actor)
      ensures Desk() == RequestChange(old(Desk()), ms, actor, roomSlug, slug, shouldBe, requestTo)
    {
      if MealOwner(State(), slug) != Some(actor.id) || requestTo !in RequestToCandidates(ms, actor) {
        return false;
      }
      requests := Filter(requests, NotForSlug(slug));
      requests := requests + [MealRequest(slug, actor.id, shouldBe, requestTo.id)];
      notes := Bump(notes, NoteKey(actor.user, None, MealUpdate, Some(slug), None),
                    Note(actor.user, requestTo.user, MealUpdate, Some(slug), roomSlug, 1), Some(requestTo.user));
      accepted := true;
    }

    /** `MealUpdateRequestView.dispatch`: the meal found by slug (the last
      * one on duplicates) must belong to a membership of `actor`, else the
      * attempt is logged as suspicious; a missing meal or owner makes the
      * source raise, which is a refusal with nothing logged. The form then
      * runs for the actor's own membership. */
    method RequestDispatch(ms: seq<Membership>, log: SuspiciousLog, actor: UserId, roomSlug: string,
                           slug: nat, shouldBe: Amount, requestTo: Membership) returns (accepted: bool)
      modifies this, log
      ensures var meal := MealOwner(old(State()), slug);
              var owner := if meal.None? then None else MembershipWithId(ms, meal.value);
              var own := MembershipOf(ms, actor);
              var passes := owner.Some? && owner.value.user == actor;
              (passes ==> own.Some? &&
                          (accepted <==> meal == Some(own.value.id) && requestTo in RequestToCandidates(ms, own.value)) &&
                          Desk() == RequestChange(old(Desk()), ms, own.value, roomSlug, slug, shouldBe, requestTo)) &&
              (!passes ==> !accepted && Desk() == old(Desk())) &&
              log.attempts == if owner.Some? && !passes
                              then AfterFailedAttempt(old(log.attempts), actor, log.initial) else old(log.attempts)
    {
      var meal := MealOwner(State(), slug);
      if meal.None? {
        return false;
      }
      var owner := MembershipWithId(ms, meal.value);
      if owner.None? {
        return false;
      }
      var allowed := log.Guard(actor, owner.value.user == actor);
      if !allowed {
        return false;
      }
      var own := MembershipOf(ms, actor);
      accepted := Request(ms, own.value, roomSlug, slug, shouldBe, requestTo);
    }

    /** `MealUpdateRequestConfirmView.form_valid`. */
    method Confirm(ms: seq<Membership>, actor: Membership, roomSlug: string, slug: nat) returns (accepted: bool)
      requires Valid()
      modifies this
      ensures accepted <==> Filter(old(requests), ToApprover(slug, actor.id)) != [] && MealOwner(old(State()), slug).Some?
      ensures Desk() == ConfirmRequest(old(Desk()), ms, actor, roomSlug, slug)
      ensures Valid()
    {
      var pending := Filter(requests, ToApprover(slug, actor.id));
      if pending == [] || MealOwner(State(), slug).None? {
        return false;
      }
      var q := pending[|pending| - 1];
      UpdateWhereValid(State(), WithSlug(slug), AdminSet(actor.id, q.shouldBe));
      UpdateRows(WithSlug(slug), AdminSet(actor.id, q.shouldBe));
      requests := Filter(requests, NotToApprover(slug, actor.id));
      notes := Reply(notes, ms, actor.user, q.member, slug, MealUpdateConfirmed, roomSlug);
      accepted := true;
    }

    /** `meal_update_request_deny`, with the approver check the confirm view
      * makes: only the member a request is addressed to may deny it. */
    method Deny(ms: seq<Membership>, actor: Membership, roomSlug: string, slug: nat) returns (accepted: bool)
      modifies this
      ensures accepted <==> Filter(old(requests), ToApprover(slug, actor.id)) != []
      ensures Desk() == DenyByApprover(old(Desk()), ms, actor, roomSlug, slug)
    {
      if Filter(requests, ToApprover(slug, actor.id)) == [] {
        return false;
      }
      FilterStronger(requests, ToApprover(slug, actor.id), ForSlug(slug));
      var pending := Filter(requests, ForSlug(slug));
      var q := pending[|pending| - 1];
      requests := Filter(requests, NotForSlug(slug));
      if MealOwner(State(), slug).None? {
        notes := ReplyWithoutMeal(notes, ms, actor.user, q.member, slug, MealRequestCancel, roomSlug);
      } else {
        notes := Reply(notes, ms, actor.user, q.member, slug, MealRequestCancel, roomSlug);
      }
      accepted := true;
    }

    /** `meal_update_request_cancel`. */
    method Cancel(actor: Membership, roomSlug: string, slug: nat) returns (accepted: bool)
      modifies this
      ensures accepted <==> Filter(old(requests), OwnRequest(slug, actor.id)) != []
      ensures Desk() == CancelRequest(old(Desk()), actor, roomSlug, slug)
    {
      if Filter(requests, OwnRequest(slug, actor.id)) == [] {
        return false;
      }
      requests := Filter(requests, NotOwnRequest(slug, actor.id));
      if MealOwner(State(), slug).Some? {
        notes := Remove(notes, NoteKey(actor.user, None, MealUpdate, Some(slug), Some(roomSlug)));
      }
      accepted := true;
    }
  }
}
