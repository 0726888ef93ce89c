/** The meal change-request workflow of tracker/views.py: a member asks an
  * approver to change the meal count of one of their rows
  * (`MealUpdateRequestView`), and the request is then confirmed
  * (`MealUpdateRequestConfirmView`), denied (`meal_update_request_deny`) or
  * withdrawn (`meal_update_request_cancel`). Each view is a function from
  * the meal table, the pending requests and the notifications before to
  * those after. */
module MealRequests {
  import opened Common
  import opened Roles
  import opened Rooms
  import opened Memberships
  import opened MealTable
  import opened MealEntry
  import opened Notifications
  import opened TrackerForms

  /** The three tables the request views read and write. */
  datatype Desk = Desk(meals: Table, requests: seq<MealRequest>, notes: seq<Note>)

  /** The request slug column is unique: one pending request per meal. */
  predicate OneRequestPerSlug(rs: seq<MealRequest>)
  {
    forall i, j | 0 <= i < j < |rs| :: rs[i].slug != rs[j].slug
  }

  function ForSlug(slug: nat): MealRequest -> bool
  {
    (q: MealRequest) => q.slug == slug
  }

  function NotForSlug(slug: nat): MealRequest -> bool
  {
    (q: MealRequest) => q.slug != slug
  }

  /** `MealUpdateRequest.objects.filter(slug=slug, request_to=approver)`. */
  function ToApprover(slug: nat, approver: MemberId): MealRequest -> bool
  {
    (q: MealRequest) => q.slug == slug && q.requestTo == approver
  }

  function NotToApprover(slug: nat, approver: MemberId): MealRequest -> bool
  {
    (q: MealRequest) => !(q.slug == slug && q.requestTo == approver)
  }

  /** `MealUpdateRequest.objects.filter(member=member, slug=slug)`. */
  function OwnRequest(slug: nat, member: MemberId): MealRequest -> bool
  {
    (q: MealRequest) => q.slug == slug && q.member == member
  }

  function NotOwnRequest(slug: nat, member: MemberId): MealRequest -> bool
  {
    (q: MealRequest) => !(q.slug == slug && q.member == member)
  }

  /** The owner of the meal row with the given slug, if there is one. */
  function MealOwner(t: Table, slug: nat): (r: Option<MemberId>)
    ensures r.Some? <==> exists i | 0 <= i < |t.rows| :: t.rows[i].slug == slug
  {
    var i := IndexOfSlug(t.rows, slug);
    if i < 0 then None else Some(t.rows[i].member)
  }

  // ----------------------------------------------------------------- request

  /** `MealUpdateRequestView`: only the meal's owner passes
    * `user_passes_test`, and `request_to` must be one of the form's choices.
    * Then any earlier request for the meal is deleted, the new one is
    * stored, and the approver is notified (an earlier `meal_update`
    * notification of the sender for this meal is bumped and redirected). */
  function RequestChange(d: Desk, ms: seq<Membership>, actor: Membership, roomSlug: string,
                         slug: nat, shouldBe: Amount, requestTo: Membership): Desk
  {
    if MealOwner(d.meals, slug) != Some(actor.id) || requestTo !in RequestToCandidates(ms, actor) then d
    else
      Desk(d.meals,
           Filter(d.requests, NotForSlug(slug)) + [MealRequest(slug, actor.id, shouldBe, requestTo.id)],
           Bump(d.notes, NoteKey(actor.user, None, MealUpdate, Some(slug), None),
                Note(actor.user, requestTo.user, MealUpdate, Some(slug), roomSlug, 1), Some(requestTo.user)))
  }

  /** The approver's reply: the requester's `meal_update` notification to
    * the approver goes, and a reply of `kind` is sent (or bumped). */
  function Reply(notes: seq<Note>, ms: seq<Membership>, approver: UserId, requester: MemberId,
                 slug: nat, kind: NoteKind, roomSlug: string): seq<Note>
  {
    match MembershipWithId(ms, requester)
    case None => notes
    case Some(m) =>
      Bump(Remove(notes, NoteKey(m.user, Some(approver), MealUpdate, Some(slug), None)),
           NoteKey(approver, Some(m.user), kind, Some(slug), None),
           Note(approver, m.user, kind, Some(slug), roomSlug, 1), None)
  }

  /** The deny view's reply once the meal's row is gone: the requester's
    * `meal_update` notification still goes and an existing reject note is
    * still counted up, but creating a new one reads the missing meal's date
    * and raises, after the deletions have been made. */
  function ReplyWithoutMeal(notes: seq<Note>, ms: seq<Membership>, approver: UserId, requester: MemberId,
                            slug: nat, kind: NoteKind, roomSlug: string): (r: seq<Note>)
    ensures |r| <= |notes|
    ensures forall n | n in r && n.kind != kind :: n in notes
  {
    match MembershipWithId(ms, requester)
    case None => notes
    case Some(m) =>
      var cleared := Remove(notes, NoteKey(m.user, Some(approver), MealUpdate, Some(slug), None));
      var k := NoteKey(approver, Some(m.user), kind, Some(slug), None);
      if AnyMatch(cleared, k) then Bump(cleared, k, Note(approver, m.user, kind, Some(slug), roomSlug, 1), None)
      else cleared
  }

  // ----------------------------------------------------------------- confirm

  /** `MealUpdateRequestConfirmView.form_valid`: with a request for the meal
    * addressed to the actor, the meal count becomes the requested one, the
    * actor becomes its confirmer, the actor's requests for the meal are
    * deleted and the requester is notified; without one ("Content
    * expired"), nothing changes. */
  function ConfirmRequest(d: Desk, ms: seq<Membership>, actor: Membership, roomSlug: string, slug: nat): Desk
  {
    var pending := Filter(d.requests, ToApprover(slug, actor.id));
    if pending == [] || MealOwner(d.meals, slug).None? then d
    else
      var q := pending[|pending| - 1];
      Desk(Table(UpdateWhere(d.meals.rows, WithSlug(slug), AdminSet(actor.id, q.shouldBe)), d.meals.next),
           Filter(d.requests, NotToApprover(slug, actor.id)),
           Reply(d.notes, ms, actor.user, q.member, slug, MealUpdateConfirmed, roomSlug))
  }

  // -------------------------------------------------------------------- deny

  /** `meal_update_request_deny` as written: whoever calls it, every request
    * for the meal is deleted and the requester is told it was rejected;
    * when the meal's row is gone, no new reject note is created. */
  function DenyRequest(d: Desk, ms: seq<Membership>, actor: Membership, roomSlug: string, slug: nat): (r: Desk)
    ensures r.meals == d.meals
    ensures forall q | q in r.requests :: q.slug != slug
    ensures forall q | q in d.requests && q.slug != slug :: q in r.requests
    ensures Filter(d.requests, ForSlug(slug)) == [] ==> r == d
  {
    var pending := Filter(d.requests, ForSlug(slug));
    if pending == [] then d
    else
      var q := pending[|pending| - 1];
      Desk(d.meals, Filter(d.requests, NotForSlug(slug)),
           if MealOwner(d.meals, slug).None?
           then ReplyWithoutMeal(d.notes, ms, actor.user, q.member, slug, MealRequestCancel, roomSlug)
           else Reply(d.notes, ms, actor.user, q.member, slug, MealRequestCancel, roomSlug))
  }

  /** The deny view with the check the confirm view makes: only the member
    * the request is addressed to may deny it. */
  function DenyByApprover(d: Desk, ms: seq<Membership>, actor: Membership, roomSlug: string, slug: nat): Desk
  {
    if Filter(d.requests, ToApprover(slug, actor.id)) == [] then d
    else DenyRequest(d, ms, actor, roomSlug, slug)
  }

  // ------------------------------------------------------------------ cancel

  /** `meal_update_request_cancel`: the actor's own requests for the meal
    * are deleted, and with them the actor's `meal_update` notifications for
    * it in the actor's room. */
  function CancelRequest(d: Desk, actor: Membership, roomSlug: string, slug: nat): Desk
  {
    if Filter(d.requests, OwnRequest(slug, actor.id)) == [] then d
    else
      Desk(d.meals, Filter(d.requests, NotOwnRequest(slug, actor.id)),
           if MealOwner(d.meals, slug).Some?
           then Remove(d.notes, NoteKey(actor.user, None, MealUpdate, Some(slug), Some(roomSlug)))
           else d.notes)
  }
}
