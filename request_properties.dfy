/** What the meal change-request views promise: one pending request per
  * meal, a confirmed request sets the meal count the requester asked for,
  * and denial and cancellation only remove requests. */
module RequestProperties {
  import opened Common
  import opened Roles
  import opened Rooms
  import opened Memberships
  import opened MealTable
  import opened MealEntry
  import opened Notifications
  import opened TrackerForms
  import opened MealRequests

  // ------------------------------------------------------------ one per slug

  /** Deleting requests keeps the slug column unique. */
  lemma {:induction false} FilterKeepsOnePerSlug(rs: seq<MealRequest>, p: MealRequest -> bool)
    requires OneRequestPerSlug(rs)
    ensures OneRequestPerSlug(Filter(rs, p))
  {
    if rs != [] {
      var tail := rs[1..];
      assert OneRequestPerSlug(tail) by {
        forall i, j | 0 <= i < j < |tail| ensures tail[i].slug != tail[j].slug {
          assert tail[i] == rs[i + 1] && tail[j] == rs[j + 1];
        }
      }
      FilterKeepsOnePerSlug(tail, p);
      if p(rs[0]) {
        var r := Filter(rs, p);
        assert r == [rs[0]] + Filter(tail, p);
        forall j | 0 < j < |r| ensures r[0].slug != r[j].slug {
          assert r[j] in tail;
          var k :| 0 <= k < |tail| && tail[k] == r[j];
          assert rs[k + 1] == r[j];
        }
      }
    }
  }

  /** The requests for one meal after a request was stored for it are just
    * that request. */
  lemma ReplaceForSlug(rs: seq<MealRequest>, q: MealRequest, p: MealRequest -> bool)
    requires forall x :: p(x) ==> x.slug == q.slug
    ensures Filter(Filter(rs, NotForSlug(q.slug)) + [q], p) == if p(q) then [q] else []
  {
    var kept := Filter(rs, NotForSlug(q.slug));
    FilterConcat(kept, [q], p);
    forall i | 0 <= i < |kept| ensures !p(kept[i]) {
      assert kept[i] in kept;
    }
    FilterNone(kept, p);
    assert [q][1..] == [];
  }

  // ----------------------------------------------------------------- request

  /** A bump under a key that does not fix the receiver leaves a matching
    * notification, and every matching one now goes to `receiver`. */
  lemma BumpRedirects(notes: seq<Note>, k: NoteKey, created: Note, receiver: UserId)
    requires k.receiver.None? && Matches(created, k) && created.receiver == receiver
    ensures var r := Bump(notes, k, created, Some(receiver));
            AnyMatch(r, k) && forall i | 0 <= i < |r| && Matches(r[i], k) :: r[i].receiver == receiver
  {
    var r := Bump(notes, k, created, Some(receiver));
    if AnyMatch(notes, k) {
      var f := FirstMatch(notes, k);
      assert Matches(r[f], k);
    } else {
      assert Matches(r[|notes|], k);
      forall i | 0 <= i < |notes| ensures !Matches(r[i], k) {
        assert r[i] == notes[i];
      }
    }
  }

  /** `MealUpdateRequestView`: the owner of an existing meal who addresses
    * one of the form's candidates stores exactly one request for the meal,
    * the earlier one (if any) replaced; the requests for other meals and the
    * meal table are untouched; the approver holds the `meal_update`
    * notification. Anybody else changes nothing. */
  lemma RequestEffect(d: Desk, ms: seq<Membership>, actor: Membership, roomSlug: string,
                      slug: nat, shouldBe: Amount, requestTo: Membership)
    ensures var r := RequestChange(d, ms, actor, roomSlug, slug, shouldBe, requestTo);
            r.meals == d.meals
    ensures var r := RequestChange(d, ms, actor, roomSlug, slug, shouldBe, requestTo);
            (MealOwner(d.meals, slug) != Some(actor.id) || requestTo !in RequestToCandidates(ms, actor)) ==> r == d
    ensures var r := RequestChange(d, ms, actor, roomSlug, slug, shouldBe, requestTo);
            var key := NoteKey(actor.user, None, MealUpdate, Some(slug), None);
            (MealOwner(d.meals, slug) == Some(actor.id) && requestTo in RequestToCandidates(ms, actor)) ==>
              Filter(r.requests, ForSlug(slug)) == [MealRequest(slug, actor.id, shouldBe, requestTo.id)] &&
              (forall x: MealRequest | x.slug != slug :: x in r.requests <==> x in d.requests) &&
              AnyMatch(r.notes, key) &&
              forall i | 0 <= i < |r.notes| && Matches(r.notes[i], key) :: r.notes[i].receiver == requestTo.user
    ensures OneRequestPerSlug(d.requests) ==>
            OneRequestPerSlug(RequestChange(d, ms, actor, roomSlug, slug, shouldBe, requestTo).requests)
  {
    if MealOwner(d.meals, slug) == Some(actor.id) && requestTo in RequestToCandidates(ms, actor) {
      var q := MealRequest(slug, actor.id, shouldBe, requestTo.id);
      ReplaceForSlug(d.requests, q, ForSlug(slug));
      var key := NoteKey(actor.user, None, MealUpdate, Some(slug), None);
      BumpRedirects(d.notes, key, Note(actor.user, requestTo.user, MealUpdate, Some(slug), roomSlug, 1), requestTo.user);
      if OneRequestPerSlug(d.requests) {
        var kept := Filter(d.requests, NotForSlug(slug));
        FilterKeepsOnePerSlug(d.requests, NotForSlug(slug));
        var rs := kept + [q];
        forall i, j | 0 <= i < j < |rs| ensures rs[i].slug != rs[j].slug {
          if j == |kept| {
            assert rs[i] == kept[i] && kept[i] in kept;
          } else {
            assert rs[i] == kept[i] && rs[j] == kept[j];
          }
        }
      }
    }
  }

  // ----------------------------------------------------------------- confirm

  /** The approver's reply removes the requester's notification to them and
    * leaves the reply notification in place. */
  lemma ReplyEffect(notes: seq<Note>, ms: seq<Membership>, approver: UserId, requester: MemberId,
                    slug: nat, kind: NoteKind, roomSlug: string, m: Membership)
    requires kind != MealUpdate && MembershipWithId(ms, requester) == Some(m)
    ensures var r := Reply(notes, ms, approver, requester, slug, kind, roomSlug);
            (forall n | n in r :: !Matches(n, NoteKey(m.user, Some(approver), MealUpdate, Some(slug), None))) &&
            AnyMatch(r, NoteKey(approver, Some(m.user), kind, Some(slug), None))
  {
    var gone := NoteKey(m.user, Some(approver), MealUpdate, Some(slug), None);
    var key := NoteKey(approver, Some(m.user), kind, Some(slug), None);
    var kept := Remove(notes, gone);
    var created := Note(approver, m.user, kind, Some(slug), roomSlug, 1);
    var r := Bump(kept, key, created, None);
    assert r == Reply(notes, ms, approver, requester, slug, kind, roomSlug);
    forall n | n in r ensures !Matches(n, gone) {
      var i :| 0 <= i < |r| && r[i] == n;
      if i < |kept| {
        assert kept[i] in kept;
      }
    }
    if AnyMatch(kept, key) {
      assert Matches(r[FirstMatch(kept, key)], key);
    } else {
      assert Matches(r[|kept|], key);
    }
  }

  /** `MealUpdateRequestConfirmView.form_valid`: when the actor holds a
    * request for an existing meal, every row with the meal's slug takes the
    * requested count and the actor as confirmer, no other row changes, the
    * actor's requests for the meal are gone and the rest are kept. Without
    * such a request nothing changes. */
  lemma ConfirmEffect(d: Desk, ms: seq<Membership>, actor: Membership, roomSlug: string, slug: nat)
    requires Valid(d.meals)
    ensures var r := ConfirmRequest(d, ms, actor, roomSlug, slug);
            Valid(r.meals) && r.meals.next == d.meals.next && |r.meals.rows| == |d.meals.rows|
    ensures var r := ConfirmRequest(d, ms, actor, roomSlug, slug);
            (Filter(d.requests, ToApprover(slug, actor.id)) == [] || MealOwner(d.meals, slug).None?) ==> r == d
    ensures var r := ConfirmRequest(d, ms, actor, roomSlug, slug);
            var pending := Filter(d.requests, ToApprover(slug, actor.id));
            pending != [] && MealOwner(d.meals, slug).Some? ==>
              (forall i | 0 <= i < |d.meals.rows| && d.meals.rows[i].slug == slug ::
                 r.meals.rows[i] == d.meals.rows[i].(mealToday := Some(pending[|pending| - 1].shouldBe), confirmedBy := actor.id)) &&
              (forall i | 0 <= i < |d.meals.rows| && d.meals.rows[i].slug != slug :: r.meals.rows[i] == d.meals.rows[i]) &&
              (forall x :: x in r.requests <==> x in d.requests && !(x.slug == slug && x.requestTo == actor.id))
    ensures OneRequestPerSlug(d.requests) ==> OneRequestPerSlug(ConfirmRequest(d, ms, actor, roomSlug, slug).requests)
  {
    var pending := Filter(d.requests, ToApprover(slug, actor.id));
    if pending != [] && MealOwner(d.meals, slug).Some? {
      var q := pending[|pending| - 1];
      UpdateWhereValid(d.meals, WithSlug(slug), AdminSet(actor.id, q.shouldBe));
      if OneRequestPerSlug(d.requests) {
        FilterKeepsOnePerSlug(d.requests, NotToApprover(slug, actor.id));
      }
    }
  }

  /** A request addressed to `approver` and confirmed by them sets the
    * meal's count to the requested one, records them as its confirmer and
    * leaves no request for the meal. */
  lemma RequestThenConfirm(d: Desk, ms: seq<Membership>, actor: Membership, roomSlug: string,
                           slug: nat, shouldBe: Amount, approver: Membership)
    requires Valid(d.meals)
    requires MealOwner(d.meals, slug) == Some(actor.id) && approver in RequestToCandidates(ms, actor)
    ensures var r := ConfirmRequest(RequestChange(d, ms, actor, roomSlug, slug, shouldBe, approver), ms, approver, roomSlug, slug);
            Valid(r.meals) &&
            (forall i | 0 <= i < |r.meals.rows| && r.meals.rows[i].slug == slug ::
               r.meals.rows[i].mealToday == Some(shouldBe) && r.meals.rows[i].confirmedBy == approver.id) &&
            (exists i | 0 <= i < |r.meals.rows| :: r.meals.rows[i].slug == slug) &&
            forall x | x in r.requests :: x.slug != slug
  {
    var d2 := RequestChange(d, ms, actor, roomSlug, slug, shouldBe, approver);
    var q := MealRequest(slug, actor.id, shouldBe, approver.id);
    assert d2.requests == Filter(d.requests, NotForSlug(slug)) + [q];
    ReplaceForSlug(d.requests, q, ToApprover(slug, approver.id));
    assert Filter(d2.requests, ToApprover(slug, approver.id)) == [q];
    ConfirmEffect(d2, ms, approver, roomSlug, slug);
    var r := ConfirmRequest(d2, ms, approver, roomSlug, slug);
    ReplaceForSlug(d.requests, q, ForSlug(slug));
    assert forall x | x in d2.requests && x.slug == slug :: x in Filter(d2.requests, ForSlug(slug));
    assert forall x | x in r.requests :: x in d2.requests && !(x.slug == slug && x.requestTo == approver.id);
  }

  // -------------------------------------------------------------------- deny

  /** `meal_update_request_deny`: the meal table is untouched, every request
    * for the meal goes and the others stay, whoever the actor is. */
  lemma DenyEffect(d: Desk, ms: seq<Membership>, actor: Membership, roomSlug: string, slug: nat)
    ensures var r := DenyRequest(d, ms, actor, roomSlug, slug);
            r.meals == d.meals && forall x :: x in r.requests <==> x in d.requests && x.slug != slug
    ensures OneRequestPerSlug(d.requests) ==> OneRequestPerSlug(DenyRequest(d, ms, actor, roomSlug, slug).requests)
  {
    var pending := Filter(d.requests, ForSlug(slug));
    assert forall x | x in d.requests && x.slug == slug :: x in pending;
    if pending != [] && OneRequestPerSlug(d.requests) {
      FilterKeepsOnePerSlug(d.requests, NotForSlug(slug));
    }
  }

  /** The deny view as written: a member of another room, to whom nothing was
    * addressed, removes a pending request. */
  lemma AnyoneCanDeny()
    ensures var q := MealRequest(7, 1, 3, 2);
            var d := Desk(Table([], 8), [q], []);
            var stranger := Membership(9, 90, 5, Member);
            Filter(d.requests, ToApprover(7, stranger.id)) == [] &&
            DenyRequest(d, [], stranger, "elsewhere", 7).requests == []
  {
    var q := MealRequest(7, 1, 3, 2);
    assert Filter([q], ToApprover(7, 9)) == [];
    assert Filter([q], NotForSlug(7)) == [];
  }

  /** The corrected deny view: it acts only for the member the request is
    * addressed to, and then does what the deny view does. */
  lemma DenyByApproverOnly(d: Desk, ms: seq<Membership>, actor: Membership, roomSlug: string, slug: nat)
    ensures (forall x | x in d.requests :: !(x.slug == slug && x.requestTo == actor.id)) ==>
            DenyByApprover(d, ms, actor, roomSlug, slug) == d
    ensures (exists x | x in d.requests :: x.slug == slug && x.requestTo == actor.id) ==>
            var r := DenyByApprover(d, ms, actor, roomSlug, slug);
            r.meals == d.meals && forall x :: x in r.requests <==> x in d.requests && x.slug != slug
  {
    var mine := Filter(d.requests, ToApprover(slug, actor.id));
    if exists x | x in d.requests :: x.slug == slug && x.requestTo == actor.id {
      var x :| x in d.requests && x.slug == slug && x.requestTo == actor.id;
      assert x in mine;
      DenyEffect(d, ms, actor, roomSlug, slug);
    } else {
      assert forall i | 0 <= i < |d.requests| :: d.requests[i] in d.requests;
      FilterNone(d.requests, ToApprover(slug, actor.id));
    }
  }

  // ------------------------------------------------------------------ cancel

  /** `meal_update_request_cancel`: the meal table is untouched and exactly
    * the actor's own requests for the meal go. */
  lemma CancelEffect(d: Desk, actor: Membership, roomSlug: string, slug: nat)
    ensures var r := CancelRequest(d, actor, roomSlug, slug);
            r.meals == d.meals &&
            forall x :: x in r.requests <==> x in d.requests && !(x.slug == slug && x.member == actor.id)
    ensures OneRequestPerSlug(d.requests) ==> OneRequestPerSlug(CancelRequest(d, actor, roomSlug, slug).requests)
  {
    var own := Filter(d.requests, OwnRequest(slug, actor.id));
    assert forall x | x in d.requests && x.slug == slug && x.member == actor.id :: x in own;
    if own != [] && OneRequestPerSlug(d.requests) {
      FilterKeepsOnePerSlug(d.requests, NotOwnRequest(slug, actor.id));
    }
  }
}
