/** Notifications (utils/models.py) as the ledger views keep them, and the
  * suspicious-attempt record every `dispatch` updates on a refused request.
  * A repeated notification does not add a row: the matching rows' counter
  * goes up by one. */
module Notifications {
  import opened Common
  import opened Rooms

  /** The `notify_type` values the modelled views use. */
  datatype NoteKind = JoinRoom | MealUpdate | MealUpdateByMaintainer | MealUpdateConfirmed | MealRequestCancel

  datatype Note = Note(sender: UserId, receiver: UserId, kind: NoteKind, identifier: Option<nat>,
                       roomIdentifier: string, counter: nat)

  /** The filter a view uses to find an earlier notification: sender and
    * type always, receiver, identifier and room identifier when given. */
  datatype NoteKey = NoteKey(sender: UserId, receiver: Option<UserId>, kind: NoteKind,
                             identifier: Option<nat>, room: Option<string>)

  predicate Matches(n: Note, k: NoteKey)
  {
    n.sender == k.sender && n.kind == k.kind &&
    (k.receiver.Some? ==> n.receiver == k.receiver.value) &&
    (k.identifier.Some? ==> n.identifier == k.identifier) &&
    (k.room.Some? ==> n.roomIdentifier == k.room.value)
  }

  predicate AnyMatch(notes: seq<Note>, k: NoteKey)
  {
    exists i | 0 <= i < |notes| :: Matches(notes[i], k)
  }

  /** Index of `notification_filter.first()`. */
  function FirstMatch(notes: seq<Note>, k: NoteKey): (i: nat)
    requires AnyMatch(notes, k)
    ensures i < |notes| && Matches(notes[i], k)
    ensures forall j | 0 <= j < i :: !Matches(notes[j], k)
  {
    if Matches(notes[0], k) then 0
    else
      assert AnyMatch(notes[1..], k) by {
        var j :| 0 <= j < |notes| && Matches(notes[j], k);
        assert notes[1..][j - 1] == notes[j];
      }
      1 + FirstMatch(notes[1..], k)
  }

  /** The dedup-by-counter rule: when earlier notifications match, every
    * matching row takes the first match's counter plus one (and, when
    * `newReceiver` is given, that receiver); otherwise `created` is added with
    * counter 1. */
  function Bump(notes: seq<Note>, k: NoteKey, created: Note, newReceiver: Option<UserId>): (r: seq<Note>)
  {
    if AnyMatch(notes, k) then
      var c := notes[FirstMatch(notes, k)].counter + 1;
      seq(|notes|, i requires 0 <= i < |notes| =>
        if Matches(notes[i], k)
        then notes[i].(counter := c, receiver := if newReceiver.Some? then newReceiver.value else notes[i].receiver)
        else notes[i])
    else notes + [created.(counter := 1)]
  }

  /** What `Bump` promises: when a match exists there is no new row, the
    * first match's counter goes up by one, every other matching row takes
    * that same counter, all matching rows take the new receiver when one is
    * given, and the rows that do not match are untouched; otherwise one new
    * row with counter 1. */
  lemma BumpEffect(notes: seq<Note>, k: NoteKey, created: Note, newReceiver: Option<UserId>)
    ensures var r := Bump(notes, k, created, newReceiver);
            AnyMatch(notes, k) ==>
              var first := notes[FirstMatch(notes, k)];
              |r| == |notes| &&
              r[FirstMatch(notes, k)].counter == first.counter + 1 &&
              (forall i | 0 <= i < |notes| && Matches(notes[i], k) ::
                 r[i] == notes[i].(counter := first.counter + 1,
                                   receiver := if newReceiver.Some? then newReceiver.value else notes[i].receiver)) &&
              forall i | 0 <= i < |notes| && !Matches(notes[i], k) :: r[i] == notes[i]
    ensures var r := Bump(notes, k, created, newReceiver);
            !AnyMatch(notes, k) ==> r == notes + [created.(counter := 1)]
  {
  }

  /** Sending the same notification twice leaves one row, with counter 2. */
  lemma {:induction false} RepeatIncrements(notes: seq<Note>, k: NoteKey, created: Note)
    requires !AnyMatch(notes, k) && Matches(created, k)
    ensures var once := Bump(notes, k, created, None);
            var twice := Bump(once, k, created, None);
            |twice| == |notes| + 1 && twice[|notes|] == created.(counter := 2) && twice[..|notes|] == notes
  {
    var once := Bump(notes, k, created, None);
    assert Matches(once[|notes|], k);
    assert AnyMatch(once, k);
    forall j | 0 <= j < |notes| ensures !Matches(once[j], k) {
      assert once[j] == notes[j];
    }
    assert FirstMatch(once, k) == |notes|;
    var twice := Bump(once, k, created, None);
    forall i | 0 <= i < |notes| ensures twice[i] == notes[i] {
      assert once[i] == notes[i] && !Matches(notes[i], k);
    }
  }

  /** `Notification.objects.filter(...).delete()`. */
  function Remove(notes: seq<Note>, k: NoteKey): (r: seq<Note>)
    ensures forall n :: n in r <==> n in notes && !Matches(n, k)
  {
    Filter(notes, (n: Note) => !Matches(n, k))
  }

  /** `RoomDeleteView.get_success_url`: notifications whose room identifier
    * equals the deleted room's slug, ignoring case, go. */
  function RemoveRoom(notes: seq<Note>, slug: string): (r: seq<Note>)
    ensures forall n :: n in r <==> n in notes && !EqualsIgnoreCase(n.roomIdentifier, slug)
  {
    Filter(notes, (n: Note) => !EqualsIgnoreCase(n.roomIdentifier, slug))
  }

  /** One failed attempt by `user`: an existing record's attempt count goes
    * up by one, otherwise a record is created with the column's default. */
  function AfterFailedAttempt(attempts: map<UserId, nat>, user: UserId, initial: nat): (r: map<UserId, nat>)
    ensures user in r && r.Keys == attempts.Keys + {user}
    ensures user in attempts ==> r[user] == attempts[user] + 1
    ensures user !in attempts ==> r[user] == initial
    ensures forall u | u in attempts && u != user :: r[u] == attempts[u]
  {
    if user in attempts then attempts[user := attempts[user] + 1] else attempts[user := initial]
  }

  /** Once recorded, a user's attempt count only grows. */
  lemma AttemptsGrow(attempts: map<UserId, nat>, user: UserId, other: UserId, initial: nat)
    requires other in attempts
    ensures other in AfterFailedAttempt(attempts, user, initial)
    ensures AfterFailedAttempt(attempts, user, initial)[other] >= attempts[other]
  {
  }

  /** The `Suspicious` table: attempt counts per user. The default of the
    * attempt column is defined in suspicious/models.py, which is not part of
    * this model; it is a parameter here. */
  class SuspiciousLog {
    const initial: nat
    var attempts: map<UserId, nat>

    constructor (initial: nat)
      ensures this.initial == initial && attempts == map[]
    {
      this.initial := initial;
      attempts := map[];
    }

    /** The `dispatch` refusal path shared by every guarded view. */
    method RecordFailedAttempt(user: UserId)
      modifies this
      ensures attempts == AfterFailedAttempt(old(attempts), user, initial)
    {
      if user in attempts {
        attempts := attempts[user := attempts[user] + 1];
      } else {
        attempts := attempts[user := initial];
      }
    }

    /** `dispatch`: a request that fails its authorization test is recorded
      * and refused; one that passes changes nothing here. */
    method Guard(user: UserId, passes: bool) returns (allowed: bool)
      modifies this
      ensures allowed == passes
      ensures attempts == if passes then old(attempts) else AfterFailedAttempt(old(attempts), user, initial)
    {
      allowed := passes;
      if !passes {
        RecordFailedAttempt(user);
      }
    }
  }
}
