/** The room-title validators of rooms/forms.py. Django strips surrounding
  * whitespace from every CharField before they run, so a title here is the
  * stripped text. */
module RoomForms {
  import opened Common
  import opened Rooms

  /** `[0-9A-Za-z-_@.]`. */
  predicate RoomTitleChar(ch: char)
  {
    IsDigit(ch) || IsLetter(ch) || ch == '-' || ch == '_' || ch == '@' || ch == '.'
  }

  const TitleLimit := 30
  /** The `max_length` of the title field on the creation form. */
  const CreateFieldLimit := 20

  /** `Room.objects.filter(title__iexact=title).exists()`, over every room,
    * active or not. */
  predicate TitleTaken(rooms: seq<Room>, title: string)
  {
    exists x :: x in rooms && EqualsIgnoreCase(x.title, title)
  }

  /** Character set, then length: the tail both `clean_title`s share. */
  function CheckTitleShape(title: string): (r: Check)
    ensures r == Pass <==> MatchesPlus(title, RoomTitleChar) && |title| <= TitleLimit
  {
    if !MatchesPlus(title, RoomTitleChar) then Fail(BadCharacters)
    else if |title| > TitleLimit then Fail(TooLong)
    else Pass
  }

  /** `RoomCreateForm.clean_title`. */
  function CleanCreateTitle(rooms: seq<Room>, title: string): (r: Check)
    ensures r == Fail(Duplicate) <==> TitleTaken(rooms, title)
    ensures r == Pass <==> !TitleTaken(rooms, title) && MatchesPlus(title, RoomTitleChar) && |title| <= TitleLimit
  {
    if TitleTaken(rooms, title) then Fail(Duplicate) else CheckTitleShape(title)
  }

  /** The creation form as a whole: the field is required and holds at most
    * 20 characters, and only then does `clean_title` run. */
  function CreateTitleField(rooms: seq<Room>, title: string): (r: Check)
    ensures title == "" ==> r == Fail(Required)
    ensures r == Pass ==> CleanCreateTitle(rooms, title) == Pass && |title| <= CreateFieldLimit
    ensures TitleTaken(rooms, title) ==> r != Pass
  {
    if title == "" then Fail(Required)
    else if |title| > CreateFieldLimit then Fail(TooLong)
    else CleanCreateTitle(rooms, title)
  }

  /** With the field's 20-character bound in front, `clean_title`'s own
    * 30-character test never fires on creation. */
  lemma CreateLengthTestUnreachable(rooms: seq<Room>, title: string)
    ensures CreateTitleField(rooms, title) == Pass <==>
            (!TitleTaken(rooms, title) && MatchesPlus(title, RoomTitleChar) && |title| <= CreateFieldLimit)
    ensures CreateTitleField(rooms, title) == Fail(TooLong) <==> |title| > CreateFieldLimit
  {
  }

  /** `RoomUpdateForm.clean_title` as written: the duplicate test is skipped
    * only when the title is exactly the current one, and otherwise it also
    * matches the room being edited. */
  function CleanUpdateTitle(rooms: seq<Room>, current: string, title: string): (r: Check)
    ensures r == Fail(Duplicate) <==> title != current && TitleTaken(rooms, title)
    ensures title == current ==> r == CheckTitleShape(title)
  {
    if title != current && TitleTaken(rooms, title) then Fail(Duplicate) else CheckTitleShape(title)
  }

  /** As written, renaming a room only by letter case is refused as a
    * duplicate of its own title. */
  lemma CaseOnlyRenameRefused()
    ensures CleanUpdateTitle([Room(1, "Home", "home-x", true, Public, None, User(7, "ann", "", "", ""))],
                             "Home", "HOME") == Fail(Duplicate)
  {
    var rooms := [Room(1, "Home", "home-x", true, Public, None, User(7, "ann", "", "", ""))];
    assert Lower("Home") == Lower("HOME");
    assert rooms[0] in rooms;
  }

  /** Another room (not `self`) already holds the title, ignoring case. */
  predicate TitleTakenByOther(rooms: seq<Room>, self: RoomId, title: string)
  {
    exists x :: x in rooms && x.id != self && EqualsIgnoreCase(x.title, title)
  }

  /** The update test with the room being edited left out of the duplicate
    * lookup. */
  function CleanUpdateTitleExcludingSelf(rooms: seq<Room>, self: RoomId, title: string): (r: Check)
    ensures r == Fail(Duplicate) <==> TitleTakenByOther(rooms, self, title)
    ensures r == Pass <==> !TitleTakenByOther(rooms, self, title) && CheckTitleShape(title) == Pass
  {
    if TitleTakenByOther(rooms, self, title) then Fail(Duplicate) else CheckTitleShape(title)
  }

  /** The `max_length` of the title field on the update form. */
  const UpdateFieldLimit := 30
  /** The `max_length` of the optional description field on both forms. */
  const DescriptionLimit := 100

  /** The update form's title as a whole: the field is required and holds
    * at most 30 characters, then the corrected `clean_title` runs. */
  function UpdateTitleField(rooms: seq<Room>, self: RoomId, title: string): (r: Check)
    ensures r == Pass <==> CleanUpdateTitleExcludingSelf(rooms, self, title) == Pass
    ensures title == "" ==> r == Fail(Required)
  {
    if title == "" then Fail(Required)
    else if |title| > UpdateFieldLimit then Fail(TooLong)
    else CleanUpdateTitleExcludingSelf(rooms, self, title)
  }

  /** The optional description field of both forms. */
  function DescriptionField(description: Option<string>): (r: Check)
    ensures r == Pass || r == Fail(TooLong)
    ensures r == Pass <==> description.None? || |description.value| <= DescriptionLimit
  {
    if description.Some? && |description.value| > DescriptionLimit then Fail(TooLong) else Pass
  }

  /** Room titles are pairwise distinct ignoring case, as the creation and
    * update checks keep them. */
  predicate DistinctTitles(rooms: seq<Room>)
  {
    forall i, j | 0 <= i < j < |rooms| :: !EqualsIgnoreCase(rooms[i].title, rooms[j].title)
  }

  /** With the titles distinct, the corrected test accepts any well-formed
    * case-only rename of the room being edited. */
  lemma CaseOnlyRenameAccepted(rooms: seq<Room>, k: nat, title: string)
    requires k < |rooms| && DistinctTitles(rooms) && UniqueIds(rooms)
    requires EqualsIgnoreCase(rooms[k].title, title) && CheckTitleShape(title) == Pass
    ensures CleanUpdateTitleExcludingSelf(rooms, rooms[k].id, title) == Pass
  {
    if TitleTakenByOther(rooms, rooms[k].id, title) {
      var x :| x in rooms && x.id != rooms[k].id && EqualsIgnoreCase(x.title, title);
      var j :| 0 <= j < |rooms| && rooms[j] == x;
      assert j != k;
      assert EqualsIgnoreCase(rooms[j].title, rooms[k].title);
      assert false;
    }
  }

  /** For a changed title the two tests refuse the same duplicates, except the
    * room's own title under another letter case. */
  lemma ExcludingSelfOnlyDropsOwnTitle(rooms: seq<Room>, self: Room, title: string)
    requires self in rooms && title != self.title
    requires forall x | x in rooms && x.id == self.id :: x == self
    ensures CleanUpdateTitle(rooms, self.title, title) == Fail(Duplicate) <==>
            CleanUpdateTitleExcludingSelf(rooms, self.id, title) == Fail(Duplicate) ||
            EqualsIgnoreCase(self.title, title)
  {
    if TitleTaken(rooms, title) && !EqualsIgnoreCase(self.title, title) {
      var x :| x in rooms && EqualsIgnoreCase(x.title, title);
      assert x.id != self.id;
    }
  }
}
