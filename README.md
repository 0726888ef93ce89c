# HomeSteer household ledger in Dafny

HomeSteer is a Django site where people who share a home, a "room",
keep their books together. This project models the core of it: the
household ledger and the rules that guard it.

- **Meal-day ledger.** There is one `Meal` row per member and date.
  - The create and update views write today's and tomorrow's rows.
  - Auto entry fills the days from day+2 to the end of the month. Turning it off clears them.
  - A backfill gives every room member a placeholder row for every day of the month.
  - A maintenance minute (00:00) blocks all writes.
  - A manager may override another member's row dated today.
  - Change requests can be made, then confirmed, denied or cancelled.
- **Allocation ledgers.** Cost sectors (`TrackerField` and `MemberTrack`) and cash-deposit fields (`CashDepositField` and `CashDepositMember`).
  - Creating a field seeds a zero row for each member of the room.
  - Assignment upserts one row per field.
  - Assignment is role-gated. A target outside the actor's room counts as a suspicious attempt.
- **Shopping validation.** The item, unit, quantity and date rules, and an item-uniqueness scope that depends on the room's `ManagerialSetting`.
- **The `TotalHolder` aggregates.** Per-member and per-room sums, each with its SQL `NULL` behaviour.
- **Membership and room rules.**
  - Room creation, join requests and their confirmation or deletion.
  - Role changes, with the 15-member cap and the 6-maintainer cap.
  - Creator-only room update, deletion and shopping-type change.
  - The suspicious-attempt counter, and the notification counter that de-duplicates repeated notifications.
- **Field validators and template tags.** Room title, profile name and contact number; the role tags and the meal-slug tag.

## How the model is built

- Tables are sequences of rows in insertion order. A queryset's `.first()` is taken to be the earliest matching row and `.last()` the latest (see "Left out" for why this is an assumption).
- Money and meal counts are `nat` hundredths, because the source columns are `DecimalField(decimal_places=2)` with a minimum of 0. Nullable columns are `Option`s. The columns' `max_digits` upper bounds are not modelled (see "Left out").
- The current moment is a `Clock` value passed in by the caller. It holds:
  - the date and the time of day;
  - the lengths of this month and of the next one, which the source gets from `calendar.monthrange`.
- Generated slugs (meals, requests, memberships, fields) are opaque numbers taken from a counter. A room slug is the lower-cased title, a dash, and a suffix that the caller supplies.
- The view code changes state step by step, so it is written as classes whose methods change their fields. Each method is proved equal to a specification function of the old state. The properties are proved about those functions as lemmas.
  - `MealLedger.MealBook` holds meals, meal requests and notifications.
  - `Allocation.Ledger` holds cost and deposit fields and rows, and the `TotalHolder` rows.
  - `Directory.Registry` holds rooms, memberships, join requests, managerial settings and notifications.
  - `Notifications.SuspiciousLog` holds the `Suspicious` table.
- The validators, the queryset filters, the aggregates and the template tags are pure functions.

## Model

| member | source | states |
|---|---|---|
| Common.Tomorrow | tracker/views.py:289 | tomorrow is never today; it stays in this month exactly when today is not the month's last day, and is day+1 or the 1st |
| Common.SqlSum | tracker/models.py:264 | `Sum` over a nullable column is NULL exactly when every selected value is NULL |
| Common.SqlSumAgrees | tracker/models.py:263-266 | a non-NULL SQL sum equals the sum with NULL read as 0; a NULL sum corresponds to a zero NULL-as-zero sum |
| Roles.RoleFromCode | memberships/models.py:9-21 | a role code is valid exactly when it is 0, 1 or 2, and decodes to the role with that code |
| Roles.RoleCodeRoundTrip | memberships/models.py:9-21 | decoding a role's code gives the role back; every code is at most 2 |
| Rooms.ShoppingTypeOf | tracker/models.py:329-333 | a room has a shopping type exactly when some managerial setting belongs to it, and the type is that of the room's first setting |
| Rooms.ShoppingTypeOfOnly | rooms/models.py:99-102 | with the one setting per room that the receiver creates, the room's shopping type is that setting's |
| Rooms.Active | rooms/models.py:9-10 | `active()` keeps exactly the active rooms |
| Rooms.PrivacyPublic | rooms/models.py:11-12 | `privacy_public()` keeps exactly the rooms of privacy 0 |
| Rooms.PrivacySecret | rooms/models.py:15-16 | `privacy_secret()` keeps exactly the rooms of privacy 1 |
| Rooms.AllRooms | rooms/models.py:32-33 | `all()` returns every active room and only active rooms |
| Rooms.Search | rooms/models.py:19-27 | the manager's search keeps exactly the active public rooms whose title, description or creator's username, names or e-mail contain the query, ignoring case |
| Rooms.WithId | rooms/models.py:35 | the id filter keeps exactly the rooms with that id |
| Rooms.GetById | rooms/models.py:34-38 | `get_by_id` returns a room exactly when one row matches, and it is that row |
| Rooms.WithIdAbsent | rooms/models.py:35 | no room carries the id, so the filter is empty |
| Rooms.WithIdUnique | rooms/models.py:34-38 | with unique ids the filter matches at most one row |
| Rooms.GetByIdFindsExisting | rooms/models.py:34-38 | with unique ids `get_by_id` finds a room exactly when one with that id exists |
| Rooms.SearchWithinAll | rooms/models.py:39-40 | search results are among `all()`, and a secret room is never found |
| Memberships.RoomMembers | rooms/views.py:167 | the room's memberships are exactly the members whose room it is |
| Memberships.Maintainers | rooms/views.py:171-174 | the maintainers are exactly the room's members of role 1 or 2 |
| Memberships.MaintainerCount | rooms/views.py:170-175 | the maintainer count never exceeds the room's member count |
| Memberships.MembershipOf | memberships/models.py:17-19 | `user.membership` exists exactly when the user has a membership row, and is one of that user's rows |
| Memberships.MembershipWithId | memberships/models.py:25 | lookup by membership slug finds a row exactly when one has that slug |
| Memberships.RequestOf | memberships/models.py:38-40 | a user's join request is found exactly when one exists |
| Memberships.MembershipOfIsUnique | memberships/models.py:17-19 | under the one-to-one user column, `user.membership` is the user's only membership |
| TrackerModels.CostFieldsOf | memberships/views.py:163-172 | the room's tracker fields are exactly the fields whose room it is |
| TrackerModels.DepositFieldsOf | tracker/models.py:377 | the room's deposit fields are exactly the fields whose room it is |
| Notifications.FirstMatch | tracker/views.py:951-953 | the first notification matching the filter, before which none matches |
| Notifications.BumpEffect | tracker/views.py:951-968 | when a notification matches, no row is added: every matching row takes the first match's counter plus one and, when one is given, the new receiver, and the rows that do not match stay; otherwise a new one with counter 1 is appended |
| Notifications.RepeatIncrements | memberships/views.py:117-132 | sending the same notification twice leaves one row with counter 2, not two rows |
| Notifications.Remove | tracker/views.py:1062-1066 | deleting by filter keeps exactly the notifications that do not match |
| Notifications.RemoveRoom | rooms/views.py:204-212 | deleting a room's notifications keeps exactly those whose room identifier differs from the slug, ignoring case |
| Notifications.AfterFailedAttempt | rooms/views.py:98-113 | a failed check raises the user's attempt count by one, or creates it at the initial value; every other user's count is kept |
| Notifications.AttemptsGrow | rooms/views.py:98-113 | a failed attempt never lowers anyone's count |
| Notifications.SuspiciousLog.constructor | rooms/views.py:98-113 | the log starts empty with the given initial count |
| Notifications.SuspiciousLog.RecordFailedAttempt | rooms/views.py:102-110 | the log becomes `AfterFailedAttempt` of the old log |
| Notifications.SuspiciousLog.Guard | rooms/views.py:98-113 | the check's outcome is returned, and the attempt is recorded exactly when the check fails |
| Permissions.MembershipWithIdIsUnique | memberships/models.py:25 | with unique slugs, lookup by slug returns the one membership with that slug |
| Permissions.ShoppingUpdateIffDelete | tracker/views.py:1500-1504 | the shopping update and delete tests admit the same users, namely the entry's creator |
| Permissions.MonthlyUpdateIffDelete | tracker/views.py:1596-1601 | the monthly-shopping update and delete tests admit the same users |
| Permissions.ManagerOnlyViews | tracker/views.py:1759-1763 | every deposit view and the monthly shopping views admit managers only; a cost-sector view admits someone other than the room's creator only when that user is a manager of the room |
| Permissions.ChartsNest | tracker/views.py:1991-1995 | whoever may see the charts may see the meal chart; whoever may add monthly shopping may add shopping and see the charts; the meal chart and shopping entry admit the same users |
| Permissions.ManagesFields | tracker/views.py:74-83 | the cost-sector views (also 139-148, 184-193, 251-260) admit only a member of the room; the room's creator needs nothing more, anyone else must be a manager of that room |
| Permissions.MayAddShopping | tracker/views.py:1314-1321 | `ShoppingCreateView` admits exactly the users who hold a membership |
| Permissions.MayAddMonthlyShopping | tracker/views.py:1402-1411 | `MonthlyShoppingCreateView` admits only users who hold a manager membership; with one membership per user, exactly those |
| Permissions.MayUpdateShopping | tracker/views.py:1500-1507 | `ShoppingUpdateView` admits only the user whose membership created the entry; with one membership per user, exactly that user |
| Permissions.MayDeleteShopping | tracker/views.py:1646-1653 | `ShoppingDeleteView` admits only the user whose membership created the entry; with unique membership slugs, exactly that user |
| Permissions.MayUpdateMonthlyShopping | tracker/views.py:1596-1604 | `MonthlyShoppingUpdateView` admits only a manager in the room of the entry's creator; with one membership per user and unique slugs, exactly those managers |
| Permissions.MayDeleteMonthlyShopping | tracker/views.py:1696-1704 | `MonthlyShoppingDeleteView` admits only a manager in the room of the entry's creator; with one membership per user and unique slugs, exactly those managers |
| Permissions.MayCreateDepositField | tracker/views.py:1759-1764 | `CashDepositFieldCreateView` admits only users who hold a manager membership; with one membership per user, exactly those |
| Permissions.MayChangeDepositField | tracker/views.py:1822-1828 | the deposit-field update and delete views (also 1862-1868) admit only a manager of the field's room; with one membership per user, exactly those managers |
| Permissions.MayAssignDeposit | tracker/views.py:1925-1934 | `CashDepositFieldAssignView` admits only a manager whose room holds the target membership; with one membership per user and unique slugs, exactly those managers |
| Permissions.MaySeeCharts | tracker/views.py:1991-1996 | the cost, shopping and deposit charts (also 2151-2156, 2205-2210) admit only a supervisor or manager; with one membership per user, exactly those |
| Permissions.MaySeeMealChart | tracker/views.py:2079-2084 | `MealChartView` admits exactly the users who hold a membership |
| Tags.TagsNest | accounts/templatetags/tags.py:44-74 | a manager is a modifier, a modifier is a maintainer, and a modifier who did not create the room is a manager |
| Tags.MealSlugTag | accounts/templatetags/tags.py:75-90 | the slug of the last row of the member dated today, or None exactly when there is none |
| Tags.TagAfterCreate | accounts/templatetags/tags.py:75-90 | after a successful meal create the tag names the row just written for today |
| Tags.IsManagerTag | accounts/templatetags/tags.py:44-50 | `is_manager_tag` holds exactly for the manager role |
| Tags.IsSupervisorTag | accounts/templatetags/tags.py:52-58 | `is_supervisor_tag` holds exactly for the supervisor role |
| Tags.IsModifierTag | accounts/templatetags/tags.py:60-66 | `is_modifier_tag` holds exactly for the room's creator or a manager |
| Tags.IsMaintainerTag | accounts/templatetags/tags.py:68-74 | `is_maintainer_tag` holds exactly for the room's creator or a member whose role is not the plain member role |
| ProfileForms.CleanFirstName | accounts/forms.py:67-76 | an empty first name passes; otherwise it passes iff it has at most 15 characters, all from `[A-Za-z.,- ]` |
| ProfileForms.CleanLastName | accounts/forms.py:77-86 | as for the first name, with a limit of 20 |
| ProfileForms.FirstNameIsLastName | accounts/forms.py:67-86 | every accepted first name is an accepted last name |
| ProfileForms.ContactFieldAccepts | accounts/forms.py:88-99 | with the 14-character field bound, a contact passes iff it is empty or is "+880" followed by ten digits |
| ProfileForms.ContactLengthTestRedundant | accounts/forms.py:88-99 | on a 14-character input the `len >= 11` test never decides: `clean_contact` is the character, prefix and single-'+' tests |
| ProfileForms.CleanContact | accounts/forms.py:88-99 | `clean_contact` either passes or reports an invalid contact; a non-empty contact it passes has at least 11 characters, starts with "+880" and uses only contact characters |
| ProfileForms.ContactField | accounts/forms.py:36 | the contact field always accepts the empty value; anything else it accepts is 14 characters long and passes `clean_contact` |
| RoomForms.CheckTitleShape | rooms/forms.py:25-32 | a title's shape passes iff it matches `[0-9A-Za-z-_@.]+` and has at most 30 characters |
| RoomForms.CleanCreateTitle | rooms/forms.py:20-33 | the create title is a duplicate exactly when some room has it ignoring case; it passes iff it is free and well formed |
| RoomForms.CreateLengthTestUnreachable | rooms/forms.py:8-33 | behind the 20-character field bound, creation passes iff the title is free, well formed and at most 20 long; `clean_title`'s 30-character test never fires |
| RoomForms.CleanUpdateTitle | rooms/forms.py:52-66 | as written: the duplicate test is skipped only for the unchanged title |
| RoomForms.CaseOnlyRenameRefused | rooms/forms.py:52-66 | renaming "Home" to "HOME" is refused as a duplicate of the room's own title |
| RoomForms.CleanUpdateTitleExcludingSelf | rooms/forms.py:52-66 | corrected: a duplicate exactly when another room has the title ignoring case; passes iff free and well formed |
| RoomForms.UpdateTitleField | rooms/forms.py:39-66 | the update form's title passes iff the corrected check passes, and an empty title is refused as required |
| RoomForms.CaseOnlyRenameAccepted | rooms/forms.py:52-66 | under the corrected check a room may change the case of its own title |
| RoomForms.ExcludingSelfOnlyDropsOwnTitle | rooms/forms.py:52-66 | the two update checks differ only on titles equal to the room's own title ignoring case |
| RoomForms.CreateTitleField | rooms/forms.py:8-33 | the creation title is required; an accepted one passes `clean_title` and has at most 20 characters, so a taken title is never accepted |
| RoomForms.DescriptionField | rooms/forms.py:11 | the description is accepted exactly when it is absent or at most 100 characters, and otherwise is too long |
| TrackerForms.CheckFieldTitle | tracker/forms.py:112-122 | a field title passes iff it matches `[0-9A-Za-z-]+` and has at most 20 characters; a failure is one of those two |
| TrackerForms.CleanCostTitle | tracker/forms.py:48-65 | a cost-sector title is a duplicate exactly when the room has a field with it ignoring case; passes iff free and well formed |
| TrackerForms.CostTitleScopedToRoom | tracker/forms.py:48-65 | titles in other rooms never make a duplicate |
| TrackerForms.CleanDescription | tracker/forms.py:560-566 | a field description passes iff it has at most 30 characters, the deposit form's `clean_description` and the cost form's field bound alike |
| TrackerForms.CreateDepositFieldCheck | tracker/forms.py:548-558 | a deposit-field title passes iff well formed, at most 20 long and free in the room |
| TrackerForms.FieldTitlesAgree | tracker/forms.py:48-65 | on a title free in both tables, the cost-sector and deposit-field checks agree |
| TrackerForms.CheckItemShape | tracker/forms.py:396-408 | an item's shape passes iff it matches `[0-9A-Za-z-_]+` and has at most 15 characters |
| TrackerForms.CleanItem | tracker/forms.py:379-409 | an item is a duplicate exactly when it is taken in the scope of the room's shopping type; passes iff free and well formed |
| TrackerForms.CleanItemOnUpdate | tracker/forms.py:467-499 | on update an unchanged item passes; a changed one gets the create rule |
| TrackerForms.ItemUniquenessScope | tracker/forms.py:379-409 | type 0: only the creator's own items clash; other types: only the room's managerial (type 1) items clash; no setting: nothing clashes |
| TrackerForms.CleanQuantityUnit | tracker/forms.py:420-429 | a unit passes iff absent, or letters only and at most 10 long |
| TrackerForms.CleanQuantity | tracker/forms.py:411-418 | the form passes iff a given unit comes with a quantity |
| TrackerForms.CleanShoppingDate | tracker/forms.py:431-438 | a shopping date passes iff it lies in the current month and year |
| TrackerForms.RequestToCandidates | tracker/forms.py:298-320 | the choices are room members; all of them when the room has fewer than 2 members; otherwise never the requester, and only maintainers for a role-0 requester |
| TrackerForms.MaintainerAlwaysHasApprover | tracker/forms.py:298-320 | a maintainer in a room of 2 or more always has a choice, and only maintainers when another maintainer exists |
| TrackerForms.ItemField | tracker/forms.py:357-409 | the item is required; an accepted item has 1 to 15 characters and passes `clean_item` |
| Allocation.UpsertHits | tracker/forms.py:189-201 | after the upsert a row of the pair exists and every row of the pair carries the written value |
| Allocation.UpsertKeeps | tracker/forms.py:189-201 | rows outside the pair are unchanged by the upsert |
| Allocation.MapSelectsOne | tracker/forms.py:87-92 | the seeded rows contain exactly one row for a selected key |
| Allocation.MapSelectsNone | tracker/forms.py:87-92 | the seeded rows contain none for a key nobody selects |
| Allocation.CostFieldTitled | tracker/forms.py:185-187 | the room's field with the posted title, or none exactly when the room has no such field |
| Allocation.AssignCostsEffect | tracker/forms.py:184-201 | after a cost assignment, each posted field's row for the member holds the last posted value; unposted fields keep their rows |
| Allocation.AssignCostsFrame | tracker/forms.py:166-203 | other members' cost rows are unchanged |
| Allocation.DepositFieldTitled | tracker/forms.py:629-631 | the room's deposit field with the posted title, or none exactly when the room has no such field |
| Allocation.AssignDepositsEffect | tracker/forms.py:628-645 | after a deposit assignment with the corrected upsert (see Findings), each posted field has a row for the member in the current month, and all such rows hold the last posted value |
| Allocation.AssignDepositsFrame | tracker/forms.py:633-645 | other members' rows and rows of other months are unchanged |
| Allocation.UpsertDepositAsWrittenDiffers | tracker/forms.py:633-645 | the upsert as written differs from the month-scoped one exactly when the member has no row of the field this month but an older row with the posted amount, and then the month has no row |
| Allocation.RecurringDepositLost | tracker/forms.py:640-645 | a January row of 500.00 and 500.00 posted in February: as written February gets no row, the corrected upsert adds one |
| Allocation.DepositRecordedThisMonth | tracker/forms.py:633-645 | the corrected upsert always leaves the member a row of the field for this month, every one holding the posted amount |
| Allocation.GateAdmits | tracker/forms.py:166-220 | with one membership per user, the assignment form's save admits a cost assignment iff the target is in the actor's room and the actor has role 1 or 2, and a deposit assignment iff the actor has role 2; the suspicious case is the same for both |
| Allocation.AssignCostAccess | tracker/views.py:251-260 | the view's test and the form's save together write a cost assignment exactly for a manager, or a supervisor who created the room, whose target is in the room; for a non-creator this is the deposit test |
| Allocation.SeedsOnePerMember | tracker/forms.py:67-92 | seeding a new cost sector gives each room member exactly one zero row, and others none |
| Allocation.DepositSeedsOnePerMember | tracker/models.py:366-372 | seeding a new deposit field gives each room member exactly one zero row for the month |
| Allocation.SeedsFromFields | tracker/models.py:374-380 | a new member gets a zero row for every deposit field of the room, and no row for any other field |
| Allocation.Ledger.constructor | tracker/models.py:361-380 | the ledger starts with no fields, rows or holders |
| Allocation.Ledger.SeedCostField | tracker/forms.py:85-92 | one zero cost row per member is appended; nothing else changes |
| Allocation.Ledger.CreateCostField | tracker/forms.py:37-92 | creation happens iff the title check passes and the description has at most 30 characters; a refused title is the reported error; the field is appended and seeded for the room's members; nothing else changes |
| Allocation.Ledger.SeedDepositField | tracker/models.py:366-372 | one zero deposit row per member is appended |
| Allocation.Ledger.CreateDepositField | tracker/forms.py:548-566 | creation happens iff the title and description checks pass; the field is appended and seeded by the receiver |
| Allocation.Ledger.SeedMemberDeposits | tracker/models.py:374-380 | one zero deposit row per field is appended for the new member |
| Allocation.Ledger.OnMembershipCreated | tracker/models.py:361-380 | a new membership gets exactly one more `TotalHolder` and a zero row for each deposit field of its room |
| Allocation.Ledger.SeedMemberCosts | memberships/views.py:163-172 | zero rows for each tracker field of the room are added only when the user had no cost rows |
| Allocation.Ledger.UpsertCostRow | tracker/forms.py:189-201 | the cost rows become the upsert of the old ones |
| Allocation.Ledger.UpsertDepositRow | tracker/forms.py:633-645 | the deposit rows become the corrected month-scoped upsert of the old ones (see Findings) |
| Allocation.Ledger.AssignCostForm | tracker/forms.py:166-220 | outcome follows the role gate; rows change only when assigned; a target outside the room records a suspicious attempt |
| Allocation.Ledger.AssignDepositForm | tracker/forms.py:610-645 | as for costs, with managers only and the corrected month-scoped rows (see Findings) |
| Allocation.Gate | tracker/forms.py:166-220 | the assignment forms' access test: no membership exactly when the actor has none; an assignment goes through only when some membership of the actor has an admitted role and the target is in that membership's room |
| Totals.Column | tracker/models.py:264 | the aggregated column lists the value of every selected row |
| Totals.SumWhereIsSumOrZero | tracker/models.py:263-266 | the filtered sum equals the NULL-as-zero sum of the selected column |
| Totals.AggregateAgrees | tracker/models.py:258-266 | a getter returns NULL exactly when rows are selected and all their values are NULL; otherwise it returns the NULL-as-zero sum |
| Totals.SumWhereSplit | tracker/models.py:339 | a sum over two disjoint selections is the sum of the two sums |
| Totals.RoomOfMember | tracker/models.py:280 | a membership slug has a room exactly when the membership exists |
| Totals.MemberSumsNil | tracker/models.py:287-294 | the per-member sum of no rows is 0 |
| Totals.MemberSumsCons | tracker/models.py:287-294 | each row adds its value to its member's sum, when the member is in the room |
| Totals.RoomOfMemberUnique | tracker/models.py:280 | with unique slugs a membership's room is its one room |
| Totals.RoomIsSumOfMembers | tracker/models.py:287-294 | a room total equals the sum of its members' totals |
| Totals.TotalMealOrZero | tracker/models.py:258-266 | corrected `get_total_meal`: the sum as written, with NULL read as 0 |
| Totals.TotalMealNullOnPlaceholders | tracker/models.py:258-266 | a member whose only row this month is a placeholder gets a NULL meal total |
| Totals.MealRoomIsSumOfMembers | tracker/models.py:268-276 | the room's meal total so far this month is the sum of its members' totals |
| Totals.CostRoomIsSumOfMembers | tracker/models.py:287-294 | the room's cost total is the sum of its members' cost totals |
| Totals.ShoppingRoomIsSumOfMembers | tracker/models.py:306-314 | the room's individual shopping total this month is the sum of its members' totals |
| Totals.ShoppingNeverNull | tracker/models.py:296-324 | shopping cost is NOT NULL, so the shopping getters never return NULL |
| Totals.GrandTotalSwitch | tracker/models.py:326-342 | type 0: all the room's shopping this month; other types: the monthly total only; no setting: 0 |
| Totals.NothingSelected | tracker/models.py:337 | with no shopping this month the sum is 0 |
| Totals.DepositRoomIsSumOfMembers | tracker/models.py:352-358 | the room's deposit total this month is the sum of its members' totals |
| Totals.TotalMeal | tracker/models.py:258-266 | `get_total_meal`: NULL exactly when the member has rows this month up to today and all of their `meal_today` are NULL; otherwise the NULL-as-zero sum of those rows |
| Totals.TotalMealRoom | tracker/models.py:268-276 | `get_total_meal_room`: the same for the rows of every member of the room |
| Totals.TotalCost | tracker/models.py:278-285 | `get_total_cost_sector`: NULL exactly when the member has cost rows and all are NULL; otherwise the NULL-as-zero sum of the member's costs |
| Totals.TotalCostRoom | tracker/models.py:287-294 | `get_total_cost_sector_room`: the same over the cost rows of the room's members |
| Totals.TotalShopping | tracker/models.py:296-304 | `get_total_shopping`: the as-written `Sum` over the member's individual shopping this month is never NULL, and is this value |
| Totals.TotalShoppingRoom | tracker/models.py:306-314 | `get_total_shopping_room`: the as-written `Sum` over the room's individual shopping this month is never NULL, and is this value |
| Totals.TotalMonthlyShopping | tracker/models.py:316-324 | `get_total_monthly_shopping`: the as-written `Sum` over the room's managerial shopping this month is never NULL, and is this value |
| Totals.GrandTotalShopping | tracker/models.py:326-342 | `get_grand_total_shopping`: 0 for a room without a setting, and never more than all of the room's shopping this month |
| Totals.DepositTotal | tracker/models.py:344-350 | `get_deposit_total_member`: NULL exactly when the member has deposit rows created this month and all amounts are NULL; otherwise their NULL-as-zero sum |
| Totals.DepositTotalRoom | tracker/models.py:352-358 | `get_deposit_total_room`: the same over the deposit rows of the room's members |
| MealTable.RowsFor | tracker/views.py:318-321 | the rows of a member and date are exactly those rows |
| MealTable.CountFor | tracker/views.py:318-322 | the number of rows of a member and date is 0 exactly when there is none |
| MealTable.LastIndex | tracker/views.py:482-485 | the latest row of the member and date, after which none matches; -1 exactly when none exists |
| MealTable.LastFor | tracker/views.py:482-486 | `.last()` returns a row of the member and date, or none exactly when none exists |
| MealTable.FirstIndex | tracker/views.py:560-561 | `.first()` is a matching row before which none matches |
| MealTable.IndexOfSlug | tracker/views.py:891-905 | a row with the slug, or -1 exactly when no row has it |
| MealTable.OthersRows | tracker/views.py:534 | the rows not of the member are exactly the other members' rows |
| MealTable.ExtendsHasRow | tracker/views.py:384-414 | appending rows never loses a member's row for a date |
| MealTable.ExtendsTrans | tracker/views.py:384-414 | extension composes |
| MealTable.AppendKeeps | tracker/views.py:336-345 | appending a row keeps slugs unique, keeps the earlier rows in place and adds the new row's member and date |
| MealTable.RemoveAtFrame | tracker/views.py:560-561 | deleting one row changes a filter's count by exactly that row |
| MealTable.AppendFrame | tracker/views.py:336-345 | a filter of the extended table is the old filter plus the new row if it matches |
| MealTable.UpdateWhereValid | tracker/views.py:541-547 | a queryset update that keeps slugs keeps them unique |
| MealTable.RemoveAtValid | tracker/views.py:560-561 | deleting a row keeps slugs unique |
| MealEntry.AutoDecision | tracker/views.py:294-306 | auto entry is on iff a value was given and today is before the month's last two days; the value is kept exactly when it is on |
| MealEntry.AdminMayOverride | tracker/views.py:852-859 | the admin update view admits exactly a manager of the owner's room, for a row dated today that is not the manager's own; the two memberships then differ |
| MealProperties.BackfillDaysAppends | tracker/views.py:398-413 | one member's backfill only appends placeholders of that member for the given days of that month |
| MealProperties.BackfillDaysCovers | tracker/views.py:398-413 | after one member's backfill the member has a row for every one of those days |
| MealProperties.BackfillDaysNoop | tracker/views.py:402 | a member who already has every day gets nothing |
| MealProperties.ExtendsCovered | tracker/views.py:384-414 | coverage of a month persists under later appends |
| MealProperties.BackfillWrites | tracker/views.py:384-414 | the backfill keeps earlier rows, only appends placeholders of room members in that month, and leaves every member with every day 1..monthLength |
| MealProperties.BackfillNoop | tracker/views.py:384-414 | a covered month is left exactly as it is |
| MealProperties.BackfillIdempotent | tracker/views.py:384-414 | running the backfill twice adds nothing the first run did not |
| MealProperties.BackfillDaysOnePerDay | tracker/views.py:398-413 | one member's backfill keeps at most one row per member and day |
| MealProperties.BackfillOnePerDay | tracker/views.py:384-414 | the backfill keeps at most one row per member and day |
| MealProperties.CountExtends | tracker/views.py:336-358 | counts over an extended table add the counts of the new rows |
| MealProperties.FillWindowCreateAppends | tracker/views.py:346-358 | the create view's auto-entry loop only appends the member's auto rows for days d..month end |
| MealProperties.FillWindowCreateCovers | tracker/views.py:307-313 | every day from d to month end gets a new auto row |
| MealProperties.CreateWritesRows | tracker/views.py:327-358 | create appends tomorrow's row (tomorrow's count, next day 0) first and today's row (confirmed by the member) last, with auto rows between, only with auto entry on |
| MealProperties.CreateWritesWindow | tracker/views.py:346-358 | with auto entry on, every day from day+2 to month end gets an auto row with the auto value |
| MealProperties.CreateEntryRefusal | tracker/views.py:286-324 | create leaves the table unchanged iff it is the maintenance minute or the member already has a row today |
| MealProperties.CountAddedEnds | tracker/views.py:327-358 | only the first and last appended rows can change the count of a date outside the window |
| MealProperties.OthersUnchangedByOwnRows | tracker/views.py:327-358 | appending the member's own rows leaves other members' rows as they were |
| MealProperties.CreateEntryCounts | tracker/views.py:318-358 | a successful create leaves exactly one row for today, one more for tomorrow, and other members untouched |
| MealProperties.AdminOverrideEffect | tracker/views.py:741-788 | outside maintenance the override changes exactly the one row: its meal count and confirmer; counts and others' rows are kept |
| UpdateProperties.RemoveAtSubset | tracker/views.py:560-561 | deleting a row adds no row |
| UpdateProperties.DropEarliestValid | tracker/views.py:560-561 | deleting the earliest duplicate keeps slugs unique |
| UpdateProperties.DropEarliestFrame | tracker/views.py:560-561 | deleting it leaves every other member and date untouched |
| UpdateProperties.DropEarliestRows | tracker/views.py:560-561 | with 2 or more rows one fewer remains, otherwise nothing changes; no row is added |
| UpdateProperties.WriteTomorrowValid | tracker/views.py:537-561 | writing tomorrow's row keeps slugs unique |
| UpdateProperties.WriteTomorrowFrame | tracker/views.py:537-561 | it leaves every other member and date untouched |
| UpdateProperties.UpsertTomorrowRows | tracker/views.py:537-559 | after the upsert tomorrow has a row, and every row of tomorrow carries the posted next-day count and auto settings |
| UpdateProperties.WriteTomorrowRows | tracker/views.py:537-561 | after the upsert and the duplicate delete, tomorrow has a row, all of them carrying the posted values |
| UpdateProperties.WriteTomorrowOnePerDay | tracker/views.py:537-561 | writing tomorrow keeps one row per member and day |
| UpdateProperties.ClearWindowValid | tracker/views.py:562-582 | clearing the window keeps slugs unique |
| UpdateProperties.ClearWindowFrame | tracker/views.py:562-582 | clearing changes no count, touches only the member's window, and nothing on the month's last day |
| UpdateProperties.ClearWindowRows | tracker/views.py:562-582 | every cleared date's rows are placeholders |
| UpdateProperties.FillWindowUpdateValid | tracker/views.py:583-609 | the update view's auto loop keeps slugs unique |
| UpdateProperties.FillStepFrame | tracker/views.py:586-607 | one step of the loop touches only that day of the member |
| UpdateProperties.FillWindowUpdateFrame | tracker/views.py:583-609 | the loop touches only the member's days from d on |
| UpdateProperties.FillStepRows | tracker/views.py:586-607 | one step leaves that day with auto rows only, and at least one |
| UpdateProperties.FillWindowUpdateRows | tracker/views.py:583-609 | after the loop every day from d to month end holds auto rows only, and at least one |
| UpdateProperties.FillWindowUpdateOnePerDay | tracker/views.py:583-609 | the loop keeps one row per member and day |
| UpdateProperties.AdjustWindowValid | tracker/views.py:562-609 | adjusting the window keeps slugs unique |
| UpdateProperties.ClearDateInWindow | tracker/views.py:562-582 | each cleared date lies in the window day+2..month end |
| UpdateProperties.FillCollapseFrame | tracker/views.py:583-609 | filling and collapsing touch only the member's window |
| UpdateProperties.AdjustWindowFrame | tracker/views.py:562-609 | adjusting touches only the member's window days |
| UpdateProperties.DropEarliestOnePerDay | tracker/views.py:560-561 | the delete keeps one row per member and day |
| UpdateProperties.AdjustWindowOnePerDay | tracker/views.py:562-609 | adjusting keeps one row per member and day |
| UpdateProperties.SaveTodayValid | tracker/views.py:535-536 | saving today's row keeps slugs unique |
| UpdateProperties.SaveTodayFrame | tracker/views.py:535-536 | saving changes only the loaded row, which then holds the posted values |
| UpdateProperties.LoadedRowSurvives | tracker/views.py:530-609 | the row the form loaded survives the tomorrow and window writes, and today's rows are untouched |
| UpdateProperties.UpdateWritesToday | tracker/views.py:530-613 | update saves the posted values into today's loaded row, keeps today's count and leaves other members untouched |
| UpdateProperties.UpdateWritesTomorrow | tracker/views.py:537-561 | update leaves tomorrow with rows carrying the posted next-day count |
| UpdateProperties.CollapseKeepsAutoDay | tracker/views.py:608-609 | the duplicate delete keeps an auto-filled day auto-filled |
| UpdateProperties.UpdateWritesFilled | tracker/views.py:583-609 | with auto entry on, every day from day+2 to month end ends with auto rows |
| UpdateProperties.UpdateWritesCleared | tracker/views.py:562-582 | with auto entry off, every cleared date holds only placeholders |
| UpdateProperties.UpdateWritesOnePerDay | tracker/views.py:530-613 | the update keeps one row per member and day |
| UpdateProperties.UpdateEntryKeeps | tracker/views.py:495-636 | update keeps others' rows; maintenance or no row today leaves the table unchanged |
| UpdateProperties.UpdateEntryTodayTomorrow | tracker/views.py:530-561 | a successful update writes the loaded row and tomorrow's rows with the decided auto settings |
| UpdateProperties.UpdateEntryWindow | tracker/views.py:562-609 | auto on: the window is filled; auto off and not the last day: cleared dates hold placeholders |
| MealRequests.MealOwner | tracker/views.py:891-905 | a meal with the slug has an owner exactly when it exists |
| MealRequests.DenyRequest | tracker/views.py:1208-1244 | the deny view as written keeps the meals, leaves no request for the meal and keeps every other request; with no request for the meal nothing changes |
| MealRequests.ReplyWithoutMeal | tracker/views.py:1217-1244 | with the meal's row gone, the deny view never adds a notification: the `meal_update` note goes, an earlier reject note is counted up, and a new one is not created because the view raises first |
| RequestProperties.FilterKeepsOnePerSlug | tracker/views.py:938-940 | deleting requests keeps one request per meal |
| RequestProperties.ReplaceForSlug | tracker/views.py:938-942 | after replacement the meal has exactly the new request |
| RequestProperties.BumpRedirects | tracker/views.py:951-958 | a repeated request notification is redirected to the new approver |
| RequestProperties.RequestEffect | tracker/views.py:931-976 | refused: nothing changes; accepted: the meal's one request is the new one, others are kept and the approver is notified; one request per meal is kept |
| RequestProperties.ReplyEffect | tracker/views.py:1139-1164 | the reply removes the requester's notification and leaves a reply to the requester |
| RequestProperties.ConfirmEffect | tracker/views.py:1122-1192 | with a request to the actor the meal count becomes the latest requested count and the actor its confirmer, and the actor's requests for the meal go; otherwise nothing changes |
| RequestProperties.RequestThenConfirm | tracker/views.py:931-1192 | a request confirmed by its approver leaves the meal with the requested count and no pending request |
| RequestProperties.DenyEffect | tracker/views.py:1212-1216 | as written, deny deletes every request for the meal and changes no meal |
| RequestProperties.AnyoneCanDeny | tracker/views.py:1208-1216 | a member of another room with no request addressed to them deletes the request |
| RequestProperties.DenyByApproverOnly | tracker/views.py:1208-1216 | corrected: only the approver's deny changes anything, and then it deletes the meal's requests |
| RequestProperties.CancelEffect | tracker/views.py:1036-1051 | cancel deletes exactly the actor's own requests for the meal and changes no meal |
| MealLedger.MealBook.constructor | tracker/views.py:281-414 | the book starts with no meals, requests or notifications |
| MealLedger.MealBook.DropEarliestOf | tracker/views.py:560-561 | the meals become `DropEarliest` of the old ones |
| MealLedger.MealBook.FillCreateWindow | tracker/views.py:346-358 | the loop appends exactly `FillWindowCreate` of the old table |
| MealLedger.MealBook.Create | tracker/views.py:285-382 | accepted iff not the maintenance minute and no row today; the table becomes `CreateEntry` of the old one |
| MealLedger.MealBook.BackfillMonth | tracker/views.py:384-414 | the loop over members and days gives exactly `Backfill` of the old table |
| MealLedger.MealBook.CreateView | tracker/views.py:285-414 | the form then the backfill: accepted as for `Create`, table `CreatePost` of the old one |
| MealLedger.MealBook.FillUpdateWindow | tracker/views.py:583-609 | the loop gives exactly `FillWindowUpdate` of the old table |
| MealLedger.MealBook.WriteTomorrowRows | tracker/views.py:537-561 | the meals become `WriteTomorrow` of the old ones |
| MealLedger.MealBook.AdjustWindowRows | tracker/views.py:562-609 | the meals become `AdjustWindow` of the old ones |
| MealLedger.MealBook.Update | tracker/views.py:495-636 | accepted iff not the maintenance minute and a row exists today; the table becomes `UpdateEntry` of the old one |
| MealLedger.MealBook.UpdateView | tracker/views.py:495-670 | the form then the next month's backfill on the last day: table `UpdatePost` of the old one |
| MealLedger.MealBook.AdminUpdate | tracker/views.py:741-788 | accepted iff not the maintenance minute; table `AdminOverride` of the old one |
| MealLedger.MealBook.AdminView | tracker/views.py:741-850 | the form then the backfill confirmed by the manager: table `AdminPost` of the old one |
| MealLedger.MealBook.AdminDispatch | tracker/views.py:852-877 | the manager test passes iff the actor is role 2 in the owner's room, the meal is dated today and is not the actor's; a failure is recorded as suspicious; on success the view runs and the owner is notified |
| MealLedger.MealBook.Request | tracker/views.py:931-976 | accepted iff the actor owns the meal and the approver is a valid choice; the desk becomes `RequestChange` of the old one |
| MealLedger.MealBook.RequestDispatch | tracker/views.py:891-929 | only the meal's owner gets through, and any other user is recorded as suspicious; the owner's request then runs as `Request` |
| MealLedger.MealBook.Confirm | tracker/views.py:1122-1192 | accepted iff a request for the meal is addressed to the actor and the meal exists; the desk becomes `ConfirmRequest` of the old one |
| MealLedger.MealBook.Deny | tracker/views.py:1208-1253 | corrected deny: accepted iff a request for the meal is addressed to the actor; the desk becomes `DenyByApprover` of the old one |
| MealLedger.MealBook.Cancel | tracker/views.py:1027-1087 | accepted iff the actor has a request for the meal; the desk becomes `CancelRequest` of the old one |
| Directory.CreateRoomGate | rooms/views.py:38-60 | refusal in order: already created a room, then already a member, then a pending request; allowed iff none holds |
| Directory.JoinGate | memberships/views.py:94-108 | refusal in order: 15 or more members, then a pending request, then already a member; allowed iff none holds |
| Directory.PromotionGate | memberships/views.py:45-61 | refused iff a non-maintainer is made a maintainer while the room already has 6 or more; a change from a maintainer role is never checked |
| Directory.RoomWithSlug | rooms/views.py:201-202 | the room with the slug, or none exactly when no room has it |
| Directory.RoomWithId | rooms/views.py:245-262 | the room with the id, or none exactly when no room has it |
| Directory.RequestWithSlug | memberships/views.py:140-148 | the join request with the slug, or none exactly when none has it |
| Directory.RemoveJoinNotes | memberships/views.py:191-202 | the user's `join_room` notifications are deleted and every other one is kept |
| Directory.SetRoleCount | memberships/views.py:45-61 | a role change moves one membership between counts and changes no other |
| Directory.FilterKeepsMemberKeys | memberships/models.py:17-25 | deleting memberships keeps slugs unique and one membership per user |
| Directory.FilterKeepsOneRequest | memberships/models.py:38-40 | deleting join requests keeps one per user |
| Directory.ShoppingTypeAppend | rooms/models.py:99-102 | a new room's setting gives it the stored shopping type |
| Directory.AdmitKeeps | memberships/views.py:149-162 | adding a member within the caps keeps the keys and caps, and the new row is the user's membership |
| Directory.AdmitKeepsRequests | memberships/views.py:149-162 | adding a member without a request keeps members and requesters apart |
| Directory.FilterKeepsCaps | rooms/views.py:220-236 | deleting memberships keeps the keys and the caps |
| Directory.SetRoleKeeps | memberships/views.py:45-61 | a role change allowed by the promotion gate keeps the keys and both caps |
| Directory.ConfirmKeepsRequests | memberships/views.py:149-162 | confirming removes the new member's requests, so members and requesters stay apart |
| Directory.DeleteKeepsRequests | rooms/views.py:220-236 | deleting members and requests keeps them apart |
| Directory.Registry.constructor | rooms/models.py:42-60 | the registry starts empty and valid |
| Directory.Registry.CreateRoom | rooms/views.py:38-65 | created iff the title and description fields pass and the gate allows; the room is active and public, its creator is the user, its slug starts with the lower-cased title and '-', its setting has type 0, the creator is its manager and gets a `TotalHolder` and a zero deposit row per deposit field of the room; refused, no row changes; fields, cost rows and the field counter are never touched |
| Directory.Registry.AddRoom | memberships/models.py:59-64 | the room, its type-0 setting and the creator's manager membership are added |
| Directory.Registry.RequestJoin | memberships/views.py:90-137 | unknown room or a closed gate refuses with the gate's reason; otherwise the request is stored and the join notification sent or bumped |
| Directory.Registry.ConfirmRequest | memberships/views.py:140-185 | done iff the request exists and the room has fewer than 15 members; a member row is added, the user's requests and join notifications go, a `TotalHolder` is created, cost rows are seeded and a zero deposit row is added per deposit field of the room; refused, no row changes; fields and the field counter are never touched |
| Directory.Registry.Admit | memberships/views.py:149-162 | the membership is added and the user's requests and join notifications removed |
| Directory.Registry.DeleteRequest | memberships/views.py:188-207 | done iff the request exists; it and the user's join notifications are deleted |
| Directory.Registry.UpdateMember | memberships/views.py:45-87 | a manager of the target's room passes, and anyone else is recorded as suspicious; the role changes iff the promotion gate allows |
| Directory.Registry.DeleteRoom | rooms/views.py:204-236 | only the creator deletes, and anyone else is recorded as suspicious; the room, its members, requests and setting go, with its join notifications |
| Directory.Registry.UpdateRoom | rooms/views.py:92-113 | only the creator updates, and anyone else is recorded as suspicious; done iff the corrected title and the description pass; the room's title, privacy and description become the posted ones |
| Directory.Registry.ChangeShoppingType | rooms/views.py:245-296 | done iff the actor is the creator of the room with the setting and the choice is 0 or 1; the room's settings take the new type |
| Directory.MayChangeMember | memberships/views.py:63-69 | the member update view admits only a manager whose room holds the target; with one membership per user, exactly those managers |

## Left out

- Django plumbing is not modelled: HTTP, redirects, `messages`, templates, pagination and context data. So are the migrations and the admin.
- Notification message texts are not modelled. Timestamps (`updated_at`, `last_attempt`) are not modelled either. The model keeps only the de-duplicating counter.
- The clock and the slug suffixes are parameters. `datetime.now`, `time.strftime`, `calendar.monthrange` and `time_str_mix_slug` are not part of this model.
- The initial value of a new `Suspicious` record is a parameter of `SuspiciousLog`. Its default is set in suspicious/models.py (imported at rooms/views.py:15), which is not part of this model.
- Concurrency is not modelled; requests are handled one at a time.
- In the source, a missing object makes a view raise: a user without a membership, a meal or membership slug that does not exist, or a `.get()` that matches no row. The model turns each such crash into a refusal that changes nothing. Writes the source makes before it raises are not modelled either. In particular, when a request is addressed to the actor but its meal no longer exists, the confirm view first deletes the meal's `meal_update` notifications (tracker/views.py:1109-1112), the requests (1133) and the request notification (1141), and only then raises (1163). Those deletions persist, since requests are not atomic. `MealLedger.MealBook.Confirm` refuses this case and changes nothing.
- The `post` backfill of the create, update and admin views runs even when the form was refused. The model keeps this behaviour (`CreatePost`, `UpdatePost`, `AdminPost`).
- MealLedger.MealBook.Update: requires `ValidClock`, a real calendar date and month length, which `datetime.now` always supplies.
- MealLedger.MealBook.UpdateView: requires `ValidClock`, for the same reason.
- In `MealCreateView.form_valid`, the delete of a duplicate of today's row (`len(...) >= 2`) can never run: that branch is only reached when the member has no row today. The model does not include it.
- Allocation.AssignCosts: a posted title that names a field only in another room makes the source's `.get(title, room)` raise. The model skips that entry.
- Allocation.AssignDeposits: the same as for `AssignCosts`.
- Directory.Registry.UpdateMember: an actor without a membership makes the source raise. The contract only states that the call is refused.
- Directory.Registry.DeleteRoom: tracker rows of the deleted room (meals, costs, deposits) cascade in the database. The ledgers are separate classes, so the model does not delete those rows.
- Directory.Registry.DeleteRoom: the source's `get_success_url` (rooms/views.py:204-209) deletes every notification whose `room_identifier` is the room's slug. That includes the meal notifications in `MealLedger.MealBook.notes`: update, confirm, deny and admin-override notes, which record the room slug at tracker/views.py:778, 966, 1161 and 1242. The model deletes only the join notifications kept in `Registry.notes`, and leaves the meal notifications in place.
- The trailing class-attribute test of `post_save_membership_create` (memberships/models.py:65-68) does nothing. The same holds for its second `get_or_create(user=user)`, which finds the row just created.
- The confirm view's suspicious branch (tracker/views.py:1174-1187) cannot be reached. The `user.membership` it reads either raises or exists, so the model leaves the branch out.
- The create view's suspicious branch (tracker/views.py:364-377) cannot be reached either. It runs when `Membership.objects.filter(user=user, room=user.membership.room)` is empty, and that filter always finds the user's own membership. The model leaves the branch out.
- The cancel view's suspicious branch (tracker/views.py:1068-1080) cannot be reached. The membership check at 1043-1046 filters by the room of a request the user made, which is the user's own room. When the user has no such request, the view raises before the check. The model leaves the branch out.
- Rooms.Search: `EqualsIgnoreCase` and `ContainsIgnoreCase` fold ASCII letters only. The database collation behind `__icontains` (rooms/models.py:19-27) also folds other letters, so a query "é" finds "É" in the source and not in the model.
- Profiles are assumed present. A missing `UserProfile` only skips sending a notification, and the model always sends it.
- `member_request_delete_all` and `member_delete` are not part of this model.
- The shopping, deposit and chart views are modelled only through their access tests (`Permissions`) and their validators.
- Row order among ties is an assumption. The querysets are ordered by `Meta.ordering`: meals by `-member__created_at` (tracker/models.py:37), settings by `-room__created_at` (rooms/models.py:94), notifications by `updated_at`. Within one member's or one room's rows these keys tie, and the database may return tied rows in any order. The model reads `.first()` and `.last()` in insertion (primary-key) order. This matters wherever a member has several rows for one date, for example after the backfill and update paths that `DropEarliest` cleans up. `MealTable.FirstIndex`, `MealTable.LastIndex`, `MealTable.LastFor`, `UpdateProperties.DropEarliestRows`, `Notifications.FirstMatch`, `Rooms.ShoppingTypeOf` and `Tags.MealSlugTag` rest on it.
- MealLedger.MealBook.Create: meal counts are not bounded above. The source's `max_digits=4` (at most 99.99, tracker/models.py:18-25) refuses larger values in the form, and the model accepts them.
- MealLedger.MealBook.Update: the same missing `max_digits=4` bound on the posted counts and the auto-entry value.
- MealLedger.MealBook.AdminUpdate: the same missing bound on the overriding count.
- MealLedger.MealBook.Request: the same missing bound on the requested count (`meal_should_be`, tracker/models.py:52).
- Allocation.Ledger.AssignCostForm: posted costs are not bounded above. The form field's `max_digits=7` (at most 99999.99, tracker/forms.py:148) refuses larger values, and the model accepts them.
- Allocation.Ledger.AssignDepositForm: the same missing `max_digits=7` bound (tracker/forms.py:592).
- Allocation.UpsertDepositAsWritten: when two or more older rows match member, field and amount, the source's `get_or_create` raises and the rest of the loop does not run. The as-written function treats that case like a single match.
- The `TotalHolder` getters other than `get_total_meal` are given as written. Each returns an `Option`, and lemmas relate that value to the NULL-as-zero sum.

## Findings

| source | as written | input that shows it | evidently intended | confidence | as-written member | corrected member |
|---|---|---|---|---|---|---|
| tracker/models.py:258-266 | `get_total_meal` returns the SQL `Sum` when rows exist, which is NULL when every `meal_today` is NULL | a member whose only row this month is a backfill placeholder (`meal_today` NULL), on 3 January | the documented total, 0 when nothing was eaten | not executed | Totals.TotalMealNullOnPlaceholders | Totals.TotalMealOrZero |
| rooms/forms.py:52-66 | `RoomUpdateForm.clean_title` skips the duplicate test only for the identical title, so the room's own title counts as taken | renaming room "Home" to "HOME" | only other rooms' titles are duplicates | not executed | RoomForms.CaseOnlyRenameRefused | RoomForms.CaseOnlyRenameAccepted |
| tracker/forms.py:633-645 | `AssignCashDepositToMemberForm.save` updates a row of the current month when there is one; otherwise it calls `get_or_create` on member, field and amount with no month in the lookup | a January row of 500.00 for the field, then 500.00 posted in February: the January row is found, nothing is created, and February's deposit total leaves it out | the month-scoped fallback: a row for the current month is created | not executed | Allocation.UpsertDepositAsWritten, Allocation.RecurringDepositLost | Allocation.UpsertDeposit, Allocation.DepositRecordedThisMonth |
| tracker/views.py:1208-1216 | `meal_update_request_deny` deletes every request for the meal whoever calls it | a member of another room, to whom no request was made, denies request 7 | only the approver may deny, as in the confirm view | not executed | RequestProperties.AnyoneCanDeny | RequestProperties.DenyByApproverOnly |
