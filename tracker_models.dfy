/** The rows of tracker/models.py other than the meal ledger: cost sectors and
  * their per-member costs, shopping entries, and cash-deposit fields and
  * their per-member amounts. */
module TrackerModels {
  import opened Common
  import opened Rooms
  import opened Memberships

  /** The slug of a cost sector or a deposit field. */
  type FieldId = nat

  /** `TrackerField`: a cost sector of a room. */
  datatype CostField = CostField(id: FieldId, title: string, room: RoomId, description: Option<string>)

  /** `MemberTrack`: a member's cost for one sector; the column is nullable. */
  datatype CostRow = CostRow(field: FieldId, member: MemberId, cost: Option<Amount>)

  /** `Shopping.shop_type`: 0 individual, 1 managerial. */
  datatype ShopType = Individual | Managerial

  datatype Shopping = Shopping(createdBy: MemberId, item: string, quantity: Option<Amount>,
                               unit: Option<string>, cost: Amount, shopType: ShopType, date: Date)

  /** `CashDepositField`. */
  datatype DepositField = DepositField(id: FieldId, title: string, room: RoomId, description: Option<string>)

  /** `CashDepositMember`: a member's deposit for one field, stamped with the
    * month and year of its creation (`created_at`). */
  datatype DepositRow = DepositRow(field: FieldId, member: MemberId, amount: Option<Amount>,
                                   createdYear: int, createdMonth: int)

  /** `TrackerField.objects.filter(room=room)`. */
  function CostFieldsOf(fields: seq<CostField>, room: RoomId): (r: seq<CostField>)
    ensures forall f :: f in r <==> f in fields && f.room == room
  {
    Filter(fields, (f: CostField) => f.room == room)
  }

  /** `CashDepositField.objects.filter(room=room)`. */
  function DepositFieldsOf(fields: seq<DepositField>, room: RoomId): (r: seq<DepositField>)
    ensures forall f :: f in r <==> f in fields && f.room == room
  {
    Filter(fields, (f: DepositField) => f.room == room)
  }
}
