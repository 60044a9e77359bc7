/**
 * The `Customer` entity (one row of the `customer` table) and its projection
 * to the transport record `CustomerDTO`.
 */
module CustomerEntity {
  import opened Wrappers

  /** Row identifier, assigned by the store on insertion. */
  type Id = nat

  /** An instant; the wall clock is passed in by the caller. */
  type Time = nat

  /** The two lifecycle states of a customer. */
  datatype CustomerStatus = ACTIVE | REMOVED

  /**
   * One stored customer. The created time and the status are always set;
   * the updated time is absent until the first update or removal.
   */
  datatype Customer = Customer(
    id: Id,
    name: string,
    phone: string,
    status: CustomerStatus,
    createdTime: Time,
    updatedTime: Option<Time>)

  /** The external representation: status as text, updated time absent until set. */
  datatype CustomerDto = CustomerDto(
    id: Id,
    name: string,
    phone: string,
    status: string,
    createdTime: Time,
    updatedTime: Option<Time>)

  /** The name of an enum constant, as Java's `Enum.name()` gives it. */
  function StatusName(s: CustomerStatus): string {
    match s
    case ACTIVE => "ACTIVE"
    case REMOVED => "REMOVED"
  }

  /** Different statuses have different names, so comparing names compares statuses. */
  lemma StatusNameInjective(a: CustomerStatus, b: CustomerStatus)
    ensures StatusName(a) == StatusName(b) <==> a == b
  {
  }

  /** Projects a stored customer to its external representation. */
  function ToDto(c: Customer): (d: CustomerDto)
    ensures d.id == c.id && d.name == c.name && d.phone == c.phone
    ensures d.status == StatusName(c.status)
    ensures d.createdTime == c.createdTime
    ensures d.updatedTime.None? <==> c.updatedTime.None?
  {
    CustomerDto(c.id, c.name, c.phone, StatusName(c.status), c.createdTime, c.updatedTime)
  }

  /** The projection loses nothing: different customers have different representations. */
  lemma ToDtoInjective(a: Customer, b: Customer)
    ensures ToDto(a) == ToDto(b) ==> a == b
  {
    if ToDto(a) == ToDto(b) {
      StatusNameInjective(a.status, b.status);
    }
  }
}
