/**
 * The row shape of the `enrollments` table. Only the columns the ambassador
 * workflow reads or writes are kept; the business and subscriber columns are
 * not part of this model.
 */
module Schema {
  import opened Wrappers

  /** The `type` column. */
  datatype EnrollmentType = Ambassador | Business | Subscriber

  /** The `status` column. */
  datatype Status = Pending | Approved | Rejected

  /**
   * One stored enrollment. `id` and `createdAt` are assigned by the store;
   * `phone` and `church` may be absent.
   */
  datatype Row = Row(
    id: nat,
    createdAt: string,
    kind: EnrollmentType,
    firstName: string,
    lastName: string,
    email: string,
    phone: Option<string>,
    church: Option<string>,
    status: Status,
    commitmentsAccepted: bool,
    commitments: seq<string>)
}
