/** The records the services read and write: donors (with their owned
    address), screenings (with their owned vitals), and the exceptions the
    services raise, as values. Keys and timestamps are opaque. */
module Entities {
  import opened Wrappers

  /** A `Guid` key; only equality matters. */
  type Guid = nat

  /** A `DateTime`, as a tick count; only equality and order matter. */
  type DateTime = int

  datatype Address = Address(
    line1: string,
    city: string,
    province: string,
    country: string,
    postalCode: string)

  /** The donor columns the donor service sets. `dateOfBirth` follows the
      service, which still writes a date of birth. */
  datatype Donor = Donor(
    donorId: Guid,
    fullName: string,
    dateOfBirth: DateTime,
    gender: string,
    phone: string,
    email: string,
    nationalId: string,
    address: Address,
    couponCode: string,
    createdAt: DateTime,
    updatedAt: DateTime,
    lastDonationDate: Option<DateTime>)

  /** Vital signs are carried unchanged; the decimal ones are opaque reals. */
  datatype Vitals = Vitals(
    bpSystolic: int,
    bpDiastolic: int,
    pulse: int,
    tempC: real,
    weightKg: real,
    hbGdl: real)

  datatype Screening = Screening(
    screeningId: Guid,
    donorId: Guid,
    branchId: Guid,
    staffId: string,
    vitals: Vitals,
    notes: string,
    eligibilityStatus: string,
    deferralReasonId: Option<Guid>,
    deferralUntil: Option<DateTime>,
    createdAt: DateTime)

  datatype EntityKind = DonorEntity | BranchEntity | DeferralReasonEntity

  /** The exceptions the services throw, as values:
      `InvalidOperationException`, `ArgumentException`,
      `KeyNotFoundException`, `FormatException` and `OverflowException`
      from `int.Parse`, and the
      `DbUpdateException` a violated database constraint raises from
      `SaveChangesAsync`. */
  datatype Error =
    | InvalidOperation(message: string)
    | Argument(message: string)
    | KeyNotFound(entity: EntityKind, id: Guid)
    | Format(text: string)
    | Overflow(text: string)
    | DbUpdate
}
