/** Donor registration, lookup and update, and the coupon allocator: the
    next code is the stored maximum, parsed, plus one, in "D4" form. The
    database is the `Store`; the clock, the new key and date parsing are
    parameters. */
module DonorService {
  import opened Wrappers
  import opened DotNetText
  import opened Entities
  import opened Database
  import opened DonorRepository
  import opened CouponAllocator
  import ScreeningRepository

  const DuplicateNationalIdMessage: string := "A donor with this National ID already exists."
  const InvalidDobMessage: string := "Invalid date of birth format"

  datatype CreateDonorRequest = CreateDonorRequest(
    fullName: string,
    dob: string,
    gender: string,
    phone: string,
    email: string,
    nationalId: string,
    address: Address)

  datatype UpdateDonorRequest = UpdateDonorRequest(
    fullName: string,
    phone: string,
    email: string,
    address: Address)

  // ---------------------------------------------------------------------
  // The service's operations on the store

  /** `GetNextCouponCodeAsync`: reads the table and changes nothing, so
      calls with no registration in between agree. The code it returns is
      the allocator's, and it matches no stored code unless some stored
      code is `int.MaxValue`. */
  method GetNextCouponCode(db: Store) returns (code: string)
    ensures Ok(code) == AllocatedCode(CouponCodes(db.donors))
    ensures BelowInt32Max(CouponCodes(db.donors)) ==>
              forall c :: c in CouponCodes(db.donors) ==> !SameCouponIgnoringCase(c, code)
  {
    var codes := CouponCodes(db.donors);
    var maxCode := GetMaxCouponCode(codes);
    AllocatedCodeIsOk(codes);
    var next := NextCouponCode(maxCode);
    code := next.value;
    if BelowInt32Max(codes) {
      AllocatedCodeIsFresh(codes);
    }
  }

  /** `CreateDonorAsync`: rejects a national ID already stored (exact match
      on the raw request value) and an unparsable date of birth, in that
      order; then allocates the next coupon code and saves a donor with
      trimmed name, phone, e-mail and national ID, lower-cased gender and
      equal creation and update times. Saving fails, changing nothing, if
      the row breaks a key or unique index. */
  method CreateDonor(
    db: Store, request: CreateDonorRequest, tryParseDate: string -> Option<DateTime>,
    newId: Guid, now: DateTime)
    returns (r: Result<Donor, Error>)
    requires db.Valid()
    modifies db`donors
    ensures db.Valid()
    ensures r.Err? ==> db.donors == old(db.donors)
    ensures ExistsByNationalId(old(db.donors), request.nationalId) ==>
              r == Err(InvalidOperation(DuplicateNationalIdMessage))
    ensures !ExistsByNationalId(old(db.donors), request.nationalId) && tryParseDate(request.dob).None? ==>
              r == Err(Argument(InvalidDobMessage))
    ensures r.Ok? ==>
              && !ExistsByNationalId(old(db.donors), request.nationalId)
              && tryParseDate(request.dob).Some?
              && db.donors == old(db.donors) + [r.value]
              && r.value.donorId == newId
              && r.value.fullName == Trim(request.fullName)
              && r.value.dateOfBirth == tryParseDate(request.dob).value
              && r.value.gender == ToLower(request.gender)
              && r.value.phone == Trim(request.phone)
              && r.value.email == Trim(request.email)
              && r.value.nationalId == Trim(request.nationalId)
              && r.value.address == request.address
              && Ok(r.value.couponCode) == AllocatedCode(CouponCodes(old(db.donors)))
              && r.value.createdAt == now && r.value.updatedAt == now
              && r.value.lastDonationDate == None
    ensures r == Err(DbUpdate) && BelowInt32Max(CouponCodes(old(db.donors))) ==>
              HasDonor(old(db.donors), newId) || ExistsByNationalId(old(db.donors), Trim(request.nationalId))
    ensures && !ExistsByNationalId(old(db.donors), request.nationalId)
            && tryParseDate(request.dob).Some?
            && !HasDonor(old(db.donors), newId)
            && !ExistsByNationalId(old(db.donors), Trim(request.nationalId))
            && BelowInt32Max(CouponCodes(old(db.donors)))
            ==> r.Ok?
  {
    if ExistsByNationalId(db.donors, request.nationalId) {
      return Err(InvalidOperation(DuplicateNationalIdMessage));
    }
    var dob := tryParseDate(request.dob);
    if dob.None? {
      return Err(Argument(InvalidDobMessage));
    }
    // `ExistsByPhoneAndDob` never reports a duplicate, so the phone and
    // date-of-birth check never throws.
    assert !ExistsByPhoneAndDob(request.phone, dob.value);

    var couponCode := GetNextCouponCode(db);
    var donor := Donor(
      newId, Trim(request.fullName), dob.value, ToLower(request.gender),
      Trim(request.phone), Trim(request.email), Trim(request.nationalId),
      request.address, couponCode, now, now, None);

    if BelowInt32Max(CouponCodes(db.donors)) {
      FreshCodeInsertable(db.donors, donor);
    }
    r := db.InsertDonor(donor);
  }

  /** A row whose coupon code matches no stored code can be saved exactly
      when its key and national ID are new. */
  lemma FreshCodeInsertable(donors: seq<Donor>, d: Donor)
    requires forall c :: c in CouponCodes(donors) ==> !SameCouponIgnoringCase(c, d.couponCode)
    ensures CanInsertDonor(donors, d) <==>
              !HasDonor(donors, d.donorId) && !ExistsByNationalId(donors, d.nationalId)
  {
    forall e | e in donors ensures e.couponCode != d.couponCode {
      var i :| 0 <= i < |donors| && donors[i] == e;
      assert CouponCodes(donors)[i] in CouponCodes(donors);
    }
  }

  /** `GetDonorByIdAsync`: the donor with that key, or `KeyNotFound`. */
  method GetDonorById(db: Store, id: Guid) returns (r: Result<Donor, Error>)
    ensures r.Ok? <==> HasDonor(db.donors, id)
    ensures r.Ok? ==> r.value in db.donors && r.value.donorId == id
    ensures r.Err? ==> r.error == KeyNotFound(DonorEntity, id)
  {
    var i := FindDonor(db.donors, id);
    if i.None? {
      return Err(KeyNotFound(DonorEntity, id));
    }
    r := Ok(db.donors[i.value]);
  }

  /** `GetDonorByCouponCodeAsync`: the first donor whose code matches
      ignoring case, or null (`None`) rather than an exception. */
  method GetDonorByCouponCode(db: Store, couponCode: string) returns (r: Option<Donor>)
    ensures r.None? <==> !ExistsByCouponCode(db.donors, couponCode)
    ensures r.Some? ==> r.value in db.donors && SameCouponIgnoringCase(r.value.couponCode, couponCode)
  {
    ExistsIffFound(db.donors, couponCode);
    r := GetByCouponCode(db.donors, couponCode);
  }

  /** `UpdateDonorAsync`: `KeyNotFound` for an unknown key, changing
      nothing; otherwise replaces the trimmed name, phone and e-mail, the
      address and the update time of that one donor and keeps everything
      else, the coupon code included. */
  method UpdateDonor(db: Store, id: Guid, request: UpdateDonorRequest, now: DateTime)
    returns (r: Result<Donor, Error>)
    requires db.Valid()
    modifies db`donors
    ensures db.Valid()
    ensures !HasDonor(old(db.donors), id) ==>
              r == Err(KeyNotFound(DonorEntity, id)) && db.donors == old(db.donors)
    ensures HasDonor(old(db.donors), id) ==>
              var i := FindDonor(old(db.donors), id).value;
              var before := old(db.donors)[i];
              && r.Ok?
              && db.donors == old(db.donors)[i := r.value]
              && r.value.fullName == Trim(request.fullName)
              && r.value.phone == Trim(request.phone)
              && r.value.email == Trim(request.email)
              && r.value.address == request.address
              && r.value.updatedAt == now
              && r.value.donorId == before.donorId
              && r.value.nationalId == before.nationalId
              && r.value.gender == before.gender
              && r.value.couponCode == before.couponCode
              && r.value.dateOfBirth == before.dateOfBirth
              && r.value.createdAt == before.createdAt
              && r.value.lastDonationDate == before.lastDonationDate
  {
    var i := FindDonor(db.donors, id);
    if i.None? {
      return Err(KeyNotFound(DonorEntity, id));
    }
    var donor := db.donors[i.value].(
      fullName := Trim(request.fullName),
      phone := Trim(request.phone),
      email := Trim(request.email),
      address := request.address,
      updatedAt := now);
    ReplaceDonorKeepsConstraints(
      db.donors, db.branches, db.deferralReasons, db.screenings, i.value, donor);
    db.donors := db.donors[i.value := donor];
    r := Ok(donor);
  }

  /** `GetDonorScreeningsAsync`: `KeyNotFound` for an unknown donor,
      otherwise exactly that donor's screenings, newest first. */
  method GetDonorScreenings(db: Store, id: Guid) returns (r: Result<seq<Screening>, Error>)
    ensures r.Err? <==> !HasDonor(db.donors, id)
    ensures r.Err? ==> r.error == KeyNotFound(DonorEntity, id)
    ensures r.Ok? ==> ScreeningRepository.NewestFirst(r.value)
    ensures r.Ok? ==> multiset(r.value) == multiset(ScreeningRepository.ScreeningsOf(db.screenings, id))
    ensures r.Ok? ==> forall s :: s in r.value <==> s in db.screenings && s.donorId == id
  {
    if FindDonor(db.donors, id).None? {
      return Err(KeyNotFound(DonorEntity, id));
    }
    r := Ok(ScreeningRepository.GetByDonorId(db.screenings, id));
  }
}
