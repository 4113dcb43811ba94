/** Recording a screening and listing a donor's screenings. The service
    checks that the donor and branch exist and, for a request marked
    exactly "deferred", that the deferral reason exists; it then adds the
    screening and, when the stored status is "eligible", stamps the donor's
    last donation date, saving both in one `SaveChangesAsync`. The new key,
    the clock readings and date parsing are parameters. */
module ScreeningService {
  import opened Wrappers
  import opened DotNetText
  import opened Entities
  import opened Database
  import ScreeningRepository

  const DeferredStatus: string := "deferred"
  const EligibleStatus: string := "eligible"

  /** `CreateScreeningRequest`; a null `DeferralUntil` is `None`. */
  datatype CreateScreeningRequest = CreateScreeningRequest(
    donorId: Guid,
    branchId: Guid,
    staffId: string,
    vitals: Vitals,
    notes: string,
    eligibilityStatus: string,
    deferralReasonId: Option<Guid>,
    deferralUntil: Option<string>)

  /** The deferral date: set only from a non-empty text that parses. */
  function DeferralUntil(text: Option<string>, tryParseDate: string -> Option<DateTime>)
    : (r: Option<DateTime>)
    ensures r.Some? <==> text.Some? && text.value != [] && tryParseDate(text.value).Some?
    ensures r.Some? ==> r.value == tryParseDate(text.value).value
  {
    if text.Some? && text.value != [] then tryParseDate(text.value) else None
  }

  /** The row the service builds from a request: trimmed notes, lower-cased
      status, the request's reason key as given. */
  function NewScreening(
    request: CreateScreeningRequest, tryParseDate: string -> Option<DateTime>,
    newId: Guid, createdAt: DateTime): Screening
  {
    Screening(
      newId, request.donorId, request.branchId, request.staffId, request.vitals,
      Trim(request.notes), ToLower(request.eligibilityStatus), request.deferralReasonId,
      DeferralUntil(request.deferralUntil, tryParseDate), createdAt)
  }

  /** The deferral-reason check fires only for the exact status "deferred"
      with a reason key that names no reason. */
  predicate UnknownDeferralReason(request: CreateScreeningRequest, reasons: set<Guid>) {
    request.eligibilityStatus == DeferredStatus
    && request.deferralReasonId.Some? && request.deferralReasonId.value !in reasons
  }

  /** `CreateScreeningAsync`. The three existence checks run in order and
      each failure changes nothing. A save that breaks a constraint fails
      as a whole: neither the screening nor the donor update is kept. */
  method CreateScreening(
    db: Store, request: CreateScreeningRequest, tryParseDate: string -> Option<DateTime>,
    newId: Guid, createdAt: DateTime, donorUpdatedAt: DateTime)
    returns (r: Result<Screening, Error>)
    requires db.Valid()
    modifies db`donors, db`screenings
    ensures db.Valid()
    ensures r.Err? ==> db.donors == old(db.donors) && db.screenings == old(db.screenings)
    ensures !HasDonor(old(db.donors), request.donorId) ==>
              r == Err(KeyNotFound(DonorEntity, request.donorId))
    ensures HasDonor(old(db.donors), request.donorId) && request.branchId !in db.branches ==>
              r == Err(KeyNotFound(BranchEntity, request.branchId))
    ensures && HasDonor(old(db.donors), request.donorId) && request.branchId in db.branches
            && UnknownDeferralReason(request, db.deferralReasons) ==>
              r == Err(KeyNotFound(DeferralReasonEntity, request.deferralReasonId.value))
    ensures r == Err(DbUpdate) ==>
              || (exists t :: t in old(db.screenings) && t.screeningId == newId)
              || (&& request.deferralReasonId.Some?
                  && request.deferralReasonId.value !in db.deferralReasons
                  && request.eligibilityStatus != DeferredStatus)
    ensures && HasDonor(old(db.donors), request.donorId) && request.branchId in db.branches
            && (request.deferralReasonId.Some? ==> request.deferralReasonId.value in db.deferralReasons)
            && (forall t :: t in old(db.screenings) ==> t.screeningId != newId)
            ==> r.Ok?
    ensures r.Ok? ==>
              && r.value == NewScreening(request, tryParseDate, newId, createdAt)
              && db.screenings == old(db.screenings) + [r.value]
    ensures r.Ok? && r.value.eligibilityStatus == EligibleStatus ==>
              var i := FindDonor(old(db.donors), request.donorId).value;
              db.donors == old(db.donors)[i := old(db.donors)[i].(
                lastDonationDate := Some(createdAt), updatedAt := donorUpdatedAt)]
    ensures r.Ok? && r.value.eligibilityStatus != EligibleStatus ==> db.donors == old(db.donors)
  {
    var i := FindDonor(db.donors, request.donorId);
    if i.None? {
      return Err(KeyNotFound(DonorEntity, request.donorId));
    }
    if request.branchId !in db.branches {
      return Err(KeyNotFound(BranchEntity, request.branchId));
    }
    if request.eligibilityStatus == DeferredStatus && request.deferralReasonId.Some? {
      if request.deferralReasonId.value !in db.deferralReasons {
        return Err(KeyNotFound(DeferralReasonEntity, request.deferralReasonId.value));
      }
    }

    var screening := NewScreening(request, tryParseDate, newId, createdAt);
    r := db.InsertScreening(screening);
    if r.Err? {
      return;
    }
    if screening.eligibilityStatus == EligibleStatus {
      var donor := db.donors[i.value].(lastDonationDate := Some(createdAt), updatedAt := donorUpdatedAt);
      ReplaceDonorKeepsConstraints(
        db.donors, db.branches, db.deferralReasons, db.screenings, i.value, donor);
      db.donors := db.donors[i.value := donor];
    }
  }

  /** `GetScreeningsByDonorIdAsync`: `KeyNotFound` for an unknown donor,
      otherwise exactly that donor's screenings, newest first. */
  method GetScreeningsByDonorId(db: Store, donorId: Guid) returns (r: Result<seq<Screening>, Error>)
    ensures r.Err? <==> !HasDonor(db.donors, donorId)
    ensures r.Err? ==> r.error == KeyNotFound(DonorEntity, donorId)
    ensures r.Ok? ==> ScreeningRepository.NewestFirst(r.value)
    ensures r.Ok? ==> multiset(r.value) == multiset(ScreeningRepository.ScreeningsOf(db.screenings, donorId))
    ensures r.Ok? ==> forall s :: s in r.value <==> s in db.screenings && s.donorId == donorId
  {
    if FindDonor(db.donors, donorId).None? {
      return Err(KeyNotFound(DonorEntity, donorId));
    }
    r := Ok(ScreeningRepository.GetByDonorId(db.screenings, donorId));
  }
}
