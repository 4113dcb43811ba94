/** The database the services share through the unit of work: the donor,
    branch, deferral-reason and screening tables, and the constraints the
    schema enforces when changes are saved (primary keys, the unique
    indexes on CouponCode and NationalId, and the screening foreign keys).
    String keys are compared exactly; database collation is not modelled. */
module Database {
  import opened Wrappers
  import opened Entities

  predicate HasDonor(donors: seq<Donor>, id: Guid) {
    exists d :: d in donors && d.donorId == id
  }

  /** Primary key and both unique indexes of the Donors table. */
  ghost predicate DonorKeysUnique(donors: seq<Donor>) {
    forall i, j :: 0 <= i < j < |donors| ==>
      && donors[i].donorId != donors[j].donorId
      && donors[i].couponCode != donors[j].couponCode
      && donors[i].nationalId != donors[j].nationalId
  }

  /** What saving a new donor row needs: no key or unique column clashes. */
  predicate CanInsertDonor(donors: seq<Donor>, d: Donor) {
    forall e :: e in donors ==>
      e.donorId != d.donorId && e.couponCode != d.couponCode && e.nationalId != d.nationalId
  }

  /** What saving a new screening row needs: a fresh key and foreign keys
      that resolve (the reason key only when it is present). */
  predicate CanInsertScreening(
    donors: seq<Donor>, branches: set<Guid>, reasons: set<Guid>,
    screenings: seq<Screening>, s: Screening)
  {
    && (forall t :: t in screenings ==> t.screeningId != s.screeningId)
    && HasDonor(donors, s.donorId)
    && s.branchId in branches
    && (s.deferralReasonId.Some? ==> s.deferralReasonId.value in reasons)
  }

  ghost predicate ScreeningsConsistent(
    donors: seq<Donor>, branches: set<Guid>, reasons: set<Guid>, screenings: seq<Screening>)
  {
    forall i :: 0 <= i < |screenings| ==>
      CanInsertScreening(donors, branches, reasons, screenings[..i], screenings[i])
  }

  /** The position of the donor row with key `id` (the repository's
      `GetByIdAsync`). */
  function FindDonor(donors: seq<Donor>, id: Guid): (r: Option<nat>)
    ensures r.None? <==> !HasDonor(donors, id)
    ensures r.Some? ==> r.value < |donors| && donors[r.value].donorId == id
  {
    if donors == [] then None
    else if donors[0].donorId == id then Some(0)
    else
      match FindDonor(donors[1..], id)
      case None => None
      case Some(k) => Some(k + 1)
  }

  /** Replacing a donor row by one with the same key and unique columns
      keeps the table's constraints and every screening's foreign keys. */
  lemma ReplaceDonorKeepsConstraints(
    donors: seq<Donor>, branches: set<Guid>, reasons: set<Guid>, screenings: seq<Screening>,
    i: nat, d: Donor)
    requires DonorKeysUnique(donors) && ScreeningsConsistent(donors, branches, reasons, screenings)
    requires i < |donors|
    requires d.donorId == donors[i].donorId && d.couponCode == donors[i].couponCode
    requires d.nationalId == donors[i].nationalId
    ensures DonorKeysUnique(donors[i := d])
    ensures ScreeningsConsistent(donors[i := d], branches, reasons, screenings)
  {
    var after := donors[i := d];
    forall k | 0 <= k < |screenings|
      ensures CanInsertScreening(after, branches, reasons, screenings[..k], screenings[k])
    {
      assert CanInsertScreening(donors, branches, reasons, screenings[..k], screenings[k]);
      var e :| e in donors && e.donorId == screenings[k].donorId;
      var j :| 0 <= j < |donors| && donors[j] == e;
      assert after[j].donorId == e.donorId;
    }
  }

  /** Appending a donor row that passes the insert checks keeps the table's
      constraints and every screening's foreign keys. */
  lemma AppendDonorKeepsConstraints(
    donors: seq<Donor>, branches: set<Guid>, reasons: set<Guid>, screenings: seq<Screening>, d: Donor)
    requires DonorKeysUnique(donors) && ScreeningsConsistent(donors, branches, reasons, screenings)
    requires CanInsertDonor(donors, d)
    ensures DonorKeysUnique(donors + [d])
    ensures ScreeningsConsistent(donors + [d], branches, reasons, screenings)
  {
    var after := donors + [d];
    forall i, j | 0 <= i < j < |after|
      ensures after[i].donorId != after[j].donorId && after[i].couponCode != after[j].couponCode
      ensures after[i].nationalId != after[j].nationalId
    {
      if j == |donors| {
        assert after[i] in donors;
      }
    }
    forall k | 0 <= k < |screenings|
      ensures CanInsertScreening(after, branches, reasons, screenings[..k], screenings[k])
    {
      assert CanInsertScreening(donors, branches, reasons, screenings[..k], screenings[k]);
      var e :| e in donors && e.donorId == screenings[k].donorId;
      assert e in after;
    }
  }

  /** Appending a screening row that passes the insert checks keeps the
      screening table consistent. */
  lemma AppendScreeningKeepsConstraints(
    donors: seq<Donor>, branches: set<Guid>, reasons: set<Guid>, screenings: seq<Screening>, s: Screening)
    requires ScreeningsConsistent(donors, branches, reasons, screenings)
    requires CanInsertScreening(donors, branches, reasons, screenings, s)
    ensures ScreeningsConsistent(donors, branches, reasons, screenings + [s])
  {
    var after := screenings + [s];
    forall k | 0 <= k < |after|
      ensures CanInsertScreening(donors, branches, reasons, after[..k], after[k])
    {
      if k < |screenings| {
        assert after[..k] == screenings[..k];
      } else {
        assert after[..k] == screenings;
      }
    }
  }

  /** The shared tables. Services receive the store and change its fields
      in place, as the services change tracked entities and save them. */
  class Store {
    var donors: seq<Donor>
    var branches: set<Guid>
    var deferralReasons: set<Guid>
    var screenings: seq<Screening>

    ghost predicate Valid()
      reads this
    {
      && DonorKeysUnique(donors)
      && ScreeningsConsistent(donors, branches, deferralReasons, screenings)
    }

    /** A store holding the given rows, which must already satisfy the
        schema's constraints. */
    constructor (donors: seq<Donor>, branches: set<Guid>, reasons: set<Guid>)
      requires DonorKeysUnique(donors)
      ensures Valid()
      ensures this.donors == donors && this.branches == branches
      ensures deferralReasons == reasons && screenings == []
    {
      this.donors := donors;
      this.branches := branches;
      this.deferralReasons := reasons;
      this.screenings := [];
    }

    /** `Add` of a new donor row followed by `SaveChangesAsync`: the row is
        appended when no key or unique column clashes; otherwise the save
        fails with `DbUpdate` and the table is unchanged. */
    method InsertDonor(d: Donor) returns (r: Result<Donor, Error>)
      requires Valid()
      modifies this`donors
      ensures Valid()
      ensures CanInsertDonor(old(donors), d) ==> r == Ok(d) && donors == old(donors) + [d]
      ensures !CanInsertDonor(old(donors), d) ==> r == Err(DbUpdate) && donors == old(donors)
    {
      if !CanInsertDonor(donors, d) {
        return Err(DbUpdate);
      }
      AppendDonorKeepsConstraints(donors, branches, deferralReasons, screenings, d);
      donors := donors + [d];
      r := Ok(d);
    }

    /** `Add` of a new screening row followed by `SaveChangesAsync`. */
    method InsertScreening(s: Screening) returns (r: Result<Screening, Error>)
      requires Valid()
      modifies this`screenings
      ensures Valid()
      ensures CanInsertScreening(donors, branches, deferralReasons, old(screenings), s) ==>
                r == Ok(s) && screenings == old(screenings) + [s]
      ensures !CanInsertScreening(donors, branches, deferralReasons, old(screenings), s) ==>
                r == Err(DbUpdate) && screenings == old(screenings)
    {
      if !CanInsertScreening(donors, branches, deferralReasons, screenings, s) {
        return Err(DbUpdate);
      }
      AppendScreeningKeepsConstraints(donors, branches, deferralReasons, screenings, s);
      screenings := screenings + [s];
      r := Ok(s);
    }
  }
}
