/** Donor queries: coupon-code lookup (case-insensitive), the national-ID
    and phone/date-of-birth duplicate checks, and the maximum-coupon scan
    that the coupon allocator starts from. The scan pulls every stored code
    and runs the rest in memory, so it is modelled over the list of codes. */
module DonorRepository {
  import opened Wrappers
  import opened DotNetText
  import opened Entities

  /** The CouponCode column, in table order. */
  function CouponCodes(donors: seq<Donor>): (r: seq<string>)
    ensures |r| == |donors|
    ensures forall i :: 0 <= i < |donors| ==> r[i] == donors[i].couponCode
  {
    seq(|donors|, i requires 0 <= i < |donors| => donors[i].couponCode)
  }

  // ---------------------------------------------------------------------
  // Lookups

  /** The query's match: both sides upper-cased, then compared. */
  predicate SameCouponIgnoringCase(a: string, b: string) {
    ToUpper(a) == ToUpper(b)
  }

  /** `GetByCouponCodeAsync`: the first donor whose code matches. */
  function GetByCouponCode(donors: seq<Donor>, code: string): (r: Option<Donor>)
    ensures r.None? <==> forall d :: d in donors ==> !SameCouponIgnoringCase(d.couponCode, code)
    ensures r.Some? ==> exists i :: 0 <= i < |donors| && donors[i] == r.value
                          && SameCouponIgnoringCase(r.value.couponCode, code)
                          && forall j :: 0 <= j < i ==> !SameCouponIgnoringCase(donors[j].couponCode, code)
  {
    if donors == [] then None
    else if SameCouponIgnoringCase(donors[0].couponCode, code) then Some(donors[0])
    else
      var r := GetByCouponCode(donors[1..], code);
      assert forall d :: d in donors[1..] ==> d in donors;
      assert forall d :: d in donors ==> d == donors[0] || d in donors[1..];
      r
  }

  /** `ExistsByCouponCodeAsync`. */
  predicate ExistsByCouponCode(donors: seq<Donor>, code: string) {
    exists d :: d in donors && SameCouponIgnoringCase(d.couponCode, code)
  }

  /** The existence check and the lookup agree. */
  lemma ExistsIffFound(donors: seq<Donor>, code: string)
    ensures ExistsByCouponCode(donors, code) <==> GetByCouponCode(donors, code).Some?
  {
  }

  /** Codes that differ only in letter case find the same donor. */
  lemma {:induction false} CouponLookupIgnoresCase(donors: seq<Donor>, a: string, b: string)
    requires ToUpper(a) == ToUpper(b)
    ensures GetByCouponCode(donors, a) == GetByCouponCode(donors, b)
    ensures ExistsByCouponCode(donors, a) == ExistsByCouponCode(donors, b)
  {
    if donors != [] {
      CouponLookupIgnoresCase(donors[1..], a, b);
    }
  }

  /** `ExistsByNationalIdAsync`: exact comparison. */
  predicate ExistsByNationalId(donors: seq<Donor>, nationalId: string) {
    exists d :: d in donors && d.nationalId == nationalId
  }

  /** `ExistsByPhoneAndDobAsync`: kept for compatibility; never reports a
      duplicate. */
  function ExistsByPhoneAndDob(phone: string, dob: DateTime): (r: bool)
    ensures !r
  {
    false
  }

  // ---------------------------------------------------------------------
  // The maximum coupon code

  predicate HasNumericCode(codes: seq<string>) {
    exists c {:trigger c in codes} :: c in codes && TryParseInt32(c).Some?
  }

  /** `m` is the largest value any code parses to. */
  predicate IsMaxNumericCode(codes: seq<string>, m: int) {
    && (exists c {:trigger c in codes} :: c in codes && TryParseInt32(c) == Some(m))
    && forall c {:trigger c in codes} :: c in codes && TryParseInt32(c).Some? ==> TryParseInt32(c).value <= m
  }

  /** The codes that parse as `int`, parsed, in order. */
  function NumericCoupons(codes: seq<string>): (r: seq<int>)
    ensures forall v :: v in r <==> exists c {:trigger c in codes} :: c in codes && TryParseInt32(c) == Some(v)
  {
    if codes == [] then []
    else
      var rest := NumericCoupons(codes[1..]);
      assert forall c :: c in codes <==> c == codes[0] || c in codes[1..];
      assert codes[0] in codes;
      match TryParseInt32(codes[0])
      case Some(v) => [v] + rest
      case None => rest
  }

  /** LINQ `Max` of a non-empty list. */
  function Max(xs: seq<int>): (m: int)
    requires |xs| > 0
    ensures m in xs
    ensures forall x :: x in xs ==> x <= m
  {
    if |xs| == 1 then xs[0]
    else
      var m := Max(xs[1..]);
      assert forall x :: x in xs ==> x == xs[0] || x in xs[1..];
      if xs[0] >= m then xs[0] else m
  }

  /** "0000" is the "D4" spelling of 0 and parses back to 0. */
  lemma ZeroCode()
    ensures FormatD4(0) == "0000" && TryParseInt32("0000") == Some(0)
  {
    FormatD4Zero();
    ParseFormatD4(0);
  }

  /** A numeric code puts a value in the parsed list. */
  lemma NumericCouponsNonEmpty(codes: seq<string>)
    requires HasNumericCode(codes)
    ensures |NumericCoupons(codes)| > 0
  {
    var c :| c in codes && TryParseInt32(c).Some?;
    assert TryParseInt32(c).value in NumericCoupons(codes);
  }

  /** The largest value any code parses to: LINQ `Max` of the parsed codes. */
  function MaxNumericValue(codes: seq<string>): (m: int)
    requires HasNumericCode(codes)
    ensures IsMaxNumericCode(codes, m)
    ensures InInt32(m)
  {
    NumericCouponsNonEmpty(codes);
    var m := Max(NumericCoupons(codes));
    assert m in NumericCoupons(codes);
    assert forall c {:trigger c in codes} :: c in codes && TryParseInt32(c).Some? ==> TryParseInt32(c).value in NumericCoupons(codes);
    m
  }

  /** `GetMaxCouponCodeAsync` over the stored codes: "0000" for an empty
      table or one without a numeric code, otherwise the largest numeric
      value in "D4" form. */
  function GetMaxCouponCode(codes: seq<string>): (r: string)
    ensures !HasNumericCode(codes) ==> r == "0000"
    ensures HasNumericCode(codes) ==> r == FormatD4(MaxNumericValue(codes))
  {
    if |codes| == 0 then "0000"
    else
      var numeric := NumericCoupons(codes);
      if |numeric| == 0 then
        assert !HasNumericCode(codes) by {
          forall c | c in codes ensures TryParseInt32(c).None? {
            assert forall v :: v !in numeric;
          }
        }
        "0000"
      else
        FormatD4(Max(numeric))
  }

  /** Any largest numeric value is the one the scan finds. */
  lemma MaxNumericValueOf(codes: seq<string>, m: int)
    requires IsMaxNumericCode(codes, m)
    ensures HasNumericCode(codes) && MaxNumericValue(codes) == m
  {
    var c :| c in codes && TryParseInt32(c) == Some(m);
    MaxNumericCodeUnique(codes, m, MaxNumericValue(codes));
  }

  /** The reported code always parses, and it is the "D4" spelling of the
      value it parses to: the maximum when there is one, 0 otherwise. */
  lemma MaxCouponCodeRoundTrip(codes: seq<string>)
    ensures TryParseInt32(GetMaxCouponCode(codes)).Some?
    ensures GetMaxCouponCode(codes) == FormatD4(TryParseInt32(GetMaxCouponCode(codes)).value)
    ensures HasNumericCode(codes) ==> IsMaxNumericCode(codes, TryParseInt32(GetMaxCouponCode(codes)).value)
  {
    if HasNumericCode(codes) {
      ParseFormatD4(MaxNumericValue(codes));
    } else {
      ZeroCode();
    }
  }

  /** Two codes with the same largest numeric value: the maximum is unique. */
  lemma MaxNumericCodeUnique(codes: seq<string>, m1: int, m2: int)
    requires IsMaxNumericCode(codes, m1) && IsMaxNumericCode(codes, m2)
    ensures m1 == m2
  {
  }

  /** The result depends only on which codes are stored, not on their order
      or on repetitions. */
  lemma MaxCouponCodeOrderInsensitive(a: seq<string>, b: seq<string>)
    requires forall c :: c in a <==> c in b
    ensures GetMaxCouponCode(a) == GetMaxCouponCode(b)
  {
    if HasNumericCode(a) {
      assert HasNumericCode(b);
      MaxNumericValueOf(b, MaxNumericValue(a));
    } else {
      assert !HasNumericCode(b);
    }
  }

  /** The seeded donors' codes "BLOOD2024" and "GIVE2024" are not numeric,
      so the maximum is "0000"; an empty table gives the same. */
  lemma SeededMaxCouponCode()
    ensures GetMaxCouponCode([]) == "0000"
    ensures GetMaxCouponCode(["BLOOD2024", "GIVE2024"]) == "0000"
  {
    NonNumericPrefixRejected("BLOOD2024");
    NonNumericPrefixRejected("GIVE2024");
  }
}
