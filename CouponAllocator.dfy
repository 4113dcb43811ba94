/** The coupon allocator of the donor service: the next code is the stored
    maximum (as the donor repository reports it), parsed, plus one with
    unchecked 32-bit addition, in "D4" form. */
module CouponAllocator {
  import opened Wrappers
  import opened DotNetText
  import opened Entities
  import opened DonorRepository

  /** `GetNextCouponCodeAsync` once the repository has answered: `int.Parse`
      of the maximum, plus one with unchecked 32-bit wrap-around, in "D4"
      form. A maximum that does not parse is a `Format` error, or an
      `Overflow` error when it is a well-formed number outside 32 bits. */
  function NextCouponCode(maxCode: string): (r: Result<string, Error>)
    ensures r.Err? <==> TryParseInt32(maxCode).None?
    ensures r.Err? && IntegerSyntax(maxCode) ==> r == Err(Overflow(maxCode))
    ensures r.Err? && !IntegerSyntax(maxCode) ==> r == Err(Format(maxCode))
  {
    match ParseInt32(maxCode)
    case Ok(v) => Ok(FormatD4(Wrap32(v + 1)))
    case Err(BadFormat) => Err(Format(maxCode))
    case Err(OutOfRange) => Err(Overflow(maxCode))
  }

  /** A maximum one past `int.MaxValue` is well formed, so the parse
      overflows rather than failing on the format. */
  lemma NextCouponCodeOverflow()
    ensures NextCouponCode(FormatD4(Int32Max + 1)) == Err(Overflow(FormatD4(Int32Max + 1)))
  {
    ParseOutOfRange(Int32Max + 1);
  }

  /** The new code parses back to exactly the successor of the maximum. */
  lemma NextCouponCodeRoundTrip(maxCode: string)
    requires TryParseInt32(maxCode).Some?
    ensures NextCouponCode(maxCode).Ok?
    ensures TryParseInt32(NextCouponCode(maxCode).value) == Some(Wrap32(TryParseInt32(maxCode).value + 1))
  {
    var v := TryParseInt32(maxCode).value;
    NextCouponCodeOfValue(maxCode, v, Wrap32(v + 1));
    ParseFormatD4(Wrap32(v + 1));
  }

  /** The successor of a maximum that parses to `v`. */
  lemma NextCouponCodeOfValue(maxCode: string, v: int, next: int)
    requires TryParseInt32(maxCode) == Some(v) && next == Wrap32(v + 1)
    ensures NextCouponCode(maxCode) == Ok(FormatD4(next))
  {
  }

  /** No stored code parses to `int.MaxValue`, so the increment does not wrap. */
  predicate BelowInt32Max(codes: seq<string>) {
    forall c {:trigger c in codes} :: c in codes && TryParseInt32(c).Some? ==> TryParseInt32(c).value < Int32Max
  }

  /** The allocator's output for a table holding `codes`. */
  function AllocatedCode(codes: seq<string>): Result<string, Error> {
    NextCouponCode(GetMaxCouponCode(codes))
  }

  /** With a numeric maximum below `int.MaxValue`, the allocated code is
      the "D4" spelling of the maximum plus one. */
  lemma AllocatedAfterNumericMax(codes: seq<string>)
    requires HasNumericCode(codes) && MaxNumericValue(codes) < Int32Max
    ensures AllocatedCode(codes) == Ok(FormatD4(MaxNumericValue(codes) + 1))
  {
    AllocatedFromMaxValue(codes);
  }

  /** With no numeric code the maximum is "0000" and the allocated code
      "0001". */
  lemma AllocatedWithoutNumericCode(codes: seq<string>)
    requires !HasNumericCode(codes)
    ensures AllocatedCode(codes) == Ok("0001")
  {
    NextAfterZero();
  }

  lemma NextAfterZero()
    ensures NextCouponCode("0000") == Ok("0001")
  {
    ZeroCode();
    NextCouponCodeOfValue("0000", 0, 1);
    FormatD4OneDigit();
  }

  /** The maximum always parses, so allocation never fails. */
  lemma AllocatedCodeIsOk(codes: seq<string>)
    ensures AllocatedCode(codes).Ok?
  {
    if HasNumericCode(codes) {
      AllocatedFromMaxValue(codes);
    } else {
      AllocatedWithoutNumericCode(codes);
    }
  }

  /** Codes are consecutive: the allocated code is "0001" when no code is
      numeric, and otherwise the maximum plus one in "D4" form. The parse
      of the maximum never fails. */
  lemma AllocatedCodeIsSuccessor(codes: seq<string>)
    requires BelowInt32Max(codes)
    ensures AllocatedCode(codes).Ok?
    ensures !HasNumericCode(codes) ==> AllocatedCode(codes) == Ok("0001")
    ensures HasNumericCode(codes) ==> AllocatedCode(codes) == Ok(FormatD4(MaxNumericValue(codes) + 1))
  {
    if HasNumericCode(codes) {
      MaxBelowInt32Max(codes);
      AllocatedAfterNumericMax(codes);
    } else {
      AllocatedWithoutNumericCode(codes);
    }
  }

  /** Under `BelowInt32Max` the maximum is below `int.MaxValue`. */
  lemma MaxBelowInt32Max(codes: seq<string>)
    requires BelowInt32Max(codes) && HasNumericCode(codes)
    ensures MaxNumericValue(codes) < Int32Max
  {
    var c :| c in codes && TryParseInt32(c) == Some(MaxNumericValue(codes));
  }

  /** The allocated code is numerically greater than every numeric code in
      the table, so no stored code equals it, not even ignoring case. */
  lemma AllocatedCodeIsFresh(codes: seq<string>)
    requires BelowInt32Max(codes)
    ensures AllocatedCode(codes).Ok?
    ensures var next := AllocatedCode(codes).value;
      && TryParseInt32(next).Some?
      && (forall c {:trigger c in codes} :: c in codes && TryParseInt32(c).Some? ==>
            TryParseInt32(c).value < TryParseInt32(next).value)
      && (forall c :: c in codes ==> !SameCouponIgnoringCase(c, next))
  {
    if HasNumericCode(codes) {
      MaxBelowInt32Max(codes);
      AllocatedAfterNumericMax(codes);
      FreshAbove(codes, MaxNumericValue(codes) + 1);
    } else {
      AllocatedWithoutNumericCode(codes);
      FormatD4OneDigit();
      FreshAbove(codes, 1);
    }
  }

  /** A "D4" code for a value above every numeric code parses to that
      value and matches no code. */
  lemma FreshAbove(codes: seq<string>, n: int)
    requires InInt32(n)
    requires forall c {:trigger c in codes} :: c in codes && TryParseInt32(c).Some? ==> TryParseInt32(c).value < n
    ensures TryParseInt32(FormatD4(n)) == Some(n)
    ensures forall c :: c in codes ==> !SameCouponIgnoringCase(c, FormatD4(n))
  {
    ParseFormatD4(n);
    forall c | c in codes ensures !SameCouponIgnoringCase(c, FormatD4(n)) {
      if SameCouponIgnoringCase(c, FormatD4(n)) {
        FormatD4Chars(n);
        UpperMatchOfNumberIsExact(c, FormatD4(n));
        assert false;
      }
    }
  }

  /** Digits and '-' have no other letter case. */
  predicate NumberChars(s: string) {
    forall i :: 0 <= i < |s| ==> IsDigit(s[i]) || s[i] == '-'
  }

  lemma FormatD4Chars(n: int)
    ensures NumberChars(FormatD4(n))
  {
    var s := FormatD4(n);
    FormatD4Digits(n);
    if n < 0 {
      forall i | 0 < i < |s| ensures IsDigit(s[i]) {
        assert s[1..][i - 1] == s[i];
      }
    }
  }

  /** A string that upper-cases to a string of digits and '-' is that
      string. */
  lemma UpperMatchOfNumberIsExact(c: string, s: string)
    requires NumberChars(s) && ToUpper(c) == ToUpper(s)
    ensures c == s
  {
    forall i | 0 <= i < |s| ensures c[i] == s[i] {
      assert ToUpperChar(c[i]) == ToUpperChar(s[i]);
    }
  }

  /** With a numeric code stored, the allocated code is the "D4" spelling
      of the maximum plus one, wrapped to 32 bits. */
  lemma AllocatedFromMaxValue(codes: seq<string>)
    requires HasNumericCode(codes)
    ensures AllocatedCode(codes) == Ok(FormatD4(Wrap32(MaxNumericValue(codes) + 1)))
  {
    NextAfterFormatted(GetMaxCouponCode(codes), MaxNumericValue(codes));
  }

  /** The successor of a maximum that "D4" printed from `m`. */
  lemma NextAfterFormatted(maxCode: string, m: int)
    requires InInt32(m) && maxCode == FormatD4(m)
    ensures NextCouponCode(maxCode) == Ok(FormatD4(Wrap32(m + 1)))
  {
    ParseFormatD4(m);
  }

  /** At `int.MaxValue` the increment wraps: the allocated code parses to
      `int.MinValue`, below every stored numeric code. */
  lemma AllocatedCodeWrapsAtInt32Max(codes: seq<string>)
    requires IsMaxNumericCode(codes, Int32Max)
    ensures AllocatedCode(codes).Ok?
    ensures TryParseInt32(AllocatedCode(codes).value) == Some(Int32Min)
    ensures forall c {:trigger c in codes} :: c in codes && TryParseInt32(c).Some? ==>
              TryParseInt32(c).value >= TryParseInt32(AllocatedCode(codes).value).value
  {
    MaxNumericValueOf(codes, Int32Max);
    AllocatedFromMaxValue(codes);
    WrapPastMax();
    ParseFormatD4(Int32Min);
  }

  /** The seeded table, whose codes are not numeric, gets "0001". */
  lemma AllocatedCodeForSeededTable()
    ensures AllocatedCode(["BLOOD2024", "GIVE2024"]) == Ok("0001")
    ensures AllocatedCode([]) == Ok("0001")
  {
    SeededMaxCouponCode();
    ZeroCode();
    FormatD4OneDigit();
  }

  /** {"0001", "0002", "0099"} gets "0100". */
  lemma AllocatedCodeAfterGap()
    ensures AllocatedCode(["0001", "0002", "0099"]) == Ok("0100")
  {
    GapMax();
    MaxNumericValueOf(["0001", "0002", "0099"], 99);
    AllocatedFromMaxValue(["0001", "0002", "0099"]);
    FormatD4ThreeDigits();
  }

  /** {"0001", "ABC123", "0007"} gets "0008": the legacy code is skipped. */
  lemma AllocatedCodeSkipsLegacy()
    ensures AllocatedCode(["0001", "ABC123", "0007"]) == Ok("0008")
  {
    LegacyMax();
    MaxNumericValueOf(["0001", "ABC123", "0007"], 7);
    AllocatedFromMaxValue(["0001", "ABC123", "0007"]);
    FormatD4OneDigit();
  }

  /** After "9999" the code widens to five digits: "10000". */
  lemma AllocatedCodeWidens()
    ensures AllocatedCode(["9999"]) == Ok("10000")
  {
    AllocatedAfterWidest();
    FormatD4Wide();
  }

  lemma AllocatedAfterWidest()
    ensures AllocatedCode(["9999"]) == Ok(FormatD4(10000))
  {
    WidestMax();
    MaxNumericValueOf(["9999"], 9999);
    AllocatedFromMaxValue(["9999"]);
  }

  lemma GapMax()
    ensures IsMaxNumericCode(["0001", "0002", "0099"], 99)
  {
    ParsePaddedLiterals();
    LastIsMaxOfThree("0001", "0002", "0099", 99);
  }

  lemma LegacyMax()
    ensures IsMaxNumericCode(["0001", "ABC123", "0007"], 7)
  {
    ParsePaddedLiterals();
    NonNumericPrefixRejected("ABC123");
    LastIsMaxOfThree("0001", "ABC123", "0007", 7);
  }

  lemma WidestMax()
    ensures IsMaxNumericCode(["9999"], 9999)
  {
    ParsePaddedLiterals();
    OnlyIsMax("9999", 9999);
  }

  lemma OnlyIsMax(c: string, m: int)
    requires TryParseInt32(c) == Some(m)
    ensures IsMaxNumericCode([c], m)
  {
    assert c in [c];
    forall x | x in [c] && TryParseInt32(x).Some? ensures TryParseInt32(x).value <= m {
      assert x == c;
    }
  }

  lemma LastIsMaxOfThree(a: string, b: string, c: string, m: int)
    requires TryParseInt32(c) == Some(m)
    requires TryParseInt32(a).Some? ==> TryParseInt32(a).value <= m
    requires TryParseInt32(b).Some? ==> TryParseInt32(b).value <= m
    ensures IsMaxNumericCode([a, b, c], m)
  {
    OnlyIsMax(c, m);
    ConsIsMax(b, [c], m);
    assert [b] + [c] == [b, c];
    ConsIsMax(a, [b, c], m);
    assert [a] + [b, c] == [a, b, c];
  }

  /** A code that parses to at most `m`, in front of codes whose maximum
      is `m`, leaves the maximum at `m`. */
  lemma ConsIsMax(a: string, rest: seq<string>, m: int)
    requires IsMaxNumericCode(rest, m)
    requires TryParseInt32(a).Some? ==> TryParseInt32(a).value <= m
    ensures IsMaxNumericCode([a] + rest, m)
  {
    var w :| w in rest && TryParseInt32(w) == Some(m);
    assert w in [a] + rest;
    forall x | x in [a] + rest && TryParseInt32(x).Some? ensures TryParseInt32(x).value <= m {
      if x != a {
        assert x in rest;
      }
    }
  }
}
