/** The pieces of .NET behaviour the services lean on, written out because
    Dafny's integers are unbounded and its strings have no library:
    `int.TryParse`/`int.Parse` with the default number style, the "D4"
    format of `Int32.ToString`, unchecked 32-bit addition, `string.Trim`,
    `string.IsNullOrWhiteSpace`, and `ToUpper`/`ToLower` (ASCII letters). */
module DotNetText {
  import opened Wrappers

  const Int32Min: int := -0x8000_0000
  const Int32Max: int := 0x7FFF_FFFF

  predicate InInt32(n: int) {
    Int32Min <= n <= Int32Max
  }

  /** The value of an unchecked C# `int` addition whose exact result is `n`. */
  function Wrap32(n: int): (r: int)
    ensures InInt32(r)
    ensures InInt32(n) ==> r == n
    ensures (r - n) % 0x1_0000_0000 == 0
  {
    (n - Int32Min) % 0x1_0000_0000 + Int32Min
  }

  /** Unchecked `int.MaxValue + 1` is `int.MinValue`. */
  lemma WrapPastMax()
    ensures Wrap32(Int32Max + 1) == Int32Min
  {
  }

  // ---------------------------------------------------------------------
  // White space and trimming

  /** The white space `NumberStyles.Integer` lets `int.Parse` skip:
      U+0009 to U+000D and U+0020. */
  predicate IsNumberWhite(c: char) {
    c == ' ' || '\t' <= c <= '\r'
  }

  /** `Char.IsWhiteSpace`: the Unicode separators plus the controls
      U+0009 to U+000D and U+0085; used by `Trim` and `IsNullOrWhiteSpace`. */
  predicate IsWhiteSpace(c: char) {
    || IsNumberWhite(c)
    || c == '\U{0085}' || c == '\U{00A0}' || c == '\U{1680}'
    || '\U{2000}' <= c <= '\U{200A}'
    || c == '\U{2028}' || c == '\U{2029}' || c == '\U{202F}'
    || c == '\U{205F}' || c == '\U{3000}'
  }

  /** `TrimStart()`: drops the longest prefix of `Char.IsWhiteSpace`. */
  function TrimStart(s: string): (r: string)
    ensures |r| <= |s| && r == s[|s| - |r|..]
    ensures r == [] || !IsWhiteSpace(r[0])
    ensures forall i :: 0 <= i < |s| - |r| ==> IsWhiteSpace(s[i])
  {
    if s == [] || !IsWhiteSpace(s[0]) then s else TrimStart(s[1..])
  }

  /** `TrimEnd()`: drops the longest suffix of `Char.IsWhiteSpace`. */
  function TrimEnd(s: string): (r: string)
    ensures |r| <= |s| && r == s[..|r|]
    ensures r == [] || !IsWhiteSpace(r[|r| - 1])
    ensures forall i :: |r| <= i < |s| ==> IsWhiteSpace(s[i])
  {
    if s == [] || !IsWhiteSpace(s[|s| - 1]) then s else TrimEnd(s[..|s| - 1])
  }

  /** `string.Trim()`: removes leading and trailing `Char.IsWhiteSpace`. */
  function Trim(s: string): (r: string)
    ensures |r| <= |s|
    ensures r == [] || (!IsWhiteSpace(r[0]) && !IsWhiteSpace(r[|r| - 1]))
    ensures exists i, j :: 0 <= i <= j <= |s| && r == s[i..j] && AllWhite(s[..i]) && AllWhite(s[j..])
  {
    var front := TrimStart(s);
    var r := TrimEnd(front);
    var i := |s| - |front|;
    var j := i + |r|;
    TrimSpanText(s, front, i, j);
    TrimSpanTail(s, front, i, j);
    assert AllWhite(s[..i]);
    r
  }

  /** Every character is `Char.IsWhiteSpace`. */
  predicate AllWhite(t: string) {
    forall k :: 0 <= k < |t| ==> IsWhiteSpace(t[k])
  }

  /** The trimmed text sits at `[i, j)`, after the leading white space. */
  lemma TrimSpanText(s: string, front: string, i: nat, j: nat)
    requires |front| <= |s| && front == s[|s| - |front|..]
    requires i == |s| - |front| && j == i + |TrimEnd(front)|
    ensures j <= |s| && TrimEnd(front) == s[i..j]
  {
    var r := TrimEnd(front);
    assert r == front[..|r|];
    assert front[..|r|] == s[i..j];
  }

  lemma TrimSpanTail(s: string, front: string, i: nat, j: nat)
    requires |front| <= |s| && front == s[|s| - |front|..]
    requires i == |s| - |front| && j == i + |TrimEnd(front)|
    ensures j <= |s| && AllWhite(s[j..])
  {
    forall k | 0 <= k < |s| - j ensures IsWhiteSpace(s[j..][k]) {
      assert s[j..][k] == front[j + k - i];
    }
  }

  /** A string with no white space at either end is its own trim. */
  lemma TrimNoop(s: string)
    requires s == [] || (!IsWhiteSpace(s[0]) && !IsWhiteSpace(s[|s| - 1]))
    ensures Trim(s) == s
  {
    assert TrimStart(s) == s;
    assert TrimEnd(s) == s;
  }

  /** Trimming twice is trimming once. */
  lemma TrimIdempotent(s: string)
    ensures Trim(Trim(s)) == Trim(s)
  {
    var t := Trim(s);
    TrimNoop(t);
  }

  /** `string.IsNullOrWhiteSpace`; `None` stands for a null reference. */
  predicate IsNullOrWhiteSpace(s: Option<string>) {
    match s
    case None => true
    case Some(t) => AllWhite(t)
  }

  /** A present string is blank exactly when trimming leaves nothing. */
  lemma BlankIffTrimEmpty(s: string)
    ensures IsNullOrWhiteSpace(Some(s)) <==> Trim(s) == []
  {
    var front := TrimStart(s);
    if Trim(s) == [] && front != [] {
      assert false;
    }
  }

  // ---------------------------------------------------------------------
  // Letter case (ASCII letters; culture-specific mappings are not modelled)

  function ToUpperChar(c: char): char {
    if 'a' <= c <= 'z' then (c as int - 32) as char else c
  }

  function ToLowerChar(c: char): char {
    if 'A' <= c <= 'Z' then (c as int + 32) as char else c
  }

  function ToUpper(s: string): (r: string)
    ensures |r| == |s|
    ensures forall i :: 0 <= i < |s| ==> r[i] == ToUpperChar(s[i])
  {
    seq(|s|, i requires 0 <= i < |s| => ToUpperChar(s[i]))
  }

  function ToLower(s: string): (r: string)
    ensures |r| == |s|
    ensures forall i :: 0 <= i < |s| ==> r[i] == ToLowerChar(s[i])
  {
    seq(|s|, i requires 0 <= i < |s| => ToLowerChar(s[i]))
  }

  // ---------------------------------------------------------------------
  // Decimal digits

  predicate IsDigit(c: char) {
    '0' <= c <= '9'
  }

  predicate AllDigits(s: string) {
    forall i :: 0 <= i < |s| ==> IsDigit(s[i])
  }

  function DigitValue(c: char): nat
    requires IsDigit(c)
  {
    c as int - '0' as int
  }

  function DigitChar(d: nat): (c: char)
    requires d < 10
    ensures IsDigit(c) && DigitValue(c) == d
  {
    ('0' as int + d) as char
  }

  /** The value of a string of decimal digits, most significant first. */
  function DigitsValue(s: string): nat
    requires AllDigits(s)
  {
    if s == [] then 0 else DigitsValue(s[..|s| - 1]) * 10 + DigitValue(s[|s| - 1])
  }

  /** The shortest decimal spelling of `n`, most significant digit first. */
  function DecimalDigits(n: nat): string {
    if n < 10 then [DigitChar(n)] else DecimalDigits(n / 10) + [DigitChar(n % 10)]
  }

  /** The spelling is a non-empty digit string that reads back as `n`. */
  lemma {:induction false} DecimalDigitsValue(n: nat)
    ensures |DecimalDigits(n)| > 0 && AllDigits(DecimalDigits(n))
    ensures DigitsValue(DecimalDigits(n)) == n
  {
    if n >= 10 {
      DecimalDigitsValue(n / 10);
      var r := DecimalDigits(n);
      assert r[..|r| - 1] == DecimalDigits(n / 10);
    }
  }

  /** `PadLeft(width, '0')`. */
  function ZeroPad(s: string, width: nat): string {
    if |s| < width then seq(width - |s|, _ => '0') + s else s
  }

  lemma {:induction false} ZerosValue(z: string)
    requires forall i :: 0 <= i < |z| ==> z[i] == '0'
    ensures AllDigits(z) && DigitsValue(z) == 0
  {
    if z != [] {
      ZerosValue(z[..|z| - 1]);
    }
  }

  /** Leading zeros do not change the value of a digit string. */
  lemma {:induction false} LeadingZerosValue(z: string, s: string)
    requires forall i :: 0 <= i < |z| ==> z[i] == '0'
    requires AllDigits(s)
    ensures AllDigits(z + s) && DigitsValue(z + s) == DigitsValue(s)
  {
    ZerosValue(z);
    if s == [] {
      assert z + s == z;
    } else {
      var t := s[..|s| - 1];
      LeadingZerosValue(z, t);
      assert (z + s)[..|z + s| - 1] == z + t;
    }
  }

  /** Four or more digits, zero-padded on the left. */
  function PaddedDigits(n: nat): string {
    ZeroPad(DecimalDigits(n), 4)
  }

  /** The padded spelling has at least four digits and reads back as `n`. */
  lemma PaddedDigitsValue(n: nat)
    ensures |PaddedDigits(n)| >= 4 && AllDigits(PaddedDigits(n))
    ensures DigitsValue(PaddedDigits(n)) == n
  {
    var digits := DecimalDigits(n);
    DecimalDigitsValue(n);
    if |digits| < 4 {
      var z: string := seq(4 - |digits|, _ => '0');
      assert PaddedDigits(n) == z + digits;
      LeadingZerosValue(z, digits);
    }
  }

  /** `n.ToString("D4")`: at least four digits, zero-padded, with a leading
      '-' for a negative value. */
  function FormatD4(n: int): string {
    if n < 0 then "-" + PaddedDigits(-n) else PaddedDigits(n)
  }

  /** The shape of a "D4" spelling: an optional '-' and then at least four
      digits that read back as the magnitude. */
  lemma FormatD4Digits(n: int)
    ensures n >= 0 ==> |FormatD4(n)| >= 4 && AllDigits(FormatD4(n)) && DigitsValue(FormatD4(n)) == n
    ensures n >= 0 && |FormatD4(n)| > 4 ==> FormatD4(n)[0] != '0'
    ensures n < 0 ==>
              var r := FormatD4(n);
              |r| >= 5 && r[0] == '-' && AllDigits(r[1..]) && DigitsValue(r[1..]) == -n
    ensures n < 0 && |FormatD4(n)| > 5 ==> FormatD4(n)[1] != '0'
  {
    if n < 0 {
      PaddedDigitsValue(-n);
      PaddedDigitsLead(-n);
      assert FormatD4(n)[1..] == PaddedDigits(-n);
    } else {
      PaddedDigitsValue(n);
      PaddedDigitsLead(n);
    }
  }

  /** Padding only ever brings the spelling up to four digits, so a longer
      one starts with a non-zero digit. */
  lemma PaddedDigitsLead(n: nat)
    ensures |PaddedDigits(n)| > 4 ==> PaddedDigits(n)[0] != '0'
  {
    DecimalDigitsLead(n);
  }

  /** The shortest spelling has no leading zero, except "0" itself. */
  lemma {:induction false} DecimalDigitsLead(n: nat)
    ensures |DecimalDigits(n)| > 1 ==> DecimalDigits(n)[0] != '0'
  {
    if n >= 10 {
      DecimalDigitsLead(n / 10);
      assert DecimalDigits(n)[0] == DecimalDigits(n / 10)[0];
    }
  }

  /** The "D4" spelling of 0. */
  lemma FormatD4Zero()
    ensures FormatD4(0) == "0000"
  {
    assert DecimalDigits(0) == "0";
    assert seq(3, _ => '0') == "000";
  }

  /** "D4" spellings of small values. */
  lemma FormatD4OneDigit()
    ensures FormatD4(1) == "0001" && FormatD4(2) == "0002" && FormatD4(7) == "0007"
    ensures FormatD4(8) == "0008"
  {
    assert seq(3, _ => '0') == "000";
    assert DecimalDigits(1) == "1" && DecimalDigits(2) == "2";
    assert DecimalDigits(7) == "7" && DecimalDigits(8) == "8";
  }

  lemma FormatD4TwoDigits()
    ensures FormatD4(99) == "0099"
  {
    assert seq(2, _ => '0') == "00";
    assert DecimalDigits(99) == "99";
  }

  lemma FormatD4ThreeDigits()
    ensures FormatD4(100) == "0100"
  {
    assert seq(1, _ => '0') == "0";
    assert DecimalDigits(100) == "100";
  }

  /** Four digits need no padding, and a fifth widens the code. */
  lemma FormatD4Wide()
    ensures FormatD4(9999) == "9999" && FormatD4(10000) == "10000"
  {
    assert DecimalDigits(9999) == "9999" && DecimalDigits(10000) == "10000";
  }

  // ---------------------------------------------------------------------
  // int.TryParse / int.Parse with NumberStyles.Integer

  /** The value of an optional-sign-then-digits body, if it is one and fits. */
  function SignedValue(negative: bool, digits: string): Option<int> {
    if |digits| == 0 || !AllDigits(digits) then None
    else
      var v := if negative then -(DigitsValue(digits) as int) else DigitsValue(digits);
      if InInt32(v) then Some(v) else None
  }

  /** Drops the leading white space `int.Parse` skips. */
  function TrimNumberStart(s: string): string {
    if s == [] || !IsNumberWhite(s[0]) then s else TrimNumberStart(s[1..])
  }

  /** Drops the trailing white space `int.Parse` skips. */
  function TrimNumberEnd(s: string): string {
    if s == [] || !IsNumberWhite(s[|s| - 1]) then s else TrimNumberEnd(s[..|s| - 1])
  }

  /** Trimming the end keeps a prefix. */
  lemma {:induction false} TrimNumberEndIsPrefix(s: string)
    ensures |TrimNumberEnd(s)| <= |s| && TrimNumberEnd(s) == s[..|TrimNumberEnd(s)|]
  {
    if s != [] && IsNumberWhite(s[|s| - 1]) {
      TrimNumberEndIsPrefix(s[..|s| - 1]);
    }
  }

  /** `int.TryParse(s, out v)`: optional leading and trailing white space,
      an optional '+' or '-', at least one decimal digit, and a value that
      fits in 32 bits. `None` is the `false` return. */
  function TryParseInt32(s: string): (r: Option<int>)
    ensures r.Some? ==> InInt32(r.value)
  {
    var t := TrimNumberEnd(TrimNumberStart(s));
    if |t| > 0 && (t[0] == '-' || t[0] == '+') then SignedValue(t[0] == '-', t[1..])
    else SignedValue(false, t)
  }

  /** The shape `NumberStyles.Integer` accepts, whatever the value:
      optional white space around an optional '+' or '-' and at least one
      decimal digit. */
  predicate IntegerSyntax(s: string) {
    var t := TrimNumberEnd(TrimNumberStart(s));
    if |t| > 0 && (t[0] == '-' || t[0] == '+') then |t| > 1 && AllDigits(t[1..])
    else |t| > 0 && AllDigits(t)
  }

  /** The exact value of a well-formed number, however large. */
  function IntegerValue(s: string): int
    requires IntegerSyntax(s)
  {
    var t := TrimNumberEnd(TrimNumberStart(s));
    if t[0] == '-' then -(DigitsValue(t[1..]) as int)
    else if t[0] == '+' then DigitsValue(t[1..])
    else DigitsValue(t)
  }

  /** Why `int.Parse` throws: `FormatException` or `OverflowException`. */
  datatype ParseFailure = BadFormat | OutOfRange

  /** `int.Parse(s)`: a well-formed number that fits in 32 bits, otherwise
      the exception. It succeeds exactly when `int.TryParse` does, with the
      same value. */
  function ParseInt32(s: string): (r: Result<int, ParseFailure>)
    ensures r.Ok? <==> TryParseInt32(s).Some?
    ensures r.Ok? ==> r.value == TryParseInt32(s).value
    ensures r == Err(BadFormat) <==> !IntegerSyntax(s)
    ensures r == Err(OutOfRange) <==> IntegerSyntax(s) && !InInt32(IntegerValue(s))
  {
    if !IntegerSyntax(s) then Err(BadFormat)
    else if !InInt32(IntegerValue(s)) then Err(OutOfRange)
    else Ok(IntegerValue(s))
  }

  /** With no white space at either end, parsing reads the sign and the
      digits directly. */
  lemma ParseUntrimmed(s: string)
    requires |s| > 0 && !IsNumberWhite(s[0]) && !IsNumberWhite(s[|s| - 1])
    ensures TryParseInt32(s) ==
              if s[0] == '-' || s[0] == '+' then SignedValue(s[0] == '-', s[1..])
              else SignedValue(false, s)
  {
    assert TrimNumberStart(s) == s;
    assert TrimNumberEnd(s) == s;
  }

  /** Parsing what "D4" printed gives back the number: the round trip the
      coupon allocator depends on when it re-reads the maximum code. */
  lemma ParseFormatD4(n: int)
    requires InInt32(n)
    ensures TryParseInt32(FormatD4(n)) == Some(n)
  {
    var s := FormatD4(n);
    FormatD4Digits(n);
    assert IsDigit(s[|s| - 1]);
    if n < 0 {
      ParseUntrimmed(s);
    } else {
      assert IsDigit(s[0]);
      ParseUntrimmed(s);
    }
  }

  /** A "D4" spelling of a value outside 32 bits is well formed, so
      `int.Parse` throws `OverflowException` rather than `FormatException`. */
  lemma ParseOutOfRange(n: int)
    requires !InInt32(n)
    ensures ParseInt32(FormatD4(n)) == Err(OutOfRange)
  {
    var s := FormatD4(n);
    FormatD4Digits(n);
    assert IsDigit(s[|s| - 1]);
    assert TrimNumberStart(s) == s;
    assert TrimNumberEnd(s) == s;
    if n >= 0 {
      assert IsDigit(s[0]);
    }
  }

  /** Zero-padded codes parse to their value. */
  lemma ParsePaddedLiterals()
    ensures TryParseInt32("0001") == Some(1) && TryParseInt32("0002") == Some(2)
    ensures TryParseInt32("0007") == Some(7) && TryParseInt32("0099") == Some(99)
    ensures TryParseInt32("9999") == Some(9999)
  {
    FormatD4OneDigit();
    ParseFormatD4(1);
    ParseFormatD4(2);
    ParseFormatD4(7);
    FormatD4TwoDigits();
    ParseFormatD4(99);
    FormatD4Wide();
    ParseFormatD4(9999);
  }

  /** A string that starts with a character that is neither white space,
      a sign nor a digit does not parse (legacy codes such as "BLOOD2024"). */
  lemma NonNumericPrefixRejected(s: string)
    requires |s| > 0 && !IsNumberWhite(s[0]) && !IsDigit(s[0]) && s[0] != '-' && s[0] != '+'
    ensures TryParseInt32(s) == None
  {
    assert TrimNumberStart(s) == s;
    var t := TrimNumberEnd(s);
    TrimNumberEndIsPrefix(s);
    assert |t| > 0 ==> t[0] == s[0];
    assert |t| > 0 ==> !AllDigits(t);
  }
}
