# BloodConnect donor registration, coupon allocation and print jobs in Dafny

BloodConnect registers blood donors at screening camps. Each donor gets a
coupon code for a lucky draw, and the code is printed on receipt slips.
This project models the core of that flow and proves properties of the
model:

- **Coupon allocation.** The donor repository reads every stored coupon
  code. It keeps the codes that `int.TryParse` accepts and reports their
  maximum in "D4" form, or "0000" when there are none. The donor service
  parses that maximum, adds one with unchecked 32-bit arithmetic and
  formats the result with "D4" again (`DonorRepository`,
  `CouponAllocator`, `DonorService.GetNextCouponCode`).
- **Donor rules.** Registration rejects a duplicate national ID and then
  an unparsable date of birth. It trims and lower-cases fields and saves
  the donor under the schema's key and unique indexes. The model also
  covers lookup by key and by coupon code (ignoring case), update, and a
  donor's screenings (`DonorService`, `Database`).
- **Screenings.** Recording a screening checks the donor, the branch and
  the deferral reason, in that order. It builds the row, and when the
  stored status is "eligible" it stamps the donor's last donation date.
  Both rows are saved together. Listing returns a donor's screenings
  newest first (`ScreeningService`, `ScreeningRepository`).
- **The page envelope** of list endpoints: the page count, and the
  next-page and previous-page flags (`Pagination`).
- **The receipt-printer service** (`PrinterService`):
  - the label/value line format;
  - `CombineBytes`, which concatenates ESC/POS byte arrays into a new
    array with `Buffer.BlockCopy`;
  - the required-field check of the donor print job;
  - the order of the three slips in one job;
  - the test page's own copy loop;
  - the responses for success, a refused send and an exception.

The .NET behaviour these rest on is written out in `DotNetText`:
`int.TryParse` with the default integer style, the "D4" format, unchecked
`int` addition, `Trim`, `IsNullOrWhiteSpace`, and ASCII
`ToUpper`/`ToLower`.

The database is a `Store` object whose tables are sequences. Its
invariant is the schema's primary keys, the unique indexes on `CouponCode`
and `NationalId`, and the screenings' foreign keys. A save that would
break them fails with `DbUpdate` and changes nothing. Clock readings, new
keys, date parsing and the printer are parameters of the operations.

Some behaviours of the code are surprising:

- While every stored numeric code is below `int.MaxValue`, the allocated
  code is numerically above all of them, so it clashes with no stored
  code, not even ignoring case.
- Non-numeric legacy codes such as the seeded "BLOOD2024" are skipped.
- After "9999" the code widens to "10000".
- At `int.MaxValue` the increment wraps to `int.MinValue`, printed as
  "-2147483648", and that code may already be stored.

## Model

| member | source | states |
|---|---|---|
| DotNetText.Wrap32 | BloodConnect.Services/Services/DonorService.cs:142 | unchecked `maxNumber + 1`: the result is a 32-bit value, equals the exact sum when that fits, and differs from it by a multiple of 2^32 |
| DotNetText.WrapPastMax | BloodConnect.Services/Services/DonorService.cs:142 | `int.MaxValue + 1` wraps to `int.MinValue` |
| DotNetText.Trim | BloodConnect.Services/Services/DonorService.cs:41-48 | the result is the part of the input between a leading and a trailing run of white space, and it neither starts nor ends with white space |
| DotNetText.TrimIdempotent | BloodConnect.Services/Services/DonorService.cs:41-48 | trimming an already trimmed field changes nothing |
| DotNetText.BlankIffTrimEmpty | BloodConnect.Services/Services/PrinterService.cs:80-82 | a string is blank in the sense of `IsNullOrWhiteSpace` exactly when its trim is empty |
| DotNetText.IsNullOrWhiteSpace | BloodConnect.Services/Services/PrinterService.cs:80-82 | definition: a null string, or one made only of `Char.IsWhiteSpace` characters |
| DotNetText.ToUpper | BloodConnect.Infrastructure/Repositories/DonorRepository.cs:17 | the result has the input's length and each character upper-cased |
| DotNetText.ToLower | BloodConnect.Services/Services/DonorService.cs:45 | the result has the input's length and each character lower-cased |
| DotNetText.FormatD4 | BloodConnect.Infrastructure/Repositories/DonorRepository.cs:72 | definition: the decimal digits of the magnitude, left-padded with zeros to four, after a '-' for a negative value; its properties are `FormatD4Digits` and `ParseFormatD4` |
| DotNetText.FormatD4Digits | BloodConnect.Infrastructure/Repositories/DonorRepository.cs:71-72 | "D4" of a non-negative value is at least four decimal digits spelling that value, with no leading zero beyond the fourth position from the right; a negative value gets '-' and the same spelling of its magnitude |
| DotNetText.TryParseInt32 | BloodConnect.Infrastructure/Repositories/DonorRepository.cs:62 | `int.TryParse` with the default integer style; a value it reports is a 32-bit value |
| DotNetText.ParseInt32 | BloodConnect.Services/Services/DonorService.cs:141 | `int.Parse` succeeds exactly when `int.TryParse` does, with the same value; it fails with a format error exactly on strings that are not an optionally signed digit string inside optional white space, and with an overflow exactly on well-formed numbers outside 32 bits |
| DotNetText.ParseOutOfRange | BloodConnect.Services/Services/DonorService.cs:141 | the "D4" spelling of a value outside 32 bits makes `int.Parse` overflow, not fail on the format |
| DotNetText.ParseFormatD4 | BloodConnect.Services/Services/DonorService.cs:141-143 | `int.Parse` reads back every 32-bit value that "D4" printed |
| DotNetText.ParseUntrimmed | BloodConnect.Infrastructure/Repositories/DonorRepository.cs:62-63 | a string with no number white space at either end parses as its optional sign and digits |
| DotNetText.NonNumericPrefixRejected | BloodConnect.Infrastructure/Repositories/DonorRepository.cs:62-63 | a code whose first character is not white space, a sign or a digit is not numeric |
| DonorRepository.CouponCodes | BloodConnect.Infrastructure/Repositories/DonorRepository.cs:51-53 | the coupon column holds one code per donor, in table order |
| DonorRepository.GetByCouponCode | BloodConnect.Infrastructure/Repositories/DonorRepository.cs:14-18 | `None` exactly when no donor's code matches ignoring case; otherwise a donor that matches (the model picks the first in table order; the query fixes no order, but the unique index on the code leaves at most one match for codes stored in one letter case) |
| DonorRepository.ExistsByCouponCode | BloodConnect.Infrastructure/Repositories/DonorRepository.cs:20-24 | definition: some donor's code equals the given one after upper-casing both |
| DonorRepository.ExistsByNationalId | BloodConnect.Infrastructure/Repositories/DonorRepository.cs:26-30 | definition: some donor's national ID equals the given one exactly |
| DonorRepository.ExistsIffFound | BloodConnect.Infrastructure/Repositories/DonorRepository.cs:20-24 | the existence check succeeds exactly when the lookup finds a donor |
| DonorRepository.CouponLookupIgnoresCase | BloodConnect.Infrastructure/Repositories/DonorRepository.cs:14-24 | codes that differ only in letter case find the same donor and give the same existence answer |
| DonorRepository.ExistsByPhoneAndDob | BloodConnect.Infrastructure/Repositories/DonorRepository.cs:32-37 | the phone/date-of-birth check never reports a duplicate |
| DonorRepository.NumericCoupons | BloodConnect.Infrastructure/Repositories/DonorRepository.cs:61-64 | the parsed list holds exactly the values that some stored code parses to |
| DonorRepository.Max | BloodConnect.Infrastructure/Repositories/DonorRepository.cs:71 | LINQ `Max` of a non-empty list: an element of the list that no element exceeds |
| DonorRepository.MaxNumericValue | BloodConnect.Infrastructure/Repositories/DonorRepository.cs:71 | the maximum is the value of some stored code, no numeric code exceeds it, and it is a 32-bit value |
| DonorRepository.GetMaxCouponCode | BloodConnect.Infrastructure/Repositories/DonorRepository.cs:49-73 | "0000" when no stored code is numeric (the empty table included); otherwise the "D4" spelling of the largest numeric value |
| DonorRepository.MaxNumericValueOf | BloodConnect.Infrastructure/Repositories/DonorRepository.cs:71 | any value that is the largest numeric code is the one the scan reports |
| DonorRepository.MaxCouponCodeRoundTrip | BloodConnect.Infrastructure/Repositories/DonorRepository.cs:49-73 | the reported code always parses, is the "D4" spelling of its own value, and that value is the table's numeric maximum when there is one |
| DonorRepository.MaxNumericCodeUnique | BloodConnect.Infrastructure/Repositories/DonorRepository.cs:71 | two values that are both the numeric maximum are equal |
| DonorRepository.MaxCouponCodeOrderInsensitive | BloodConnect.Infrastructure/Repositories/DonorRepository.cs:51-72 | the reported maximum depends only on which codes are stored, not on their order or repetition |
| DonorRepository.SeededMaxCouponCode | BloodConnect.Infrastructure/Seeds/DataSeeder.cs:137-159 | the seeded codes "BLOOD2024" and "GIVE2024" are not numeric, so the maximum is "0000", as for an empty table |
| CouponAllocator.NextCouponCode | BloodConnect.Services/Services/DonorService.cs:141-143 | an error exactly when the maximum does not parse: `Overflow` for a well-formed number outside 32 bits, `Format` otherwise; on success the wrapped successor in "D4" form |
| CouponAllocator.NextCouponCodeOverflow | BloodConnect.Services/Services/DonorService.cs:141 | a maximum one past `int.MaxValue` gives `Overflow`, not `Format` |
| CouponAllocator.AllocatedCode | BloodConnect.Services/Services/DonorService.cs:138-144 | definition: `NextCouponCode` of the repository's maximum for the stored codes; its properties are the `AllocatedCode` lemmas below |
| CouponAllocator.NextCouponCodeRoundTrip | BloodConnect.Services/Services/DonorService.cs:141-143 | the new code parses back to exactly the wrapped successor of the maximum |
| CouponAllocator.AllocatedCodeIsOk | BloodConnect.Services/Services/DonorService.cs:138-144 | the parse of the repository's maximum never fails, so allocation never throws |
| CouponAllocator.AllocatedWithoutNumericCode | BloodConnect.Services/Services/DonorService.cs:138-144 | a table with no numeric code gets "0001" |
| CouponAllocator.AllocatedCodeIsSuccessor | BloodConnect.Services/Services/DonorService.cs:138-144 | below `int.MaxValue`, codes are consecutive: "0001" without a numeric code, otherwise the "D4" spelling of the maximum plus one |
| CouponAllocator.AllocatedFromMaxValue | BloodConnect.Services/Services/DonorService.cs:140-143 | with a numeric code stored, the allocated code is the "D4" spelling of the maximum plus one, wrapped to 32 bits |
| CouponAllocator.AllocatedCodeIsFresh | BloodConnect.Services/Services/DonorService.cs:138-144 | below `int.MaxValue`, the allocated code parses to a value above every stored numeric code and equals no stored code, not even ignoring case |
| CouponAllocator.AllocatedCodeWrapsAtInt32Max | BloodConnect.Services/Services/DonorService.cs:142-143 | when the maximum is `int.MaxValue`, the allocated code parses to `int.MinValue`, at or below every stored numeric code |
| CouponAllocator.AllocatedCodeForSeededTable | BloodConnect.Infrastructure/Seeds/DataSeeder.cs:137-159 | the seeded table and the empty table both get "0001" |
| CouponAllocator.AllocatedCodeAfterGap | BloodConnect.Infrastructure/Repositories/DonorRepository.cs:61-72 | {"0001", "0002", "0099"} gets "0100": the maximum, not the count, decides |
| CouponAllocator.AllocatedCodeSkipsLegacy | BloodConnect.Infrastructure/Repositories/DonorRepository.cs:61-64 | {"0001", "ABC123", "0007"} gets "0008": the non-numeric code is skipped |
| CouponAllocator.AllocatedCodeWidens | BloodConnect.Services/Services/DonorService.cs:143 | after "9999" the code widens to "10000" |
| DonorService.GetNextCouponCode | BloodConnect.Services/Services/DonorService.cs:138-144 | returns the allocator's code for the stored table; below `int.MaxValue` it matches no stored code ignoring case |
| DonorService.CreateDonor | BloodConnect.Services/Services/DonorService.cs:16-66 | a duplicate national ID is rejected first, then an unparsable date of birth, each changing nothing; otherwise a donor with trimmed name, phone, e-mail and national ID, lower-cased gender, the allocated coupon code and equal creation and update times is appended; the save fails only on a clashing key or national ID, and with a fresh key and national ID below `int.MaxValue` it succeeds |
| DonorService.FreshCodeInsertable | BloodConnect.Infrastructure/Data/BloodConnectDbContext.cs:26-29 | a row whose coupon code matches no stored code can be saved exactly when its key and national ID are new |
| DonorService.GetDonorById | BloodConnect.Services/Services/DonorService.cs:68-77 | the donor with that key, or `KeyNotFound` exactly when there is none |
| DonorService.GetDonorByCouponCode | BloodConnect.Services/Services/DonorService.cs:79-83 | null exactly when no code matches ignoring case; otherwise a stored donor whose code matches |
| DonorService.UpdateDonor | BloodConnect.Services/Services/DonorService.cs:99-124 | `KeyNotFound` for an unknown key, changing nothing; otherwise that one row gets the trimmed name, phone and e-mail, the address and the update time, and every other column (the coupon code included) and every other row is unchanged |
| DonorService.GetDonorScreenings | BloodConnect.Services/Services/DonorService.cs:126-136 | `KeyNotFound` exactly for an unknown donor; otherwise that donor's screenings, newest first, a permutation of that donor's rows |
| Database.FindDonor | BloodConnect.Services/Services/DonorService.cs:101-105 | `None` exactly when no donor has the key; otherwise the position of that donor |
| Database.ReplaceDonorKeepsConstraints | BloodConnect.Infrastructure/Data/Migrations/20260211170810_InitialCreate.cs:107-127 | replacing a donor row by one with the same key and unique columns keeps the keys unique and every screening's foreign keys valid |
| Database.AppendDonorKeepsConstraints | BloodConnect.Infrastructure/Data/Migrations/20260211170810_InitialCreate.cs:151-161 | appending a donor row that passes the key and unique-index checks keeps the constraints |
| Database.AppendScreeningKeepsConstraints | BloodConnect.Infrastructure/Data/Migrations/20260211170810_InitialCreate.cs:107-127 | appending a screening row whose key is new and whose foreign keys resolve keeps the screening table consistent |
| Database.Store.InsertDonor | BloodConnect.Services/Services/DonorService.cs:62-63 | the row is appended when no key or unique column clashes; otherwise `DbUpdate` and the table is unchanged |
| Database.Store.InsertScreening | BloodConnect.Services/Services/ScreeningService.cs:70-80 | the row is appended when its key is new and its foreign keys resolve; otherwise `DbUpdate` and the table is unchanged |
| ScreeningRepository.ScreeningsOf | BloodConnect.Infrastructure/Repositories/ScreeningRepository.cs:17 | exactly the rows with the donor's key |
| ScreeningRepository.InsertNewestFirst | BloodConnect.Infrastructure/Repositories/ScreeningRepository.cs:21 | inserting into a newest-first list keeps it newest first and adds exactly that row |
| ScreeningRepository.OrderByCreatedDesc | BloodConnect.Infrastructure/Repositories/ScreeningRepository.cs:21 | the result is newest first and a permutation of the input |
| ScreeningRepository.GetByDonorId | BloodConnect.Infrastructure/Repositories/ScreeningRepository.cs:14-23 | newest first, a permutation of the donor's rows, and holding exactly the rows with the donor's key |
| ScreeningService.UnknownDeferralReason | BloodConnect.Services/Services/ScreeningService.cs:33-40 | definition: the status is exactly "deferred", a reason key is given, and no reason has that key |
| ScreeningService.NewScreening | BloodConnect.Services/Services/ScreeningService.cs:48-68 | definition: the new row with the request's keys, staff and vitals, trimmed notes, lower-cased status, the reason key as given, the parsed deferral date and the creation time |
| ScreeningService.DeferralUntil | BloodConnect.Services/Services/ScreeningService.cs:42-46 | a deferral date is set exactly when the text is non-null, non-empty and parses, and it is the parsed date |
| ScreeningService.CreateScreening | BloodConnect.Services/Services/ScreeningService.cs:16-83 | unknown donor, then unknown branch, then (for the exact status "deferred") unknown deferral reason are rejected, each changing nothing; otherwise the built row is appended and, when the stored status is "eligible", that donor's last donation date and update time are set and nothing else changes; a failed save keeps neither change and happens only on a reused key or an unknown reason with a status other than "deferred" |
| ScreeningService.GetScreeningsByDonorId | BloodConnect.Services/Services/ScreeningService.cs:110-120 | `KeyNotFound` exactly for an unknown donor; otherwise exactly that donor's screenings, newest first |
| Pagination.PaginatedResponse.TotalPages | BloodConnect.Core/DTOs/PaginatedResponse.cs:9 | the page count is the ceiling of count over size: enough pages for every item, and one fewer is not enough (mirrored for a negative size) |
| Pagination.PaginatedResponse.HasNextPage | BloodConnect.Core/DTOs/PaginatedResponse.cs:10 | definition: the page number is below the page count |
| Pagination.PaginatedResponse.HasPreviousPage | BloodConnect.Core/DTOs/PaginatedResponse.cs:11 | definition: the page number is above 1 |
| Pagination.CeilDiv | BloodConnect.Core/DTOs/PaginatedResponse.cs:9 | the ceiling of the quotient for a divisor of either sign |
| Pagination.CeilDivUnique | BloodConnect.Core/DTOs/PaginatedResponse.cs:9 | the ceiling is the only integer in that position |
| Pagination.TotalPagesIsCeiling | BloodConnect.Core/DTOs/PaginatedResponse.cs:9 | for a positive page size the page count is the least number of pages that holds every item, and 0 exactly for an empty result |
| Pagination.HasNextPageIffItemsRemain | BloodConnect.Core/DTOs/PaginatedResponse.cs:9-10 | there is a next page exactly when items remain after the current page |
| Pagination.EmptyHasNoNextPage | BloodConnect.Core/DTOs/PaginatedResponse.cs:9-10 | an empty result has no pages and no next page |
| Pagination.NavigationStaysInRange | BloodConnect.Core/DTOs/PaginatedResponse.cs:9-11 | on a page in range, the page holds at least one item; there is a next page exactly when it is not the last page and a previous page exactly when it is not page 1; and the neighbour the flag offers is itself a page in range |
| PrinterService.FormatLineString | BloodConnect.Services/Services/PrinterService.cs:388-392 | the line is the label, ':' and ten dots, then the value |
| PrinterService.FormatLineIgnoresWidth | BloodConnect.Services/Services/PrinterService.cs:388-392 | the computed padding is never used: the width does not change the line |
| PrinterService.TotalLength | BloodConnect.Services/Services/PrinterService.cs:396 | definition: the sum of the block lengths |
| PrinterService.Flatten | BloodConnect.Services/Services/PrinterService.cs:396 | the concatenation is as long as the sum of the block lengths |
| PrinterService.SumLengthsIsTotal | BloodConnect.Services/Services/PrinterService.cs:396-397 | the summed array lengths equal the length of their contents laid end to end |
| PrinterService.FlattenLayout | BloodConnect.Services/Services/PrinterService.cs:398-404 | block `i` sits in the result starting at the sum of the lengths before it |
| PrinterService.FlattenAppend | BloodConnect.Services/Services/PrinterService.cs:398-404 | concatenating two lists of blocks is concatenating their concatenations |
| PrinterService.BlockCopy | BloodConnect.Services/Services/PrinterService.cs:402 | the counted range of the source is copied to the destination offset and the rest of the destination is unchanged |
| PrinterService.CombineBytes | BloodConnect.Services/Services/PrinterService.cs:394-407 | a new array holding the inputs' bytes one after another |
| PrinterService.AppendBlock | BloodConnect.Services/Services/PrinterService.cs:402-403 | one loop step: the block follows the bytes already written and the offset moves past it |
| PrinterService.MissingRequiredFields | BloodConnect.Services/Services/PrinterService.cs:80-82 | definition: name, national ID or coupon code is null, empty or white space |
| PrinterService.RequiredFieldsIffTrimmedText | BloodConnect.Services/Services/PrinterService.cs:80-82 | the check passes exactly when name, national ID and coupon code are all present and non-empty after trimming |
| PrinterService.PrintDonorSlips | BloodConnect.Services/Services/PrinterService.cs:76-141 | a missing field gives "Missing required fields" and nothing is sent; otherwise the job is the donor copy, the lucky-draw slip and the office copy in that order; success (echoing the coupon code) exactly when the printer accepts it, with the refusal and exception messages otherwise |
| PrinterService.PrintTestPage | BloodConnect.Services/Services/PrinterService.cs:143-206 | the job is the command blocks one after another, the same bytes `CombineBytes` builds; success or the refusal and exception messages follow the printer's answer |

## Left out

- Concurrency: two registrations that read the same maximum get the same code. The second save then fails on the unique index. The source has no retry and no lock, and the model has no interleaving.
- `int.TryParse` and `int.Parse` under culture-specific signs, trailing NUL characters, and other number styles. The default integer style over ASCII is modelled.
- `ToUpper` and `ToLower` map ASCII letters only. Culture-specific and non-ASCII case mappings are not modelled.
- The database collation: unique indexes and the national-ID check compare strings exactly. The coupon lookup upper-cases both sides, as the query does.
- Column maximum lengths, `[Required]` attributes and model validation happen outside the services and are not checked.
- Null strings exist only in the print request, where `IsNullOrWhiteSpace` tests them. Other request fields are non-null strings.
- `GetDonorsAsync`, `GetScreeningsAsync`, `GetScreeningByIdAsync` and the response mapping are not part of this model. They are paging and projection queries with no rule beyond the page envelope.
- Printer I/O: printer enumeration, the raw spooler call and the ESC/POS command builders for each slip. The slips' byte blocks and the printer's answer are inputs.
- Clocks, the Pakistan time-zone conversion, date formatting and `DateTime.TryParse` are parameters.
- Authentication and controllers are not modelled.
- CombineBytes: the `Sum` of lengths is unbounded here. A 32-bit overflow of the total length (jobs over 2 GB) is not modelled.
- The `Donor` entity stores `Age`, but the service writes `DateOfBirth`. The model follows the service and keeps a date of birth.
- Pagination.PaginatedResponse.TotalPages: a page size of 0 is excluded, since the division by zero gives infinity and the cast is undefined. For `TotalCount = int.MinValue` with `PageSize = -1` the ceiling 2^31 does not fit in `int`; the model returns 2^31, while the unchecked cast of that double is unspecified.
- Negative values, the wrap at `int.MaxValue` and codes longer than four digits after 9999 are modelled as the code produces them.
- The deferral-reason check compares the raw status with "deferred" and is case-sensitive. "Deferred" with an unknown reason therefore passes the check, and the save then fails on the foreign key (`DbUpdate`).
- The decimal vitals (weight, temperature, haemoglobin) are carried as opaque values. No arithmetic is done on them.
- Rows with equal `CreatedAt` may come back from the database in any order. The model fixes one order, which the newest-first property allows.
