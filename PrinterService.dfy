/** The in-process part of the receipt printer service: the line format,
    the byte-array concatenation that builds a print job, the required-field
    check and the slip order of the donor print job, and the test page.
    The ESC/POS byte blocks each slip consists of are inputs, and sending
    to the printer is a parameter that reports what the spooler did. */
module PrinterService {
  import opened Wrappers
  import opened DotNetText

  type Byte = bv8

  const MissingFieldsError: string := "Missing required fields"
  const SlipsPrintedMessage: string := "Slips printed successfully"
  const PrintFailedPrefix: string := "Print failed: "
  const SlipsSendFailedMessage: string := "Failed to send print job to printer"
  const TestPagePrintedMessage: string := "Test page printed successfully"
  const TestPrintFailedPrefix: string := "Test print failed: "
  const TestPageSendFailedMessage: string := "Failed to send test print job to printer"

  /** What handing a job to the printer did: accepted it, returned false,
      or raised an exception with the given message. */
  datatype SendOutcome = Sent | Refused | Threw(message: string)

  /** `None` for a null string. */
  datatype PrintDonorSlipsRequest = PrintDonorSlipsRequest(
    fullName: Option<string>,
    nationalId: Option<string>,
    couponCode: Option<string>)

  datatype PrintResponse = PrintResponse(
    success: bool,
    message: Option<string>,
    error: Option<string>,
    couponCode: Option<string>)

  // ---------------------------------------------------------------------
  // Line format

  /** `FormatLineString`: the label, a colon and ten dots, then the value.
      The padding computed from `width` is never used. */
  function FormatLineString(labelText: string, value: string, width: int): (r: string)
    ensures |r| == |labelText| + 11 + |value|
    ensures r[..|labelText|] == labelText && r[|labelText| + 11..] == value
    ensures r[|labelText|] == ':' && forall i :: |labelText| < i < |labelText| + 11 ==> r[i] == '.'
  {
    labelText + ":.........." + value
  }

  /** The width argument has no effect on the line. */
  lemma FormatLineIgnoresWidth(labelText: string, value: string, w1: int, w2: int)
    ensures FormatLineString(labelText, value, w1) == FormatLineString(labelText, value, w2)
  {
  }

  // ---------------------------------------------------------------------
  // Concatenation of byte blocks

  /** The blocks one after another. */
  function Flatten(blocks: seq<seq<Byte>>): (r: seq<Byte>)
    ensures |r| == TotalLength(blocks)
  {
    if blocks == [] then [] else Flatten(blocks[..|blocks| - 1]) + blocks[|blocks| - 1]
  }

  /** `arrays.Sum(a => a.Length)`. */
  function TotalLength(blocks: seq<seq<Byte>>): nat {
    if blocks == [] then 0 else TotalLength(blocks[..|blocks| - 1]) + |blocks[|blocks| - 1]|
  }

  function SumLengths(arrays: seq<array<Byte>>): nat {
    if arrays == [] then 0 else SumLengths(arrays[..|arrays| - 1]) + arrays[|arrays| - 1].Length
  }

  /** The current contents of the arrays. */
  function Contents(arrays: seq<array<Byte>>): (r: seq<seq<Byte>>)
    reads set i | 0 <= i < |arrays| :: arrays[i]
    ensures |r| == |arrays|
    ensures forall i :: 0 <= i < |arrays| ==> r[i] == arrays[i][..]
  {
    seq(|arrays|, i reads set j | 0 <= j < |arrays| :: arrays[j] requires 0 <= i < |arrays| => arrays[i][..])
  }

  lemma {:induction false} SumLengthsIsTotal(arrays: seq<array<Byte>>)
    ensures SumLengths(arrays) == TotalLength(Contents(arrays))
  {
    if arrays != [] {
      SumLengthsIsTotal(arrays[..|arrays| - 1]);
      assert Contents(arrays)[..|arrays| - 1] == Contents(arrays[..|arrays| - 1]);
    }
  }

  /** Block `i` occupies `[TotalLength(blocks[..i]), + |blocks[i]|)` of
      the concatenation. */
  lemma {:induction false} FlattenLayout(blocks: seq<seq<Byte>>, i: nat, j: nat)
    requires i < |blocks| && j < |blocks[i]|
    ensures TotalLength(blocks[..i]) + j < |Flatten(blocks)|
    ensures Flatten(blocks)[TotalLength(blocks[..i]) + j] == blocks[i][j]
  {
    var n := |blocks| - 1;
    var front := blocks[..n];
    if i < n {
      FlattenLayout(front, i, j);
      assert front[..i] == blocks[..i];
    } else {
      assert blocks[..i] == front;
    }
  }

  /** Concatenation distributes over splitting the list of blocks. */
  lemma {:induction false} FlattenAppend(a: seq<seq<Byte>>, b: seq<seq<Byte>>)
    ensures Flatten(a + b) == Flatten(a) + Flatten(b)
  {
    if b != [] {
      var n := |b| - 1;
      FlattenAppend(a, b[..n]);
      assert (a + b)[..|a + b| - 1] == a + b[..n];
    } else {
      assert a + b == a;
    }
  }

  /** `Buffer.BlockCopy(src, srcOffset, dst, dstOffset, count)` between two
      different arrays. */
  method BlockCopy(src: array<Byte>, srcOffset: nat, dst: array<Byte>, dstOffset: nat, count: nat)
    requires src != dst
    requires srcOffset + count <= src.Length && dstOffset + count <= dst.Length
    modifies dst
    ensures dst[..dstOffset] == old(dst[..dstOffset])
    ensures dst[dstOffset..dstOffset + count] == src[srcOffset..srcOffset + count]
    ensures dst[dstOffset + count..] == old(dst[dstOffset + count..])
  {
    var k := 0;
    while k < count
      invariant 0 <= k <= count
      invariant dst[..dstOffset] == old(dst[..dstOffset])
      invariant dst[dstOffset..dstOffset + k] == src[srcOffset..srcOffset + k]
      invariant dst[dstOffset + count..] == old(dst[dstOffset + count..])
    {
      dst[dstOffset + k] := src[srcOffset + k];
      k := k + 1;
    }
  }

  /** `CombineBytes`: a new array holding the inputs one after another;
      the inputs are only read. */
  method CombineBytes(arrays: seq<array<Byte>>) returns (result: array<Byte>)
    ensures fresh(result)
    ensures result[..] == Flatten(Contents(arrays))
  {
    ghost var blocks := Contents(arrays);
    SumLengthsIsTotal(arrays);
    var totalLength := SumLengths(arrays);
    result := new Byte[totalLength];
    var offset := 0;
    for i := 0 to |arrays|
      invariant forall k :: 0 <= k < |arrays| ==> arrays[k] != result && arrays[k][..] == blocks[k]
      invariant offset == TotalLength(blocks[..i]) <= totalLength
      invariant result[..offset] == Flatten(blocks[..i])
    {
      CopyStep(blocks, i);
      offset := AppendBlock(result, offset, arrays[i], Flatten(blocks[..i]));
    }
    assert blocks[..|arrays|] == blocks;
  }

  /** One iteration of the copy loop: the block is copied in at `offset`
      and the offset moves past it. */
  method AppendBlock(result: array<Byte>, offset: nat, block: array<Byte>, ghost done: seq<Byte>)
    returns (next: nat)
    requires block != result && offset + block.Length <= result.Length
    requires result[..offset] == done
    modifies result
    ensures next == offset + block.Length
    ensures result[..next] == done + block[..]
  {
    BlockCopy(block, 0, result, offset, block.Length);
    AppendedSlice(result[..], offset, block.Length);
    next := offset + block.Length;
  }

  lemma AppendedSlice(s: seq<Byte>, offset: nat, count: nat)
    requires offset + count <= |s|
    ensures s[..offset + count] == s[..offset] + s[offset..offset + count]
  {
  }

  /** The running offset and contents after one more block. */
  lemma CopyStep(blocks: seq<seq<Byte>>, i: nat)
    requires i < |blocks|
    ensures Flatten(blocks[..i + 1]) == Flatten(blocks[..i]) + blocks[i]
    ensures TotalLength(blocks[..i + 1]) <= TotalLength(blocks)
  {
    var front := blocks[..i + 1];
    assert front[..|front| - 1] == blocks[..i];
    PrefixLengthBound(blocks, i + 1);
  }

  /** A prefix of the blocks is no longer than all of them. */
  lemma PrefixLengthBound(blocks: seq<seq<Byte>>, i: nat)
    requires i <= |blocks|
    ensures TotalLength(blocks[..i]) <= TotalLength(blocks)
  {
    assert blocks == blocks[..i] + blocks[i..];
    FlattenAppend(blocks[..i], blocks[i..]);
  }

  // ---------------------------------------------------------------------
  // Donor slips

  /** Name, national ID or coupon code is null, empty or blank. */
  predicate MissingRequiredFields(request: PrintDonorSlipsRequest) {
    || IsNullOrWhiteSpace(request.fullName)
    || IsNullOrWhiteSpace(request.nationalId)
    || IsNullOrWhiteSpace(request.couponCode)
  }

  /** The check passes exactly when all three fields are present and keep
      some text after trimming. */
  lemma RequiredFieldsIffTrimmedText(request: PrintDonorSlipsRequest)
    ensures !MissingRequiredFields(request) <==>
              && request.fullName.Some? && Trim(request.fullName.value) != []
              && request.nationalId.Some? && Trim(request.nationalId.value) != []
              && request.couponCode.Some? && Trim(request.couponCode.value) != []
  {
    if request.fullName.Some? { BlankIffTrimEmpty(request.fullName.value); }
    if request.nationalId.Some? { BlankIffTrimEmpty(request.nationalId.value); }
    if request.couponCode.Some? { BlankIffTrimEmpty(request.couponCode.value); }
  }

  /** `PrintDonorSlipsAsync`: rejects a request with a missing field before
      anything is sent; otherwise writes the donor copy, the lucky-draw slip
      and the office copy into one job, in that order, and sends it. `job`
      is what was handed to the printer. */
  method PrintDonorSlips(
    request: PrintDonorSlipsRequest,
    donorCopy: seq<Byte>, luckyDraw: seq<Byte>, officeCopy: seq<Byte>,
    send: seq<Byte> -> SendOutcome)
    returns (response: PrintResponse, job: Option<seq<Byte>>)
    ensures MissingRequiredFields(request) ==>
              job == None && response == PrintResponse(false, None, Some(MissingFieldsError), None)
    ensures !MissingRequiredFields(request) ==> job == Some(donorCopy + luckyDraw + officeCopy)
    ensures job.Some? && send(job.value) == Sent ==>
              response == PrintResponse(true, Some(SlipsPrintedMessage), None, request.couponCode)
    ensures job.Some? && send(job.value) == Refused ==>
              response == PrintResponse(false, None, Some(PrintFailedPrefix + SlipsSendFailedMessage), None)
    ensures job.Some? && send(job.value).Threw? ==>
              response == PrintResponse(false, None, Some(PrintFailedPrefix + send(job.value).message), None)
    ensures response.success <==> job.Some? && send(job.value) == Sent
  {
    if MissingRequiredFields(request) {
      return PrintResponse(false, None, Some(MissingFieldsError), None), None;
    }
    var stream: seq<Byte> := [];
    assert stream + donorCopy == donorCopy;
    stream := stream + donorCopy;
    stream := stream + luckyDraw;
    stream := stream + officeCopy;
    job := Some(stream);
    match send(stream)
    case Sent =>
      response := PrintResponse(true, Some(SlipsPrintedMessage), None, request.couponCode);
    case Refused =>
      response := PrintResponse(false, None, Some(PrintFailedPrefix + SlipsSendFailedMessage), None);
    case Threw(message) =>
      response := PrintResponse(false, None, Some(PrintFailedPrefix + message), None);
  }

  // ---------------------------------------------------------------------
  // Test page

  /** `PrintTestPageAsync`: concatenates the test page's command blocks with
      its own copy loop, giving the same bytes as `CombineBytes`, and sends
      them. */
  method PrintTestPage(commands: seq<array<Byte>>, send: seq<Byte> -> SendOutcome)
    returns (response: PrintResponse, job: seq<Byte>)
    ensures job == Flatten(Contents(commands))
    ensures send(job) == Sent ==> response == PrintResponse(true, Some(TestPagePrintedMessage), None, None)
    ensures send(job) == Refused ==>
              response == PrintResponse(false, None, Some(TestPrintFailedPrefix + TestPageSendFailedMessage), None)
    ensures send(job).Threw? ==>
              response == PrintResponse(false, None, Some(TestPrintFailedPrefix + send(job).message), None)
  {
    ghost var blocks := Contents(commands);
    SumLengthsIsTotal(commands);
    var totalLength := SumLengths(commands);
    var allBytes := new Byte[totalLength];
    var offset := 0;
    for i := 0 to |commands|
      invariant forall k :: 0 <= k < |commands| ==> commands[k] != allBytes && commands[k][..] == blocks[k]
      invariant offset == TotalLength(blocks[..i]) <= totalLength
      invariant allBytes[..offset] == Flatten(blocks[..i])
    {
      CopyStep(blocks, i);
      offset := AppendBlock(allBytes, offset, commands[i], Flatten(blocks[..i]));
    }
    assert blocks[..|commands|] == blocks;
    job := allBytes[..];
    match send(job)
    case Sent =>
      response := PrintResponse(true, Some(TestPagePrintedMessage), None, None);
    case Refused =>
      response := PrintResponse(false, None, Some(TestPrintFailedPrefix + TestPageSendFailedMessage), None);
    case Threw(message) =>
      response := PrintResponse(false, None, Some(TestPrintFailedPrefix + message), None);
  }
}
