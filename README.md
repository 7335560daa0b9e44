# DNS wire engine of the Tor DNS servers, modelled in Dafny

This project models the DNS wire engine of `DNS/Helper/DNSFunctions.py` as the
code is written, quirks included, and proves what it does. The engine is the part
of the authoritative DNS server that turns a query datagram into a response:

- `RECORD_TYPES`: the record-type table.
- `getFlags`: the flag builder.
- `getQuestionDomain`: the question-name walker.
- `buildQuestion` and `recordToBytes`: the question and answer encoders.
- `getZone`, `getFakeZone` and `getRecs`: the zone lookup.
- `getLetterCaseSwapped`: the 0x20 case permutation.
- `getResponse`: response assembly, with its `COUNTER` and its log.
- `generateResponseWithRequestId` and `generateResponseWithPortNumber`: the
  adversary's forging fan-out.

Modules, one file each:

| file | module | models |
|---|---|---|
| `common.dfy` | `Common` | bytes, `Option`/`Result`, and the Python builtins the engine relies on (`to_bytes`, slicing, `'.'.join`, `split('.')`, `lower()`, `int()`, `str()`) |
| `record_types.dfy` | `RecordTypes` | `RECORD_TYPES` and the code-to-name chain of `getRecs` |
| `flags.dfy` | `Flags` | `getFlags` |
| `question.dfy` | `Question` | `getQuestionDomain` and `buildQuestion` |
| `answer.dfy` | `Answer` | `recordToBytes` |
| `zone.dfy` | `ZoneStore` | `getZone`/`getFakeZone` and `getRecs` |
| `case_swap.dfy` | `CaseSwap` | `getLetterCaseSwapped` |
| `response.dfy` | `ResponseEngine` | `getResponse`, as class `Engine` holding the zones, `COUNTER` and the log |
| `forge.dfy` | `ForgeEmitter` | the two forging loops, sending through class `Socket` |

How the source's shapes are modelled:

- **Loops.** Each loop of the source is a method whose `ensures` ties it to a
  specification function. The properties are lemmas about those functions.
- **Exceptions.** Exceptions that escape are `None` or `Failure(...)` results,
  with one constructor per cause. Exceptions the code catches are modelled as
  the code handles them: the fallback in `getFlags`, `''` from `getZone`, the
  `ERROR` tuple from `getRecs`, and the end of the batch in the forging loops.
- **Randomness.** The coin flips of `random.choice` are a parameter
  `draws: nat -> bool`. The numbers drawn by `random.randint(1, 65536)` are a
  parameter `draws: seq<int>`.
- **Logging.** Logging and the JSON request files are abstracted as a log
  (`Engine.log`). A call appends the error traces of `getZone`/`getRecs`, then
  one request row carrying the counter, status, type, source, domain, modified
  domain and request category.

Where the code and the description of the system disagree, the model follows
the code. Of the datagrams shorter than a 12-byte header, only those under 3
bytes raise, at `ord(b'')` in `getFlags` (`Fault.ShortDatagram`). A datagram of
3 to 11 bytes is answered, with the `''` sentinel as its question.

`getResponse` also raises in three other cases, each with its own `Fault`:

- `AnswerCountOverflow`: 65536 records or more, because `to_bytes(2)` of ANCOUNT raises.
- `QuestionNotEncodable`: the question has a part over 255 characters or a character over 255. A 0x20 case swap can cause this: 'ß' becomes "SS", and 'µ' and 'ÿ' swap above 255.
- `AnswerNotEncodable`: a record has a TTL outside 32 bits or an address part that is not a decimal byte.

## Model

| member | source | states |
|---|---|---|
| `RecordTypes.TypeCode` | DNS/Helper/DNSFunctions.py:36-43 | every named type has a two-byte code whose high byte is 0 |
| `RecordTypes.TypeName` | DNS/Helper/DNSFunctions.py:481-495 | the name is `''` or the one name whose code is the question type; every code in the table maps back to its own name |
| `Flags.GetFlags` | DNS/Helper/DNSFunctions.py:333-372 | the OPCODE loop over bits 1-4, the parse and its fallback compute `FlagsOf` |
| `Flags.MaskedText` | DNS/Helper/DNSFunctions.py:347-348 | each opcode group is "0" for a clear bit, and for a set bit holds a digit of 2 or more ("2", "4", "8", "16") |
| `Flags.BinaryDigits` | DNS/Helper/DNSFunctions.py:364 | `int('10000100', 2)` is 0x84 and `int('00000000')` is 0 |
| `Flags.PrimaryText` | DNS/Helper/DNSFunctions.py:363-365 | the primary `int(..., 2)` raises unless all four opcode bits are clear, and then it parses the fallback text |
| `Flags.FallbackPair` | DNS/Helper/DNSFunctions.py:367-369 | the fallback pair is 84 00 |
| `Flags.FlagsAreConstant` | DNS/Helper/DNSFunctions.py:333-372 | for every query the flags are exactly 84 00: QR=1, Opcode=0, AA=1, and TC, RD, RA, Z and RCODE are 0 |
| `Question.Offset` | DNS/Helper/DNSFunctions.py:425-426 | the walker's offset k never passes the end of the data |
| `Question.LabelStep` | DNS/Helper/DNSFunctions.py:392-406 | reading a complete label gives its text followed by the walk after it; k grows by its length plus one |
| `Question.OpenLabel` | DNS/Helper/DNSFunctions.py:393-397 | a non-zero byte between labels opens a label of that length and counts one length byte |
| `Question.ReadInLabel` | DNS/Helper/DNSFunctions.py:398-406 | a byte inside a label extends it; the last byte of its length appends it to the parts and adds its length to TotalLength |
| `Question.ExtendLabel` | DNS/Helper/DNSFunctions.py:398-399 | `domainString += chr(byte)` keeps the text equal to the bytes read, none of them zero |
| `Question.CloseLabel` | DNS/Helper/DNSFunctions.py:400-406 | completing a label keeps the walker state consistent with the labels and the offset of the whole data |
| `Question.WalkStops` | DNS/Helper/DNSFunctions.py:389-391 | at the end of the data or at a zero byte, even inside a label, the parts read are all the labels and k is the sum of the lengths plus the length bytes |
| `Question.GetQuestionDomain` | DNS/Helper/DNSFunctions.py:375-434 | the byte loop returns the complete labels plus the `''` sentinel and `data[k+1:k+3]` |
| `Question.NameBytesAppend` | DNS/Helper/DNSFunctions.py:520-524 | one more part adds its length byte then its characters |
| `Question.BuildQuestion` | DNS/Helper/DNSFunctions.py:515-531 | the loops write each part as a length byte and its characters, then 00 01 for 'A'/'AAAA' and 00 01 always; None exactly when a part is over 255 or a character is over 255 |
| `Question.WireCons` | DNS/Helper/DNSFunctions.py:520-524 | a name is encodable exactly when its first label and the rest are, and its encoding is the first label's bytes then the rest's |
| `Question.LabelText` | DNS/Helper/DNSFunctions.py:398 | a complete label reads as non-empty text without chr(0), and re-encoding it gives back the bytes it was read from |
| `Question.ReadLabelsFrom` | DNS/Helper/DNSFunctions.py:389-422 | from any position, the labels read are encodable, their encoding is the data at that position, no complete label follows, and k is the encoding's length plus one for a label cut short |
| `Question.WalkReadsCompleteLabels` | DNS/Helper/DNSFunctions.py:375-434 | the same from the start: the walker reads exactly the leading run of complete labels, and k is their encoding's length plus one for a label cut short |
| `Question.HeadLabel` | DNS/Helper/DNSFunctions.py:392-406 | the first label of an encoded name reads back as itself, and the rest of the encoding follows it |
| `Question.WalkEncodedName` | DNS/Helper/DNSFunctions.py:389-422 | the walker reads back every name the encoder writes, stopping at its terminator, and k is the name's length |
| `Question.QuestionRoundTrip` | DNS/Helper/DNSFunctions.py:515-531 | decoding what `buildQuestion` writes for wire labels plus `''` returns the same parts, and always the type bytes 00 01 |
| `Question.QuestionTypeSurvivesOnlyForA` | DNS/Helper/DNSFunctions.py:526-529 | encoding then decoding preserves the question type exactly when it is 'A' |
| `Answer.AddressBytes` | DNS/Helper/DNSFunctions.py:550-551 | succeeds exactly when every dotted part parses as a decimal below 256, and then holds those numbers in order |
| `Answer.AddressSnoc` | DNS/Helper/DNSFunctions.py:550-551 | one more dotted part appends its byte or fails the whole value |
| `Answer.RecordToBytes` | DNS/Helper/DNSFunctions.py:534-553 | the byte accumulation computes `RecordBytes`, including its failure cases |
| `Answer.RecordLayout` | DNS/Helper/DNSFunctions.py:534-553 | encodable exactly when 0 <= TTL < 2^32 and (for 'A'/'AAAA') every part is a byte; address records are C0 0C 00 01 00 01, TTL, 00 04, then one byte per part; other records are C0 0C 00 01 then the TTL, 8 bytes |
| `Answer.RecordStartsWithPointer` | DNS/Helper/DNSFunctions.py:538 | every encoded record begins with the pointer C0 0C |
| `Answer.JoinedAddressRecord` | DNS/Helper/DNSFunctions.py:548-551 | an address value `'.'.join(parts)` carries exactly the bytes of those parts |
| `Answer.QuadAddress` | DNS/Helper/DNSFunctions.py:550-551 | the decimal texts of four bytes convert back to those bytes |
| `Answer.DottedQuadRecord` | DNS/Helper/DNSFunctions.py:539-551 | a dotted quad gives the 16-byte record with TYPE 1, even for 'AAAA' |
| `Answer.Ipv6ValueRejected` | DNS/Helper/DNSFunctions.py:550-551 | any value holding ':' (every IPv6 address) keeps the colon in a dotted part, where `int(part)` raises, so the 'AAAA' record cannot be encoded |
| `ZoneStore.GetZone` | DNS/Helper/DNSFunctions.py:309-328 | finds a zone exactly when the lowered join of the last three parts is a loaded origin, and returns that zone |
| `ZoneStore.GetRecs` | DNS/Helper/DNSFunctions.py:476-511 | status OKAY exactly when the zone exists and has the type's list, which is returned; otherwise no records and ERROR, logged unless the zone lacks only 'AAAA' |
| `ZoneStore.LowerJoin` | DNS/Helper/DNSFunctions.py:315 | lowering a joined name lowers each part |
| `ZoneStore.ZoneKeyOfLastThree` | DNS/Helper/DNSFunctions.py:315 | the zone key depends only on the lowered last three parts |
| `ZoneStore.ZoneKeyExample` | DNS/Helper/DNSFunctions.py:315 | the key of `www.EXAMPLE.com.` is 'example.com.' |
| `ZoneStore.LookupByName` | DNS/Helper/DNSFunctions.py:480-505 | looking up a named type finds its list exactly when the zone holds one |
| `ZoneStore.UnknownCodeMisses` | DNS/Helper/DNSFunctions.py:481-511 | an unknown type code is looked up under `''`, misses and is logged |
| `CaseSwap.SwapLabels` | DNS/Helper/DNSFunctions.py:470-472 | one permuted part per part |
| `CaseSwap.SwapPart` | DNS/Helper/DNSFunctions.py:471 | the join over the characters of a part computes `SwapLabel` with one flip per character |
| `CaseSwap.GetLetterCaseSwapped` | DNS/Helper/DNSFunctions.py:466-473 | the loop returns the parts before the last three, then the last three permuted in order |
| `CaseSwap.SwapLabelsSnoc` | DNS/Helper/DNSFunctions.py:470-472 | the flips of the next part start after those of the parts before it |
| `CaseSwap.SwapChar` | DNS/Helper/DNSFunctions.py:471 | a character that swaps in place swaps to one character below 256 that lowers like the original |
| `CaseSwap.SwapLabelInPlace` | DNS/Helper/DNSFunctions.py:471 | such a part keeps its length, and each character is the original or its swap, as its flip says |
| `CaseSwap.AsciiSwap` | DNS/Helper/DNSFunctions.py:471 | on ASCII the swap flips the 0x20 bit of letters and keeps every other character |
| `CaseSwap.SwapLabelsAt` | DNS/Helper/DNSFunctions.py:470-472 | permuted part j uses the flips after those of the parts before it |
| `CaseSwap.CaseSwappedShape` | DNS/Helper/DNSFunctions.py:466-473 | same number of parts, all but the last three unchanged, and the `''` sentinel stays `''` |
| `CaseSwap.CaseSwappedSameLowered` | DNS/Helper/DNSFunctions.py:466-473 | when the last three parts swap in place, every part keeps its length and lowering the output equals lowering the input |
| `CaseSwap.LastThreeLowered` | DNS/Helper/DNSFunctions.py:468 | lists that lower alike have last three parts that lower alike |
| `CaseSwap.CaseSwappedSameZone` | DNS/Helper/DNSFunctions.py:466-473 | the permutation never moves a name to another zone |
| `CaseSwap.SharpSGrows` | DNS/Helper/DNSFunctions.py:471 | 'ß' swaps to "SS", so length is not preserved beyond in-place characters |
| `ResponseEngine.Engine.constructor` | DNS/Helper/DNSFunctions.py:31 | COUNTER starts at 0 with an empty log |
| `ResponseEngine.Engine.BuildAnswers` | DNS/Helper/DNSFunctions.py:667-669 | the body loop computes `AnswersBytes`, failing exactly when some record fails |
| `ResponseEngine.Engine.BuildHeader` | DNS/Helper/DNSFunctions.py:563-603 | fails exactly for 65536 records or more, and otherwise is `Header`, built from `getFlags` |
| `ResponseEngine.Engine.CheckCase` | DNS/Helper/DNSFunctions.py:629-633 | the question parts are permuted exactly for a check that is not a re-check; the modified domain is set exactly for a check |
| `ResponseEngine.Engine.LookUp` | DNS/Helper/DNSFunctions.py:579-585 | decodes `data[12:]`, picks the fake or real zones by adversary mode and looks up the type |
| `ResponseEngine.Engine.LogRequest` | DNS/Helper/DNSFunctions.py:618-654 | appends exactly the request row for the current COUNTER and returns the question parts |
| `ResponseEngine.Engine.Complete` | DNS/Helper/DNSFunctions.py:656-675 | question, send flag and body in source order; the question's failure comes first |
| `ResponseEngine.Engine.GetResponse` | DNS/Helper/DNSFunctions.py:556-675 | the result, the appended log and the COUNTER change are those of `Respond` |
| `ResponseEngine.Engine.Dispatch` | DNS/Helper/DNSFunctions.py:585-675 | after the lookup: the traces are logged, then an answer-count overflow fails uncounted, or the call is counted and served |
| `ResponseEngine.Engine.Serve` | DNS/Helper/DNSFunctions.py:618-675 | COUNTER goes up by one, the row carries the new value, and the reply is `Served` |
| `ResponseEngine.AnswersPrefixFails` | DNS/Helper/DNSFunctions.py:667-669 | once a prefix of the records fails, the whole body fails |
| `ResponseEngine.HeaderLayout` | DNS/Helper/DNSFunctions.py:561-603 | the echoed ID (unless left out), 84 00, QDCOUNT 1, ANCOUNT reading back as the record count, then NSCOUNT and ARCOUNT 0 |
| `ResponseEngine.AnswersAppend` | DNS/Helper/DNSFunctions.py:667-669 | the body of a concatenation is the concatenation of the bodies; one failure fails it |
| `ResponseEngine.AnswersEncodable` | DNS/Helper/DNSFunctions.py:667-669 | the body can be built exactly when every record can |
| `ResponseEngine.LookupSource` | DNS/Helper/DNSFunctions.py:579-585 | the records answered come from the fake zones in adversary mode and from the real ones otherwise, under the question's zone key and type name |
| `ResponseEngine.ZoneIsolation` | DNS/Helper/DNSFunctions.py:580-583 | the response depends on the real zones only outside adversary mode and on the fake zones only inside it |
| `ResponseEngine.SameLookup` | DNS/Helper/DNSFunctions.py:579-585 | the lookup and its traces depend on the modes only through adversary mode |
| `ResponseEngine.RespondVia` | DNS/Helper/DNSFunctions.py:579-589 | a response is its lookup and traces followed by the answer-count check |
| `ResponseEngine.HeaderThen` | DNS/Helper/DNSFunctions.py:599-602 | a header followed by any bytes has the header's field layout |
| `ResponseEngine.ServedLayout` | DNS/Helper/DNSFunctions.py:599-675 | a counted reply is the header, then the question built from the (possibly permuted) parts, then the answers of the lookup |
| `ResponseEngine.ResponseLayout` | DNS/Helper/DNSFunctions.py:556-675 | every successful reply is the header with ANCOUNT equal to the number of records found, then the question, then the answers in stored order |
| `ResponseEngine.AssembleShorterHeader` | DNS/Helper/DNSFunctions.py:598-603 | dropping two header bytes drops exactly the first two bytes of the reply |
| `ResponseEngine.AnsweredAlike` | DNS/Helper/DNSFunctions.py:598-603 | modes that agree on case sensitivity log and count a call alike |
| `ResponseEngine.ServedWithoutId` | DNS/Helper/DNSFunctions.py:598-603 | served without the ID: the same reply minus its first two bytes |
| `ResponseEngine.WithoutIdDropsTwoBytes` | DNS/Helper/DNSFunctions.py:598-603 | `withoutRequestId` drops exactly the first two bytes of the reply and changes nothing else |
| `ResponseEngine.ServedSuppression` | DNS/Helper/DNSFunctions.py:660-663 | with suppression the bytes are the same and withheld exactly when the un-lowered domain holds 'tor_dont_response' |
| `ResponseEngine.SuppressionOnlyFlag` | DNS/Helper/DNSFunctions.py:660-675 | suppression decides only the send flag: bytes, log and counter are the same either way |
| `ResponseEngine.ServedCaseCheck` | DNS/Helper/DNSFunctions.py:629-656 | a 0x20 check changes only the question section, and nothing at all without permutation |
| `ResponseEngine.FrameOf` | DNS/Helper/DNSFunctions.py:675 | replies that share header and body differ in the question section at most |
| `ResponseEngine.AnsweredCaseCheck` | DNS/Helper/DNSFunctions.py:629-654 | with case sensitivity, counting is unchanged and the request row differs only in its modified domain |
| `ResponseEngine.CaseCheckOnlyQuestion` | DNS/Helper/DNSFunctions.py:629-656 | a 0x20 check changes the question section and the logged modified domain, and leaves the header, the answers (from the original lookup), the send flag and the counter alone |
| `ResponseEngine.TracesAreErrors` | DNS/Helper/DNSFunctions.py:507-511 | `getZone` and `getRecs` write at most two entries, all error traces |
| `ResponseEngine.CounterOnce` | DNS/Helper/DNSFunctions.py:589-619 | COUNTER goes up exactly for 3 bytes or more with fewer than 65536 records, even when the question or body then raises; the row carries the new value after the traces; a short datagram logs nothing |
| `ForgeEmitter.Socket.SendTo` | DNS/Helper/DNSFunctions.py:802 | a datagram is recorded exactly when the port is valid; otherwise `sendto` raises |
| `ForgeEmitter.InsertCount` | DNS/Helper/DNSFunctions.py:794 | inserting keeps every number and adds one |
| `ForgeEmitter.InsertAscending` | DNS/Helper/DNSFunctions.py:794 | inserting into an ascending list keeps it ascending |
| `ForgeEmitter.SortAscSpec` | DNS/Helper/DNSFunctions.py:794 | `sort()` yields a permutation of the draws in ascending order |
| `ForgeEmitter.GenerateResponseWithRequestId` | DNS/Helper/DNSFunctions.py:785-806 | sends exactly `IdFrames` of the sorted draws, in order, stopping at the first ID that raises |
| `ForgeEmitter.GenerateResponseWithPortNumber` | DNS/Helper/DNSFunctions.py:809-832 | one round sends exactly `PortFrames` of the sorted draws, the same IP at each port, stopping at the first port that raises |
| `ForgeEmitter.SortedDrawsSplit` | DNS/Helper/DNSFunctions.py:793-794 | sorted draws are those below 65536 followed by the 65536s |
| `ForgeEmitter.SplitCounts` | DNS/Helper/DNSFunctions.py:793-794 | the front of such a split holds every number but the copies of the last one |
| `ForgeEmitter.IdFramesOfFitting` | DNS/Helper/DNSFunctions.py:797-802 | one frame per leading ID below 65536: sent to `addr`, its first two bytes reading back as the ID, then the response |
| `ForgeEmitter.PortFramesOfFitting` | DNS/Helper/DNSFunctions.py:821-828 | one frame per leading port below 65536: the unchanged response to that port |
| `ForgeEmitter.SortedDrawn` | DNS/Helper/DNSFunctions.py:793-794 | sorted draws stay in 1..65536 and are a permutation of the draws |
| `ForgeEmitter.RequestIdFanOut` | DNS/Helper/DNSFunctions.py:785-806 | exactly the draws up to 65535 are sent as IDs, ascending, each as two big-endian bytes before the response |
| `ForgeEmitter.PortFanOut` | DNS/Helper/DNSFunctions.py:809-832 | one round sends the response to exactly the drawn ports up to 65535, ascending |
| `ForgeEmitter.PortPassesAsWritten` | DNS/Helper/DNSFunctions.py:817-829 | the outer `while` as written: every run starts with exactly the single corrected round, and n passes send at most n rounds |
| `ForgeEmitter.AsWrittenRepeatsRounds` | DNS/Helper/DNSFunctions.py:817-829 | as written, with every port valid, n passes of the `while` send n full rounds: the loop never ends |
| `ForgeEmitter.AsWrittenStopsOnlyOnInvalidPort` | DNS/Helper/DNSFunctions.py:814-832 | as written, the call ends only through an invalid port's exception, after its first pass |

## Left out

- File and console I/O is abstracted away. This covers `logging.error`, `logDNSRequest`, `storeDNSRequestJSON`, screen output and the DEBUG prints. It remains only as entries of `Engine.log`. The time stamp in a request row is not modelled.
- Zone loading (`loadRealZone`, `loadFakeZone`) is not modelled. The zones are given as maps from origin to record lists by type name.
- The decimal transaction-ID string of `getResponse` (line 620) is not modelled. It only feeds the log.
- Dead code is not part of this model: `getQuestionDomain_temp`, `getForgedResponse` (which always raises on its `getRecs` call), `int_to_hex`/`bin_to_hex`, and `setDebuggingMode`/`setAdversaryMode`, which have no effect.
- Randomness itself is not modelled. The coin flips and the drawn numbers are parameters, and nothing statistical is claimed about them.
- Real sockets are not modelled. `Socket.SendTo` records what it sends, and it fails only for a port outside 0..65535. Network errors and size limits of `sendto` are not modelled.
- `Common.ParseInt` accepts only ASCII digits. Python's `int()` also accepts surrounding whitespace, underscores, a sign and non-ASCII digits, so values written that way are rejected here but accepted by Python.
- `Common.Lower` and `CaseSwap.SwapCase` follow Python's `lower()` and `swapcase()` only for code points below 256. Those are the only ones a decoded label holds.
- Record TTLs are whole numbers. `int(recordTTL)` on a string or a float TTL is not modelled.
- The unused `domainName` argument of `recordToBytes` is dropped.
- `ResponseEngine.Header`: the flags are written as the constant 84 00 that `Flags.FlagsAreConstant` proves `getFlags` returns. `Engine.BuildHeader` calls `GetFlags` itself.
- The outer `while` of `generateResponseWithPortNumber` is modelled for one round in `GenerateResponseWithPortNumber`. The loop as written repeats without end, which `PortPassesAsWritten` captures; see Findings.

## Findings

| source | as written | input that shows it | evidently intended | confidence | as-written member | corrected member |
|---|---|---|---|---|---|---|
| DNS/Helper/DNSFunctions.py:829 | `round_ = round_ + 1` is indented outside the `while round_ <= 1`, so the loop never ends unless `sendto` raises | any draws all below 65536: after n passes, n full rounds have been sent, for every n | the counter is advanced inside the `while`, as at line 803 of `generateResponseWithRequestId`, giving a single round | high, not executed | `ForgeEmitter.AsWrittenRepeatsRounds` | `ForgeEmitter.GenerateResponseWithPortNumber` |
