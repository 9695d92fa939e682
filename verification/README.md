# go-mms, modelled in Dafny

go-mms is an MMS (ISO 9506) client and server in Go. This project models the
parts of it that are hard to get right and proves what they promise:

- **Alternate access** (`Values`, `AltAccess`, `Selection`, `ValueHeap`):
  selector chains read and patch structured values. What each selector means is
  said position by position. The pure read and write form a lens and are type
  sound; the object version, which clones and patches in place, refines them and
  never touches a node it did not allocate.
- **BER codecs** (`Bytes`, `Ber`, `Integers`, `Oid`, `Times`, `RealCodec`,
  `Data`, `TypeSpecWire`, `AltAccessWire`): lengths, integers, identifiers,
  times, REAL and the recursive Data, TypeSpecification and AlternateAccess
  types. Each codec has a round trip with its exact condition, and decoding
  normalises. Loops of the source are methods proved equal to recursive
  functions. The encodings follow ITU-T X.690.
- **What octets mean** (`Meaning`, `DataMeaning`, `Utf8`, `TypeSpecMeaning`,
  `PduMeaning`, `SessionMeaning`): for every content and length form a decoder
  accepts, not only those the encoders write, what it denotes by place value.
- **Correlation** (`Invoke`, `Correlation`, `Exchange`, `SendGate`,
  `SendProgress`): the invoke tracker, and the client's calls, reader and closer
  as interleaved steps. The theorems range over every reachable state of every
  interleaving: what never happens, and which runs end a call or a write, and how.
- **Names** (`Names`, `NameTable`, `ServerModel`, `NvlModel`, `NvlExact`,
  `NvlService`, `FitList`, `NameListWire`, `Pagination`): the registry refines a map by
  (scope, domain, item), deletes account for themselves over whole runs, and
  a multi-page listing is complete while the registry changes.
- **Sizes, files and framing** (`Responses`, `Envelope`, `ErrorWire`,
  `ServerConn`, `Files`, `Session`):
  the response budget, negotiation, the request loop, open-file handles and
  session PDUs.

Where the source keeps Go strings or byte slices the model has `seq<Byte>`.
Integer widths are explicit wherever they matter. Error texts, logging and
metrics are dropped: an operation that can fail returns `Result`.

Conditions the code relies on appear as preconditions:

- TLV contents are below 2^24 octets where a round trip is claimed, since the
  length decoder takes at most three length octets (`Ber.TLVTooLong`).
- Registered domain names contain no slash, since registry keys are built with
  one (`NameTable.KeyCollision` shows why); VMD-scope entries have no domain.
  Requested names may hold one (`NameTable.RequestHits`).
- Range counts in alternate access are non-negative, and a nil value is not
  written through a range.

Properties that do not hold without a condition are stated with it, both
ways, and the failing case is given beside: `AltAccess.ResolveAcceptsUnreadableRange`,
`NameTable.KeyCollision`, `NameTable.RequestHits`, `RealCodec.RealLost`,
`TypeSpecWire.BareBinaryTimeGrows`, `NvlModel.ClearAssocDropsUndeletable`,
`ErrorWire.ClassLost`, `ErrorWire.CodeLost`, `Responses.BudgetOverrun`, `Invoke.SameIdExactly`.

## Model

| member | source | states |
|---|---|---|
| Correlation.StepKeeps | mms.go:561-613 | Every step of every goroutine (calls, reader, closer; `Complete` and `CancelAll` split at their unlock) keeps the channel, table, slot and ID invariants |
| Correlation.RunKeeps | mms.go:773-874 | The invariant holds after every interleaved run |
| Correlation.SentAtMostOnce | internal/invoke/tracker.go:107-140 | In every reachable state a response channel has been sent to at most once, and until then exactly one of the table and one goroutine still holds it |
| Correlation.NeverBlocks | internal/invoke/tracker.go:115-121 | In every reachable state a send that is under way finds its one-slot channel empty |
| Correlation.ReturnedIsNotPending | mms.go:583-606 | A call of `doConfirmed` that has returned has no table entry left; its ID is not pending as long as IDs have not wrapped |
| Correlation.IdsAreDistinct | internal/invoke/tracker.go:52-60 | Up to 2^32-1 calls, IDs are non-zero and no two calls share one |
| Correlation.IdIsFree | internal/invoke/tracker.go:95-97 | While IDs are distinct, registering an ID never meets the already-pending error |
| Correlation.NoMisdelivery | internal/invoke/tracker.go:107-121 | What a call returns carries its own ID, data is what the reader took for that very call, and with distinct IDs no other call has that ID |
| Correlation.DataWasReceived | mms.go:851-874 | Data a call returns was in a PDU dispatched with that call's invoke ID, for every run |
| Correlation.RunProvenance | mms.go:851-874 | Over any run, whatever is recorded as taken for a call comes from a dispatch with the same ID, kind and octets |
| Correlation.NoLostResponse | mms.go:591-606 | If the reader took a response for a call, the call returns exactly it, unless it returns a context error and its context had ended, or a send error and its send had failed; in particular reader exit does not lose it |
| Correlation.NothingTaken | mms.go:597-605 | When the reader has gone and the slot is empty, the reader had taken nothing for this call, so giving up is right |
| Correlation.CanReturn | mms.go:591-606 | Once the reader has gone, in every run with any interleaving a waiting, draining, cancelling or finishing call has returned, or has taken fewer than five steps of its own and has another one enabled |
| Correlation.RunRank | mms.go:591-606 | Over every such run the call's rank falls by at least one for each step of its own and never rises, whatever the others do |
| Correlation.StepRank | mms.go:591-606 | A step of the call itself lowers its rank, a step of anybody else does not raise it |
| Correlation.OwnStepEnabled | mms.go:591-606 | In whatever state the others left it, a call in progress after reader exit has a step of its own enabled |
| Exchange.AnswerReturns | mms.go:851-874 | In every reachable state, a response dispatched for a registered waiting call, whatever its kind and octets, has the run dispatch, deliver, receive enabled; it ends with the call returning exactly that response, its ID not pending, and no other call or send changed |
| Exchange.DispatchTakes | internal/invoke/tracker.go:107-121 | A dispatch for a registered call takes its entry out of the table and puts exactly one send to that call on its way |
| Exchange.UnknownIsIgnored | mms.go:864-874 | A response whose ID is not pending changes no call, sends nothing and leaves the table alone |
| Exchange.ExchangeCompletes | mms.go:561-613 | From every reachable state of an open association a new call can register, send, be answered and return its answer, leaving table and sends as they were |
| Exchange.CallStarts | mms.go:561-590 | On an open association a new call gets its own fresh ID into the table and waits |
| Exchange.EarlyAnswerReturns | mms.go:583-594 | An answer that arrives before `send` has returned is not lost: the call returns it |
| Exchange.CloseReturns | internal/invoke/tracker.go:131-140 | Closing empties the table and lets a waiting call return the close error under its own ID |
| Exchange.StopReturns | mms.go:756-771 | A reader that fails empties the table and lets a waiting call return that error under its own ID |
| Exchange.ReaderLeaves | mms.go:773-783 | A reader on its way out can deliver what it still holds and be gone |
| Exchange.ConcludeEndsReader | mms.go:828-841 | A conclude response ends the reader without cancelling anybody |
| Exchange.CancelReturns | internal/invoke/tracker.go:126-128 | Cancelling takes exactly the call's own ID out of the table and the call returns its reason |
| Exchange.ContextReturns | mms.go:594-596 | When its context ends a waiting call can return the context error and has left the table |
| Exchange.EndedNeverStarts | mms.go:574-576 | A context that ends before registration is returned, and nothing is registered |
| Exchange.SendErrorReturns | mms.go:583-589 | A failed send is returned as such, or as the context error if the context has ended |
| Exchange.GoneReturns | mms.go:597-605 | A call left in the table finds the reader gone and its channel empty, and returns that |
| Exchange.RefusedWhenClosed | mms.go:562-566 | A call is refused exactly when the association is closed |
| Exchange.RefusedMeansClosed | mms.go:562-566 | In every reachable state a refused call implies a closed association |
| Invoke.SameIdExactly | internal/invoke/tracker.go:52-60 | Two `NextID` calls return the same ID if and only if a multiple of 2^32-1 calls lies between them |
| Invoke.NextAfter | internal/invoke/tracker.go:52-60 | The closed form of the k-th ID follows the 32-bit counter that skips zero |
| Invoke.Tracker.constructor | internal/invoke/tracker.go:42-47 | A new tracker has nothing pending |
| Invoke.Tracker.NextID | internal/invoke/tracker.go:52-60 | The counter advances by one with 32-bit wrap-around and never returns zero |
| Invoke.Tracker.AllocateWithID | internal/invoke/tracker.go:87-102 | Succeeds exactly when the limit is not reached and the ID is not pending; registers a fresh empty channel and nothing else |
| Invoke.Tracker.Complete | internal/invoke/tracker.go:107-121 | Removes the entry and delivers once with the entry's own ID; false exactly when there is none; other channels untouched |
| Invoke.Tracker.Cancel | internal/invoke/tracker.go:126-128 | Delivers the error under the ID exactly when it is pending |
| Invoke.Tracker.CancelAll | internal/invoke/tracker.go:131-140 | Empties the table and sends every channel that was in it exactly one error with its own ID |
| Invoke.FailEach | internal/invoke/tracker.go:137-139 | The loop over the swapped-out map sends to each channel exactly once |
| SendGate.StepKeeps | mms.go:622-653 | Every step of writers, callers and the transport keeps the stream, lock and state-word invariant |
| SendGate.RunKeeps | mms.go:622-653 | The invariant holds after every interleaved run |
| SendGate.StreamIsWhole | mms.go:615-643 | In every interleaving of requests, conclude, abort and transport closing, the octet stream is whole PDUs, none twice, followed by at most one unfinished PDU; at most one writer is writing |
| SendGate.AbandonedIsNotWritten | mms.go:644-652 | A request given up before its write started is never written nor begun, and its context had ended |
| SendGate.SuccessIsWritten | mms.go:637-646 | A write, of a request or of a conclude or abort PDU, reports success only when the whole PDU is on the stream |
| SendGate.DoneNeverBlocks | mms.go:628-643 | Posting to the one-slot done channel never blocks, and a goroutine inside the lock always has a step that leads out |
| SendProgress.SendCompletes | mms.go:622-653 | In every reachable state with the transport up and the mutex free, a waiting send has a run that puts exactly its PDU at the end of the stream and returns success |
| SendProgress.WriteRest | mms.go:637-642 | A write under way can put the rest of its PDU, octet by octet, on the stream |
| SendProgress.GivenUpIsSkipped | mms.go:633-636 | A request given up before its write starts is done with, and the stream is as it was |
| SendProgress.CanGiveUp | mms.go:647-651 | When its context ends, a request whose write has not started can be given up |
| SendProgress.DownFails | mms.go:637-642 | On a transport that is down a send fails and writes nothing |
| SendProgress.DownIsSilent | mms.go:637-642 | Once the transport is down no step of anybody adds to the stream |
| AltAccess.WriteThenRead | server_altaccess.go:13-129 | A successful write followed by a read at the same chain gives the written value |
| AltAccess.ReadThenWrite | server_altaccess.go:13-129 | Writing back what was read gives the same (hence `Equal`) value |
| AltAccess.WriteThenWrite | server_altaccess.go:27-129 | A second write at the same chain overrides the first and succeeds in the same cases |
| AltAccess.WriteElsewhere | server_altaccess.go:13-211 | A write leaves every path that diverges from it reading as before: one that does not resolve, or selects a different element or disjoint range somewhere on the way, ranges it passes through being windows on the written array |
| AltAccess.MissedRead | server_altaccess.go:13-211 | The same for a reader that has already cut a window out of the composite and carries its own types |
| AltAccess.ReadIsTyped | server_altaccess.go:131-211 | Whatever a chain reads in a conforming value, ranges included, conforms to the type the chain resolves to |
| AltAccess.ResolveExactly | types.go:600-637 | For range-free chains on conforming values, `Resolve` succeeds if and only if the read is not nil |
| AltAccess.ResolveExactlyWithRanges | types.go:600-637 | With ranges the equivalence holds exactly when ranges are in bounds and no component name follows a range |
| AltAccess.ResolveAcceptsUnreadableRange | types.go:600-637 | A conforming two-element array and a range that `Resolve` accepts and the read refuses |
| AltAccess.WriteIsTyped | server_altaccess.go:61-108 | Writing a conforming value at a resolvable range-free chain succeeds and keeps the whole value conforming |
| AltAccess.WriteBackAccepted | server_altaccess.go:41-129 | What was read from a conforming value can be written back if and only if no selector follows a range |
| Selection.ElementRead | server_altaccess.go:131-199 | An index reads the element at that position and a name the first element of the type that has it; a longer chain reads its rest in that element with its declared type |
| Selection.NothingRead | server_altaccess.go:131-199 | A selector that means no element reads nil, and so does every chain that starts with it |
| Selection.RangeRead | server_altaccess.go:201-211 | Element j of a range in bounds is element low + j of the array; out of bounds it is nil; the rest of the chain goes on in that array |
| Selection.ElementWrite | server_altaccess.go:61-108 | A write at a name or index succeeds if and only if the value has the declared type and size, and then replaces that element and no other |
| Selection.ElementWriteInside | server_altaccess.go:61-108 | A longer chain writes its rest in the element its first selector means, and replaces no other |
| Selection.NothingWritten | server_altaccess.go:61-108 | A selector that means no element is refused |
| Selection.RangeWrite | server_altaccess.go:110-129 | A range write succeeds if and only if it is last, in bounds and given an array of that many elements, and then overwrites exactly the elements from low on |
| ValueHeap.ApplyWrite | server_altaccess.go:27-37 | Without modifying any object or element slice allocated before, returns the tree the pure write describes, every node and slice of it fresh; the current and the written value are unchanged even when they share nodes or slices |
| ValueHeap.Clone | value.go:444-473 | A deep copy of any value, shared children and slices included, owning only fresh nodes and fresh slices, each once |
| ValueHeap.CloneElements | value.go:444-473 | A fresh slice is filled slot by slot with pairwise disjoint fresh copies |
| ValueHeap.PatchValue | server_altaccess.go:41-59 | In-place descent refines the pure patch: same success, same resulting tree, only owned nodes and slices modified |
| ValueHeap.PatchElement | server_altaccess.go:61-108 | Replacing or descending into one element refines the pure patch |
| ValueHeap.PatchRange | server_altaccess.go:110-129 | The range branch refines the pure patch, including its refusals |
| ValueHeap.CopyRange | server_altaccess.go:125-127 | The copying loop overwrites slots of the slice with deep copies and keeps ownership |
| ValueHeap.SetElement | server_altaccess.go:61-108 | One slot of the slice is overwritten with a fresh deep copy, nothing else; the tree changes there only |
| ValueHeap.ApplyRead | server_altaccess.go:13-25 | The selector loop returns the value the pure read describes |
| ValueHeap.ApplySelector | server_altaccess.go:131-199 | One selector yields the element and type the pure selection describes |
| ValueHeap.SelectRange | server_altaccess.go:201-211 | In bounds a new array node over a new slice of the same elements, otherwise nil |
| ValueHeap.CopyValues | value.go:665-672 | A fresh slice with the same elements |
| ValueHeap.NewArray | value.go:424-426 | A fresh array node over a fresh slice of the given elements |
| ValueHeap.ResolveComponentIndex | server_altaccess.go:162-172 | The first index with that component name, -1 exactly when there is none |
| ValueHeap.CheckShallow | types.go:504-527 | Shallow compatibility of an object is that of the tree it holds |
| Values.ResolveLoop | types.go:600-637 | The loop of `Resolve` computes the recursive resolution |
| Values.EqualReflexive | value.go:480-541 | `Equal` holds between a value and itself (NaN equals NaN) |
| Values.EqualSymmetric | value.go:480-541 | `Equal` is symmetric |
| Values.EqualTransitive | value.go:480-541 | `Equal` is transitive |
| Values.EqualExactly | value.go:480-539 | Two values are equal if and only if they are the same tree with every NaN taken as the quiet one |
| Values.ScalarsDiffer | value.go:480-539 | Distinct scalars are unequal unless both are NaNs of the same kind |
| Data.RoundTrip | internal/pdu/data.go:69-201 | Decoding what `MarshalData` wrote, in front of any suffix, returns the tree and exactly its length, up to 64 levels and 65536 elements |
| Data.ListRoundTrip | internal/pdu/data.go:162-221 | A marshalled list decodes to the same list |
| Data.DecodedIsWellFormed | internal/pdu/data.go:186-339 | Whatever decodes to a value without REALs and negative access errors is within the depth, count and scalar limits and re-encodes in no more octets than were consumed |
| Data.DecodeNormalises | internal/pdu/data.go:186-339 | For every octet string that decodes to a value without REALs and negative access errors: re-encoding succeeds, decodes to the same value and is never longer |
| Data.DecodedSurvives | internal/pdu/data.go:69-339 | For every octet string that decodes, REALs of every base included, the value survives another trip if and only if its access errors are non-negative, no REAL in it is the NaN of zero times infinity, and its new encoding is within the length limit |
| Data.RoundTripExactly | internal/pdu/data.go:69-339 | Any tree, REAL included, survives the wire if and only if it is well formed |
| Data.UnmarshalElement | internal/pdu/data.go:186-201 | The element decoder computes the recursive decoding; its mutual recursion terminates on shrinking content |
| Data.UnmarshalContent | internal/pdu/data.go:223-339 | The content decoder computes the recursive decoding by tag |
| Data.UnmarshalAccessResults | internal/pdu/data.go:203-221 | The offset loop decodes the list, stopping at the first error and after 65536 elements |
| Data.ScalarRoundTrip | internal/pdu/data.go:69-158 | Every scalar within its limits survives content encoding |
| Data.ScalarNormalises | internal/pdu/data.go:223-339 | Every scalar content that decodes, other than REALs and negative access errors, is within limits and re-encodes no longer |
| Data.ScalarExact | internal/pdu/data.go:69-339 | A scalar that survives its own encoding is within the limits of its kind |
| Data.BitsRoundTrip | internal/pdu/data.go:454-496 | A bit string survives if and only if it has as many octets as its bits need |
| Data.FloatRoundTrip | internal/pdu/data.go:424-452 | A floating-point bit pattern survives if and only if it fits its width |
| DataMeaning.BooleanMeaning | internal/pdu/data.go:225-229 | One octet of any value is a boolean, false only for zero; other lengths are refused |
| DataMeaning.BooleanOctet | internal/pdu/data.go:225-229 | 83 01 b decodes to b != 0 with three octets consumed, for every octet and depth up to 64 |
| DataMeaning.IntegerMeaning | internal/pdu/data.go:231-314 | INTEGER and BCD contents of one to eight octets denote their two's complement value, minimal or not |
| DataMeaning.UnsignedMeaning | internal/pdu/data.go:238-244 | An unsigned content denotes its place value, padded or not, and is refused if its top bit is set or it is too long |
| DataMeaning.StringMeaning | internal/pdu/data.go:266-279 | String kinds denote their octets; an MMS string is taken if and only if it is UTF-8 text |
| DataMeaning.BitStringMeaning | internal/pdu/data.go:252-321 | The first octet counts the unused bits, up to seven, none in an empty string |
| DataMeaning.FloatMeaning | internal/pdu/data.go:245-251 | Exponent width 8 or 11 and the IEEE bits in four or eight octets; nothing else |
| DataMeaning.AccessErrorMeaning | internal/pdu/data.go:329-337 | An access error denotes the two's complement value of one to four octets |
| DataMeaning.OtherMeaning | internal/pdu/data.go:259-300 | REAL, times and identifiers stand under their own tags |
| DataMeaning.Refused | internal/pdu/data.go:186-339 | Every other tag, and every element below 64 levels, is refused |
| DataMeaning.ListMeaning | internal/pdu/data.go:203-221 | Elements one after the other, in any length forms, denote the list of their values, up to 65536 |
| DataMeaning.CompositeMeaning | internal/pdu/data.go:322-328 | Arrays and structures denote their elements in order, one level down |
| DataMeaning.ElementLocal | internal/pdu/data.go:186-201 | What an element denotes does not depend on what follows it |
| DataMeaning.TrueIsWritten | internal/pdu/data.go:69-76 | TRUE is written ff and FALSE 00 |
| Utf8.ValidExactly | internal/pdu/data.go:275-278 | A text is accepted if and only if it encodes a sequence of Unicode scalar values (section 3 of RFC 3629) |
| RealCodec.TrailingZeros | internal/pdu/data.go:608-678 | The loop ends with an odd mantissa and the same number |
| RealCodec.NumeralRoundTrip | internal/pdu/data.go:680-761 | Sign, mantissa and exponent are read back exactly for every 64-bit mantissa and 16-bit exponent |
| RealCodec.RoundIsNearest | internal/pdu/data.go:756-757 | The conversion of a mantissa and the product with a power of two keep 53 bits (fewer only among subnormals), are off by at most half a unit of the last place, and go to even on ties |
| RealCodec.RoundExact | internal/pdu/data.go:756-757 | Every numeral that denotes a double, however its factors of two are split, rounds to that double |
| RealCodec.EvaluateExact | internal/pdu/data.go:756-761 | A received numeral that denotes a double is read as that double if and only if its exponent is not below -1074; below, it is read as zero |
| RealCodec.RealLost | internal/pdu/data.go:680-761 | Octets are read as a NaN that cannot be written again if and only if their mantissa is zero and their exponent above 1023 |
| RealCodec.EvaluateMeaning | internal/pdu/data.go:756-761 | What every numeral is read as: zero below the exponent range, infinite above it, otherwise the nearest double of its own sign if its mantissa has at most 53 significant bits |
| RealCodec.EvaluateTwice | internal/pdu/data.go:756-761 | A longer mantissa is rounded to 53 bits first and the scaled result again |
| RealCodec.PackDenotes | internal/pdu/data.go:756-761 | A rounded significand is zero, the double of exactly that number, or infinite from 2^1024 on |
| Meaning.NumeralMeaning | internal/pdu/data.go:680-757 | Binary contents in bases 2, 8 and 16, with scaling factor and every form of the exponent length, denote sign, mantissa, and scaling plus base bits times exponent, wrapped to int64 (section 8.5.7 of ITU-T X.690) |
| Meaning.NumeralRefused | internal/pdu/data.go:696-745 | Decimal forms, the reserved base and a missing mantissa are refused |
| Meaning.RealSpecials | internal/pdu/data.go:680-694 | The special values and plus zero |
| RealCodec.RealDenotes | internal/pdu/data.go:608-761 | Every finite non-zero double, subnormals included, decodes to exactly the number it denotes (section 8.5 of ITU-T X.690) |
| RealCodec.RealRoundTrip | internal/pdu/data.go:608-761 | A double comes back if and only if it is not a NaN other than the quiet one |
| RealCodec.RealInjective | internal/pdu/data.go:608-678 | Distinct doubles other than NaNs have distinct contents |
| RealCodec.RealSize | internal/pdu/data.go:608-678 | A REAL content has at most 10 octets |
| Times.FractionSurvives | internal/pdu/data.go:498-526 | Decode-then-encode is lossless for all 2^24 fractions |
| Times.NanosMove | internal/pdu/data.go:498-526 | Encode-then-decode moves an instant by at most 30 ns, 59 ns exactly where the fraction is clamped |
| Times.UtcDecodeEncode | internal/pdu/data.go:498-526 | Every 8-octet UtcTime content comes back unchanged |
| Times.UtcEncodeDecode | internal/pdu/data.go:498-526 | What an accepted time reads back as, the zero time included |
| Times.UtcExact | internal/pdu/data.go:498-526 | A time survives if and only if its second is unsigned 32-bit and its nanoseconds lie on the 2^-24 grid |
| Times.UtcEncodes | internal/pdu/data.go:498-516 | Exactly the unset time and times from 1970 within 32 bits of seconds can be written; the unset time as zeros |
| Meaning.UtcMeaning | internal/pdu/data.go:518-526 | Eight octets denote seconds, a fraction read to the nearest nanosecond, and quality |
| Times.TimeOfDayRoundTrip | internal/pdu/data.go:552-601 | Accepted exactly on one undated day and 65536 dated days, and each accepted time comes back |
| Times.TimeOfDayNormalises | internal/pdu/data.go:582-601 | Every accepted content re-encodes to itself |
| Meaning.TimeOfDayMeaning | internal/pdu/data.go:580-601 | Four octets denote milliseconds of a day, two more days since 1984; a day has 86,400,000 |
| Ber.AppendLength | internal/berutil/berutil.go:42-58 | The counting and appending loops produce the minimal definite form |
| Ber.ScanLength | internal/berutil/berutil.go:117-137 | The accumulator loop computes the decoded length |
| Ber.LengthRoundTrip | internal/berutil/berutil.go:42-137 | Every length below 2^24 survives in front of any suffix |
| Ber.LengthShortest | internal/berutil/berutil.go:117-137 | A decoded length is below 2^24 and was not written in fewer octets than the minimal form |
| Meaning.LongLength | internal/berutil/berutil.go:117-139 | One to three length octets denote their place value, minimal or not, such as 81 05; any other count is refused |
| Meaning.ElementMeaning | internal/berutil/berutil.go:98-114 | An element is its tag, a length in any accepted form, and exactly that many octets, before any suffix |
| Meaning.ElementCut | internal/berutil/berutil.go:98-114 | An element with fewer octets than its length says is refused |
| Ber.TLVRoundTrip | internal/berutil/berutil.go:26-113 | A TLV with content below 2^24 decodes to itself in front of any suffix |
| Ber.TLVTooLong | internal/berutil/berutil.go:117-137 | From 2^24 octets on no encoded TLV is accepted |
| Ber.TLVShortest | internal/berutil/berutil.go:98-137 | Re-encoding a decoded TLV needs no more octets than were consumed |
| Ber.TLVLength | internal/berutil/berutil.go:60-77 | The size function is the length of the encoding |
| Integers.TrimInt | internal/berutil/berutil.go:142-152 | The trimming loop yields the minimal two's complement content |
| Integers.EncodeSignedInt | internal/pdu/data.go:343-363 | The one-sided loops of the Data encoder agree with it on all of int64 |
| Integers.ScanSigned | internal/pdu/data.go:381-396 | The sign-extending accumulator computes the two's complement value and stays within int64 |
| Integers.EncodeUnsignedInt | internal/pdu/data.go:365-379 | Skipping zero octets and padding yields the minimal unsigned content |
| Integers.EncodeUint32 | internal/berutil/berutil.go:156-173 | The shift-and-append form yields the same minimal unsigned content |
| Integers.IntRoundTrip | internal/berutil/berutil.go:142-190 | Every int64 survives, in the fewest octets any content denoting it has (section 8.3.2 of ITU-T X.690) |
| Integers.IntNormalises | internal/pdu/data.go:343-396 | Re-encoding a decoded integer gives its content stripped of redundant octets |
| Meaning.SignedMeaning | internal/berutil/berutil.go:175-191 | A signed content is taken if and only if it has one octet up to the width, and denotes its two's complement value |
| Meaning.UnsignedMeaning | internal/berutil/berutil.go:296-317 | An unsigned content denotes its place value, one leading zero octet allowed, a set top bit refused |
| Integers.NonRedundantUnique | internal/berutil/berutil.go:142-152 | Two non-redundant contents of one integer are the same octets |
| Integers.UnsignedRoundTrip | internal/berutil/berutil.go:154-317 | An unsigned value decodes back exactly when it fits the width, and is refused otherwise |
| Integers.UnsignedNormalises | internal/berutil/berutil.go:296-317 | A decoded unsigned value is in range and re-encodes no longer |
| Integers.UnsignedIsInt | internal/berutil/berutil.go:142-173 | On non-negative int64 the signed and unsigned encoders write the same octets |
| Oid.EncodeTagNumber | internal/asn1util/raw.go:83-94 | Filling the ten-octet buffer from its end writes base 128 without running out |
| Oid.AppendBase128 | internal/berutil/berutil.go:262-276 | The shortcut and the loop write the same base-128 form |
| Oid.ScanBase128 | internal/berutil/berutil.go:278-292 | The offset loop computes the base-128 value |
| Oid.ScanArcs | internal/berutil/berutil.go:231-260 | The decoding loop collects one subidentifier a round |
| Oid.Base128RoundTrip | internal/berutil/berutil.go:262-292 | A number decodes back if and only if it is below 2^42 |
| Oid.Base128Normalises | internal/berutil/berutil.go:278-292 | A decoded number is below 2^42 and re-encodes in no more groups |
| Oid.OidRoundTrip | internal/berutil/berutil.go:206-292 | A valid object identifier survives if and only if all its subidentifiers are below 2^42 |
| Oid.OidNormalises | internal/berutil/berutil.go:231-292 | Whatever decodes is valid and re-encodes in no more octets |
| Meaning.Base128Meaning | internal/berutil/berutil.go:278-292 | Up to six groups denote their base-128 value, leading zero groups included; more are refused |
| Meaning.ArcsMeaning | internal/berutil/berutil.go:231-259 | The first subidentifier is forty times the first arc plus the second, the others are the other arcs |
| TypeSpecWire.SpecRoundTripExactly | internal/pdu/server_helpers.go:579-655 | Among specifications whose encoding fits, exactly the valid ones (at most 32 levels, element types present, sizes in int32, domain only on domain names) decode back to themselves |
| TypeSpecWire.SpecRoundTrip | internal/pdu/getvaraccess.go:143-256 | The same in front of any suffix, at every depth |
| TypeSpecWire.ComponentsRoundTrip | internal/pdu/getvaraccess.go:384-443 | Structure components come back in order with names and types |
| TypeSpecWire.DecodedIsValid | internal/pdu/getvaraccess.go:147-443 | Whatever decodes is a valid specification at its depth |
| TypeSpecWire.DecodedSpecSurvives | internal/pdu/getvaraccess.go:143-443 | Whatever decodes encodes again, in at most twice the octets, and that decodes to the same specification if and only if it is within the length limit |
| TypeSpecWire.ShortSpecSurvives | internal/pdu/getvaraccess.go:143-443 | Whatever decodes from fewer than 2^23 octets survives another trip |
| TypeSpecWire.BareBinaryTimeGrows | internal/pdu/server_helpers.go:608-613 | The octets 8c 00 decode, and are written again as the longer 8c 01 00 |
| TypeSpecMeaning.SpecElement | internal/pdu/getvaraccess.go:147-156 | A specification is decoded by tag and content alone, in any length form, to 32 levels |
| TypeSpecMeaning.ClassIgnored | internal/pdu/getvaraccess.go:158-163 | The class bits of the tag do not matter |
| TypeSpecMeaning.SizedMeaning | internal/pdu/getvaraccess.go:166-230 | Each sized type has its own tag number and a two's complement size of one to four octets |
| TypeSpecMeaning.NullMeaning | internal/pdu/getvaraccess.go:163-233 | The types without a parameter ignore their content |
| TypeSpecMeaning.BinaryTimeMeaning | internal/pdu/getvaraccess.go:210-213 | Binary time has a date if and only if its content is one non-zero octet |
| TypeSpecMeaning.FloatMeaning | internal/pdu/getvaraccess.go:258-293 | Format width, then exponent width |
| TypeSpecMeaning.ArrayMeaning | internal/pdu/getvaraccess.go:295-346 | The optional packed field is skipped, then element count and element type, one level down |
| TypeSpecMeaning.StructureMeaning | internal/pdu/getvaraccess.go:348-382 | The optional packed field is skipped, then the components |
| TypeSpecMeaning.ComponentMeaning | internal/pdu/getvaraccess.go:384-443 | Components in order, each with its name if it has one and its type one level down |
| TypeSpecMeaning.NameMeaning | internal/pdu/read.go:92-129 | VMD and association names stand under their own tags |
| TypeSpecMeaning.DomainNameMeaning | internal/pdu/read.go:92-129 | A domain name is its domain and then its item |
| TypeSpecMeaning.Refused | internal/pdu/getvaraccess.go:158-256 | Other tag numbers, and composites or floats that are not constructed, are refused |
| TypeSpecWire.ScanComponents | internal/pdu/getvaraccess.go:384-405 | The appending offset loop decodes the component list |
| TypeSpecWire.ObjectNameRoundTrip | internal/pdu/read.go:51-129 | An object name survives if and only if only domain-specific names carry a domain |
| AltAccessWire.ChainRoundTripExactly | internal/pdu/altaccess.go:52-293 | Among selector chains whose encoding fits, exactly the non-empty canonical ones survive the wire |
| AltAccessWire.ChainRoundTrip | internal/pdu/altaccess.go:52-293 | Every non-empty canonical chain comes back, nesting and all |
| AltAccessWire.ChainEncodes | internal/pdu/altaccess.go:52-133 | Encoding succeeds on every non-empty canonical chain |
| AltAccessWire.SelectionsAreCanonical | internal/pdu/altaccess.go:137-293 | Whatever decodes consists of canonical selectors |
| AltAccessWire.DecodedChainSurvives | internal/pdu/altaccess.go:52-293 | Whatever decodes encodes again, and that decodes to the same chain if and only if it is within the length limit |
| AltAccessWire.LongChainLost | internal/pdu/altaccess.go:52-293 | A chain whose encoding is longer than that is refused by the decoder |
| TypeSpecMeaning.TerminalMeaning | internal/pdu/altaccess.go:137-193 | A last selector is a name of 1 to 1024 octets or an index by place value, each under its own tag |
| TypeSpecMeaning.RangeMeaning | internal/pdu/altaccess.go:256-293 | A range is low index and count, in either order |
| TypeSpecMeaning.NestedMeaning | internal/pdu/altaccess.go:195-254 | An inner selector is followed by the chain below it |
| TypeSpecMeaning.NestedAlone | internal/pdu/altaccess.go:195-254 | An inner selector alone is a chain of one, and anything behind its chain is refused |
| TypeSpecMeaning.ChainMeaning | internal/pdu/altaccess.go:137-182 | Selections follow each other in order; a chain without any is refused |
| AltAccessWire.ScanChain | internal/pdu/altaccess.go:137-182 | The appending offset loop decodes the chain |
| AltAccessWire.ScanRange | internal/pdu/altaccess.go:256-293 | The field loop decodes an index range, either field order |
| Names.InsertSorted | internal/servermodel/order.go:12-15 | Inserting a new name gives the ascending list of the old names and the new one |
| Names.RemoveFromSorted | internal/servermodel/registry.go:300-307 | Removing gives the ascending list of all other names |
| Names.BinarySearch | internal/servermodel/order.go:12-15 | The first position not below the name |
| Names.AscendingUnique | internal/servermodel/registry.go:300-307 | An ascending list is determined by its elements, so the two rows above fix the slices completely |
| Names.LessExactly | internal/servermodel/order.go:12-15 | A name is less than another if and only if, after the octets they share at the front, it ends or has the smaller octet: Go's string order |
| Names.AscendingExactly | internal/servermodel/order.go:12-15 | A list is ascending if and only if each name precedes the next one in that order |
| Names.PageExactly | internal/servermodel/registry.go:323-346 | A page holds the first names above the token, 100 by default, and more follow if and only if some are left |
| Names.Paginate | internal/servermodel/registry.go:323-346 | Exactly the names greater than the token, cut to the page size (100 by default), whether or not the token is still there |
| Names.FindAfter | internal/servermodel/registry.go:328-339 | The linear search finds the position behind the token, 0 exactly when the token is gone |
| Names.AboveMembers | internal/servermodel/registry.go:323-346 | A name is in the rest of a listing if and only if it is stored and greater than the token |
| NameTable.KeyInjective | internal/servermodel/registry.go:107-109 | Keys identify objects when domain names contain no slash |
| NameTable.KeyCollision | internal/servermodel/registry.go:107-109 | With a slash in a domain name two different objects share a key |
| NameTable.RequestHits | internal/servermodel/registry.go:182-184 | A requested name with any domain shares the key of a stored object if and only if it is its name, or its domain is the stored domain, a slash and x while the stored item is x, a slash and the requested item |
| NameTable.PlainItems | internal/servermodel/registry.go:182-184 | Every requested name hits only the object of that name if and only if no stored item name holds a slash |
| NameTable.Table.constructor | internal/servermodel/registry.go:74-82 | An empty table refines the empty map |
| NameTable.Table.Insert | internal/servermodel/registry.go:129-142 | String-keyed map and order slices refine the map by (scope, domain, item): inserted exactly when absent |
| NameTable.Table.Delete | internal/servermodel/registry.go:227-249 | Removed exactly when stored and deletable, from map and slice alike; under a name that hits another object by a slash in its domain, that object goes and its own name stays listed |
| NameTable.Table.DeleteAll | internal/servermodel/registry.go:252-298 | What survives, how many matched, and that the deleted count is the drop in stored objects |
| NameTable.Table.Lookup | internal/servermodel/registry.go:218-225 | For every request: the object with that identity, nothing if there is none, and otherwise the object that a slash in the requested domain hits |
| NameTable.Table.List | internal/servermodel/registry.go:310-321 | A page of the order slice |
| NameTable.Table.NamesListed | internal/servermodel/registry.go:310-321 | Each order slice is strictly ascending and holds exactly the stored names of its scope and domain |
| NameTable.Table.NamesInOctetOrder | internal/servermodel/registry.go:310-321 | Neighbours of an order slice are in octet order: a proper prefix first, else the smaller octet at the first difference |
| NameTable.Table.AddName | internal/servermodel/registry.go:135-140 | Adds one name to one slice and keeps all slices ascending |
| NameTable.Table.DropName | internal/servermodel/registry.go:240-246 | Drops one name from one slice and keeps all slices ascending |
| ServerModel.Registry.constructor | internal/servermodel/registry.go:74-84 | A new registry is empty and consistent |
| ServerModel.Registry.RegisterDomain | internal/servermodel/registry.go:86-99 | Adds a domain exactly when it is non-empty and new |
| ServerModel.Registry.RegisterVariable | internal/servermodel/registry.go:115-142 | Succeeds exactly when the name is non-empty and new and its domain exists; the refined map gains that entry only |
| ServerModel.Registry.DefineNVL | internal/servermodel/registry.go:188-216 | The same for named variable lists |
| ServerModel.Registry.LookupNVL | internal/servermodel/registry.go:218-225 | For every request: the list of that name, or the one that a slash in the requested domain hits |
| ServerModel.Registry.DeleteNVL | internal/servermodel/registry.go:227-249 | Deletes exactly a stored deletable list, for every name that hits no other list |
| ServerModel.Registry.DeleteAllNVLs | internal/servermodel/registry.go:252-298 | All deletable lists of the scope go, nothing else does, and both counts are right |
| ServerModel.Registry.ListDomains | internal/servermodel/registry.go:161-166 | A page of the domain names |
| ServerModel.Registry.OrderIsDetermined | internal/servermodel/registry.go:115-248 | In every valid state an order slice is the one ascending list of the stored names |
| ServerModel.Registry.OrderCounts | internal/servermodel/registry.go:252-298 | An order slice has one name for each stored list, so NumberMatched counts lists |
| NvlModel.RunConserves | server.go:1406-1570 | Over every run of requests on all connections, interleaved with connects, disconnects and server registrations: every list that came in is stored, was reported deleted or went with its association, and no undeletable list is gone |
| NvlModel.StepConserves | server.go:1406-1570 | Each single event keeps that balance and keeps association lists deletable |
| NvlModel.RegisteredStays | server.go:237-282 | A list the server registers as undeletable at any point of a run is there at its end |
| NvlModel.DeleteAccounting | server.go:1517-1570 | For every delete request NumberDeleted is the drop in stored lists, at most NumberMatched, and no undeletable list goes |
| NvlModel.DefineAccounting | server.go:1406-1459 | A define adds exactly one list and inserts association lists as deletable |
| NvlModel.ClearAssocAccounts | server.go:673-687 | The association clear-all accounts correctly if and only if its lists are all deletable or none is |
| NvlModel.ClearAssocDropsUndeletable | server.go:673-687 | One deletable and one undeletable association list: both go, one is counted |
| NvlExact.DeleteNamedExactly | server.go:1525-1547 | Exactly the named deletable lists go, the deleted count is their number, and a name matches in addition if and only if its list is protected |
| NvlExact.ScopesExactly | server.go:1517-1570 | Which lists each scope of delete takes, what it counts as matched, and exactly which requests are refused |
| NvlExact.DefineExactly | server.go:1406-1459 | A list is defined if and only if it has a place and a new name; it is then found, deletable and with its members, and every other list is as it was |
| NvlExact.DefineThenDelete | server.go:1517-1570 | Deleting a list right after its definition restores everything and counts one |
| NvlExact.AskExactly | server.go:1517-1570 | A request sees the shared lists and its own association lists and changes no other connection's |
| NvlExact.ConnectionsExactly | server.go:335-349 | A connection starts without lists, and only its own go with it |
| NvlExact.RegistrationExactly | internal/servermodel/registry.go:188-216 | What the server registers is stored as it is, exactly when its domain exists and its name is new |
| NvlService.HandleDefine | server.go:1406-1459 | The handler over registry and association store does what the model step does |
| NvlService.HandleDelete | server.go:1517-1570 | The handler returns the model's counts, leaves the model's lists, and fails in the same cases, for every request when no stored list name holds a slash |
| NvlService.DeleteNamed | server.go:1527-1547 | The loop over list names computes the folded model step |
| NvlService.DeleteOne | server.go:1528-1546 | One name, association or shared, as the model step |
| NvlService.DeleteShared | server.go:1554-1561 | The domain and VMD branches |
| NvlService.AssocLists.Define | server.go:612-624 | Stored exactly when the name is new, in map and order |
| NvlService.AssocLists.Delete | server.go:633-648 | Removed exactly when stored and deletable |
| NvlService.AssocLists.DeleteAll | server.go:673-687 | Counts all and deletable lists, and drops all of them when any was deletable |
| NvlService.CountDeletable | server.go:676-681 | The counting loop over the map |
| Pagination.GetNameListAll | mms.go:1819-1841 | Against a registry that changes between pages: a run that returns is strictly ascending, holds every name present throughout and above the start token and only names present at some page; the stall error never fires; against an unchanging registry whose names fit a page, it returns if and only if the client accepts the length of every name above the token, and then exactly those names |
| Pagination.HandleGetNameList | server.go:1067-1120 | One page of the listing, shortened to the longest prefix that fits the budget |
| Pagination.ResponseIsPage | server.go:1067-1120 | What a client decodes is a prefix of the names above the token, non-empty unless it is all of them; decoding fails only for a name the client refuses |
| Pagination.ResponseIsLongest | server_pdusize.go:31-55 | A response is the whole page if it fits, else its longest fitting non-empty part with more to follow, else an error |
| Pagination.CollectPage | mms.go:1819-1841 | One more page keeps the collected list ascending, complete up to the new token and sound |
| Pagination.PageCovers | mms.go:1819-1841 | A name of the listing above the old token and not above the new one is on the page |
| Pagination.RespondSucceeds | server_pdusize.go:31-55 | When each name fits a page of its own, a page can always be sent |
| Pagination.FetchPage | mms.go:1819-1841 | The decoded page of a successful request is a page of the rest |
| Pagination.EncoderMonotone | server.go:1110-1112 | The GetNameList encoder grows with the number of names, as the search needs |
| FitList.SearchFit | server_pdusize.go:31-55 | For every length-monotone encoder the binary search returns the whole list if it fits, else the longest fitting non-empty proper prefix, else an error; always within the budget |
| FitList.LongestFit | server_pdusize.go:31-55 | The largest prefix length that fits, none exactly when no length does |
| NameListWire.NameListRoundTrip | internal/pdu/getnamelist.go:81-124 | A GetNameList response of accepted names decodes to the same names and moreFollows |
| NameListWire.NameListExact | internal/pdu/getnamelist.go:81-147 | A page of names of any length decodes to itself if and only if every name is within 1024 octets, and is refused otherwise |
| PduMeaning.IdentifierMeaning | internal/pdu/getnamelist.go:126-147 | Identifiers in any length form, up to 1024 octets each and 100000 in all |
| PduMeaning.NameListMeaning | internal/pdu/getnamelist.go:81-124 | More follows unless one zero octet says otherwise |
| NameListWire.IdentifiersRoundTrip | internal/pdu/getnamelist.go:126-147 | An identifier list comes back in order |
| NameListWire.ScanIdentifiers | internal/pdu/getnamelist.go:126-147 | The offset loop decodes the identifier list |
| NameListWire.MarshalMonotone | internal/pdu/server_helpers.go:418-433 | A longer prefix has no shorter response |
| Responses.BudgetExact | server_pdusize.go:12-26 | The 16-octet overhead is enough for every invoke ID, service tag below 128 and payload if and only if the PDU size is at most 65539 |
| Responses.BudgetSound | internal/codec/response.go:14-24 | Up to 65539 every payload within the budget gives a response within the PDU size |
| Responses.BudgetOverrun | internal/codec/response.go:14-24 | Above it every payload that fills the budget overruns with a large ID and a two-octet tag |
| Responses.ConfirmedResponseSize | internal/codec/response.go:14-24 | The exact size of a confirmed response |
| Responses.WrapSize | internal/asn1util/raw.go:60-81 | The exact size of a context-tagged element, short and long tag form |
| Responses.ErrorSize | internal/codec/response.go:36-90 | Errors, rejects and cancel errors stay within 128 octets for every int64 class and code |
| Envelope.IdReadBack | internal/pdu/confirmed.go:77-97 | The invoke ID at the front of a PDU content is read back, from tag 0x02 and tag 0x80 |
| Envelope.InvokeIDReadBack | internal/pdu/confirmed.go:77-97 | The invoke ID is read back from the whole PDU |
| Envelope.UnwrapInverts | internal/codec/unmarshal.go:25-47 | The outer element of an encoded PDU is stripped to exactly its content |
| Envelope.WrapInverts | internal/asn1util/raw.go:33-81 | What the context-tag wrapper writes is read back, short and long tag form, in front of any suffix |
| Envelope.ResponseReadBack | internal/codec/unmarshal.go:66-88 | From a confirmed response the client recovers the invoke ID, the service tag and the payload, for every tag; a tag above 31 bits is unreadable, a negative one reads as zero |
| Envelope.TagLost | internal/codec/unmarshal.go:66-88 | An element with a tag number above 31 bits is unreadable |
| PduMeaning.LengthExactly | internal/codec/unmarshal.go:25-54 | A length is accepted if and only if it is in its minimal form and within 31 bits |
| PduMeaning.TagNumberExactly | internal/codec/unmarshal.go:25-54 | A long tag number is accepted if and only if it is minimal, above 30 and within 31 bits |
| PduMeaning.UnwrapExactly | internal/codec/unmarshal.go:25-54 | A PDU is one element with a tag number below 31 and nothing behind it |
| PduMeaning.EnvelopeMeaning | internal/codec/unmarshal.go:66-88 | An envelope is a minimal INTEGER of 32 unsigned bits and one service element, nothing else |
| PduMeaning.InvokeIDMeaning | internal/pdu/confirmed.go:77-99 | The dispatch ID is the place value of the first element, under either of its two tags |
| ErrorWire.ErrorRoundTrip | internal/pdu/error.go:32-113 | A confirmed error reaches the client with its ID, class and code if and only if the class is a single-octet tag number (0 to 30) and the code a 32-bit integer |
| ErrorWire.ClassLost | internal/pdu/error.go:91-113 | Any other class is refused or read as a different one |
| ErrorWire.CodeLost | internal/pdu/error.go:91-113 | A code beyond 32 bits, which needs more than the four octets the integer decoder takes, makes the error undecodable |
| ErrorWire.CodeReadBack | internal/berutil/berutil.go:175-190 | An encoded code is read back if and only if it is a 32-bit integer, and refused otherwise |
| ErrorWire.RejectRoundTrip | internal/pdu/error.go:135-179 | A reject comes back with ID, kind and reason if and only if it is one of the eleven kinds and the reason a 32-bit integer |
| PduMeaning.ErrorMeaning | internal/pdu/error.go:32-70 | A confirmed error is its invoke ID and its service error, in any length forms, and is refused without the ID |
| PduMeaning.ServiceErrorMeaning | internal/pdu/error.go:72-110 | The first element tagged [0] holds the class; others are skipped; nothing may follow the class |
| PduMeaning.ChoiceMeaning | internal/pdu/error.go:91-110 | The tag is the class and one to four octets the two's complement code; no content leaves the code |
| PduMeaning.RejectMeaning | internal/pdu/error.go:135-179 | A reject has a kind from 1 to 11 with its reason, and an invoke ID or none |
| ErrorWire.ScanLoop | internal/pdu/error.go:41-63 | The offset loop over the fields computes the recursive scan |
| ServerConn.EndsAgree | mms.go:197-224 | For all configurations both ends finish with the same parameters: PDU size at least 128, limits at least 1 |
| ServerConn.WithinConfiguration | internal/serverconn/conn.go:170-184 | The agreed values exceed a configured one exactly where that is below the minimum |
| ServerConn.NegotiatedIsBest | internal/serverconn/conn.go:170-184 | Each of the four agreed values is at least its minimum, exceeds neither end unless it is the minimum, and reaches one of the two ends |
| ServerConn.BestIsGreatest | internal/serverconn/conn.go:170-184 | Such a value is unique: any value both ends allow is at most the agreed one, and it is at most each end that reaches the minimum |
| ServerConn.AppliedIsBest | mms.go:197-216 | With any server the client uses its size and nesting, its own where these are not positive, and the best of both for outstanding calls |
| ServerConn.Conn.constructor | internal/serverconn/conn.go:66-73 | A connection starts with its own options and nothing pending |
| ServerConn.Conn.ReceiveAssociation | internal/serverconn/conn.go:79-107 | The proposal is kept until it is answered |
| ServerConn.Conn.AcceptAssociation | internal/serverconn/conn.go:111-153 | Answers with the negotiated parameters and uses them from then on; an error without a pending proposal, and when the answer cannot be sent, which keeps the old options |
| ServerConn.Conn.HandleConfirmedRequest | internal/serverconn/conn.go:232-260 | Sends one PDU: the response, the service error, or a resource error when the response does not fit; reports a failed send |
| ServerConn.Conn.Serve | internal/serverconn/conn.go:188-230 | The loop sends exactly the replies of the run, in order, up to where the transport fails; it stops at a conclude, a FINISH, anything undecodable or a failed send |
| ServerConn.RepliesFit | internal/serverconn/conn.go:188-260 | Every PDU of every run passes the size check of a client that applied the same negotiation |
| ServerConn.ReplyOutcome | internal/serverconn/conn.go:232-260 | The reply carries the request's ID. If the response fits, the client decodes the handler's payload from it exactly for service tags of 31 bits; otherwise it decodes the handler's class and code, access (7, 1) or resource (3, 0), exactly for classes 0 to 30 and 32-bit codes |
| ServerConn.BadRequestRejected | internal/serverconn/conn.go:232-238 | The reject of a malformed confirmed request decodes to invoke ID 0, kind 1, reason 0 |
| PduMeaning.BadRequestAnswered | internal/serverconn/conn.go:232-238 | A malformed confirmed request is answered with exactly that reject |
| PduMeaning.CancelAnswered | internal/serverconn/conn.go:360-368 | A cancel is answered with an error of class 10, code 1, under the ID it named |
| PduMeaning.ConcludeAnswered | internal/serverconn/conn.go:324-331 | A conclude is answered with the empty conclude response and ends the loop |
| PduMeaning.Unanswered | internal/serverconn/conn.go:188-230 | Oversized, undecodable and unexpected PDUs get no answer and do not end the loop |
| PduMeaning.FailureCodes | internal/serverconn/conn.go:232-260 | A handler failure reaches the client as class 7, code 1, an answer that is too long as class 3, code 0 |
| ServerConn.OneAnswerEach | internal/serverconn/conn.go:188-260 | Over every run the confirmed answers are, one for one and in order, those of the well-formed requests, each with its own invoke ID |
| ServerConn.AnswersCut | internal/serverconn/conn.go:188-260 | Over a transport that fails part-way, the answers that get out are the first ones of the run |
| Files.ServeFiles | server.go:341-350 | For every run of requests with at most 2^32 opens among them: when the association ends every handle the provider opened has been closed exactly once |
| Files.FrsmTable.constructor | server_file.go:34-36 | A new table is empty |
| Files.FrsmTable.Alloc | server_file.go:38-45 | Every handle stays in the table or closed once if and only if the next ID is free |
| Files.FrsmTable.NextIsFree | server_file.go:38-45 | With fewer than 2^32 opens before it, an open gets an ID of its own |
| Files.FrsmTable.FileOpen | server_file.go:98-132 | The handle ends up in the table under a new ID and at the requested position, or closed because the position cannot be reached; an error with the handle left open exactly when its size has no encoding; with a provider that never fails, it is opened exactly when the position is within the file |
| Files.FrsmTable.FileRead | server_file.go:154-186 | One chunk of the file behind the ID, encoded within the budget and decoding to that chunk; an error for an unknown ID or a failed read, which leaves the position |
| Files.FrsmTable.FileClose | server_file.go:189-213 | Removes the entry and closes the handle once; false exactly for an unknown ID |
| Files.FrsmTable.CloseAll | server_file.go:64-74 | Closes whatever is still open; afterwards every handle is closed exactly once |
| Files.FrsmTable.Remove | server_file.go:54-62 | Returns and removes the entry, if any |
| Files.SkipFileBytes | server_file.go:136-152 | Skipping leaves exactly the rest of the file; with a provider that never fails it succeeds exactly up to the file size |
| Files.Handle.Read | server_file.go:358-369 | A chunk and what remains make up what there was; under the contract no more than asked for, and the last chunk is marked; a failed read keeps the position |
| Files.FileReadAll | client_file.go:264-276 | Returns everything from where the file stands, for every chunking a provider may choose, or the error of a read that failed |
| Files.DownloadFile | client_file.go:280-297 | Returns the whole file or an error, and leaves the handle closed once and the table as it was either way; only a file too large for the size field is refused with its handle left in the table |
| Files.ReadFrom | client_file.go:47-276 | Opening at a position and reading all returns exactly the contents from there on, for every chunking; it succeeds if and only if the position is within the file and the size has an encoding, and a position past the end leaves the handle closed |
| Files.ReadRoundTrip | internal/pdu/file.go:348-357 | A FileRead response decodes to its data and moreFollows |
| PduMeaning.ChunkMeaning | internal/pdu/file.go:480-502 | The fields of a chunk in any order and length form; more follows unless a zero octet says otherwise |
| Files.ScanReadResponse | internal/pdu/file.go:480-502 | The offset loop decodes the response fields, moreFollows true by default |
| Files.ReadFitsBudget | server_file.go:173-181 | The eight octets set aside are enough for any chunk |
| Session.ConnectRoundTrip | internal/session/session.go:102-140 | CONNECT and ACCEPT encode if and only if their parameters fit 65535 octets, and then `Parse` returns selectors and user data, in either length form, before any suffix |
| Session.SimpleRoundTrip | internal/session/session.go:164-166 | The same for FINISH and DISCONNECT |
| Session.AbortRoundTrip | internal/session/session.go:169-175 | The same for ABORT |
| Session.DataRoundTrip | internal/session/session.go:142-152 | A DATA SPDU parses to its user data |
| Session.LIRoundTrip | internal/session/session.go:327-357 | Every length up to 65535 survives, in one or three octets |
| Session.ScanItems | internal/session/session.go:214-257 | The parameter loop computes the recursive parse, its refusals included |
| Session.AppendConnectAccept | internal/session/session.go:102-127 | The appending encoder writes the parameters in order, leaving out empty ones |
| Session.ItemStep | internal/session/session.go:225-252 | One encoded parameter group is consumed and applied, whatever follows |
| SessionMeaning.ItemMeaning | internal/session/session.go:225-252 | A parameter in either length form sets the calling selector (33), called selector (34) or user data (c1), or is skipped; the last of a kind counts |
| SessionMeaning.HeaderMeaning | internal/session/session.go:179-257 | The five SPDU types with parameters, in either length form |
| SessionMeaning.OtherTypes | internal/session/session.go:179-212 | A REFUSE is known by its type, data by its fixed header, and other types are refused |
| SessionMeaning.IndicatorMeaning | internal/session/session.go:345-357 | A length is one octet below 255, or 255 and two octets of any value |
| SessionMeaning.ConnectOctets | internal/session/session.go:102-140 | The exact octets of a short CONNECT or ACCEPT: version 2, duplex, selectors, user data |
| SessionMeaning.OtherOctets | internal/session/session.go:142-175 | The exact octets of FINISH, DISCONNECT, ABORT and DATA |

## Left out

- TCP, TLS, COTP and the accept loop: input and output through libraries.
- Presentation and ACSE framing and most request marshallers: short TLV compositions.
- The structure marshalling of Go's `encoding/asn1`: Initiate parameters and inbound confirmed requests are taken as already decoded; `Envelope.ParseRaw` models only its reading of one element.
- GeneralizedTime values, and the error MarshalData returns for a value kind it does not know.
- Conversions between float32 and float64: floats are bit patterns.
- Data.DecodeNormalises: excludes REAL, which base 16 may write shorter than the encoder does, and negative access-error codes, which it refuses; `Data.DecodedSurvives` gives the exact condition with those values included, without the bound on the size.
- Data.DecodedIsWellFormed: the same exclusion.
- RealCodec.EvaluateExact: the sign of the NaN that zero times infinity gives is left open, since it depends on the machine; the library's conversion, power and product are taken to round to nearest, ties to even.
- ServerModel.Registry.DeleteNVL: after a delete that hits another list by a slash in its domain the table is no longer consistent (`NameTable.Table.Delete` says how), so requests served after it are not modelled; `NvlService.HandleDelete` excludes only those.
- Oid.OidRoundTrip: the first subidentifier is an unbounded integer, so overflow of the 64-bit sum of the first two arcs is not modelled.
- Ber.TLVTooLong: states the refusal for contents whose size fits eight octets, as every Go length does.
- Pagination.GetNameListAll: each page's listing and encoding is one step, and budgets are 64-bit integers.
- Association-scope listing, which restarts when its token is missing, and journal and file-directory paging, which user providers decide.
- The page slice that aliases the registry's order slice: a page is a value.
- Lock granularity between the lookup and the delete of one list name in a request: a request is one step among those of other connections.
- Slices that overlap in one backing array: in `ValueHeap` an element slice is an array of its own, possibly shared whole; octet strings and identifiers inside a scalar are values.
- Correlation: the encoding and decoding of responses, conclude and abort PDUs, and the transport; the reader may receive any ID and any octets at any time.
- Correlation.CanReturn: says that a call always has a step and needs few of them, not that a scheduler runs it; a call inside `send` waits for the transport.
- SendGate: the transport's own buffering; a write puts octets on the stream in order, may fail at any point, and takes the transport down when it stops half-way, as the TSDU layer below promises.
- Files.FileReadAll: assumes a provider that makes progress while more follows, since the loop has no bound of its own; PDU budgets at or above 2^24 octets are excluded.
- Files.FrsmTable.FileOpen: the branch for a request without a connection in its context, and errors of the provider's own Open, which leave nothing open; DownloadFile leaves out errors of Close.
- Values: DefaultValue, String and the accessors of single kinds.
- ServerConn.ReplyOutcome: PDU sizes of 2^31 and above, which the outer element reader refuses, are excluded.
- ServerConn.Conn.Serve: the session-level response to a FINISH, and unconfirmed reports sent from other goroutines.
- Retry with backoff, metrics, logging and error classification.
