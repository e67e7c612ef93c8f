# Firebird wire driver: a verified model

A Dafny model of the parts of the pure-Go Firebird driver that pack and parse bytes and keep
state across calls, with proofs of what those parts promise. `dafny verify dfyconfig.toml`
checks everything. Code that loops over buffers or changes fields is modelled by methods and
classes, each proved equal to a specification function or to state its result outright; code
that only computes is modelled by functions, and the properties are lemmas about them.

| Module | What it models |
|---|---|
| `Bytes`, `BigEndian`, `ModularPower`, `Collections` | words in both byte orders, XDR padding, streams, big-endian naturals, powers under a modulus, shared facts about sequences and sets |
| `WireSession`, `WireProtocol` | the connection as a queue of response frames, with the count of responses the driver has put off reading; the readers and operations as methods of a connection object |
| `Srp` | SRP-6a key agreement, both sides, over an abstract 20-byte hash |
| `DecFloat`, `DecimalText` | DECFLOAT decoding and the canonical printer, against the encoding of section 3.5.2 of IEEE 754-2008 and the to-scientific-string form of the General Decimal Arithmetic |
| `ArrayShape`, `ArrayNested`, `ArrayPlacement`, `ArraySlice`, `ArraySdl` | array columns: element counts and present ranges, nested slices as arguments, where their elements land in the column, the slice wire form, the slice descriptor language |
| `BlobSegments`, `BlobCache` | segment buffers and their in-place compaction; the cache of inline blobs |
| `RowCodec`, `Cursor` | message rows; fetch responses with interleaved inline blobs and the cursor over their chunks, down to the bytes |
| `Describe` | the describe-vars parser and its continuation loop |
| `Batch` | the prepared batch: queue, flush, execution, release, the end of its transaction and statement |
| `Events` | event buffers and count deltas |
| `Calendar` | day numbers of dates |

## What the proofs say about the code

Where a property does not hold everywhere, the code is modelled as it is and the exact
condition is proved.

- **Pipelined responses.** In lazy-send mode every operation keeps the connection in step and
  hands each reader its own response exactly when `Harmless` holds (`StepExact`). Over runs of
  any length the same is exact: a run ends in step, with every response read by its own request,
  exactly when every operation was harmless where it ran (`RunInStep`); later operations never
  make a lost one good. The conditions are: no keep-alive stands behind a deferred
  response; a procedure call is not answered by a plain response, because that response is
  refused after its opcode and its body stays unread; the first of two pipelined batch responses
  is a success, because an error leaves the second one unread; and an array slice is read only
  when nothing is deferred, because that reader does not drain. A row whose BLOB column comes
  before an array column breaks the last one (`BlobThenArrayLosesStep`). A harmless operation
  makes its whole exchange and no other (`StepTranscript`): one segment request for every response
  up to the one that says 2, every put while they succeed, a close exactly when the ones before
  succeeded, each read by its own request, and the free and close responses put off.
- **Key agreement.** The client reduces its exponents modulo the prime itself. That is harmless
  exactly while `a + u * x` stays below it (`ExponentUnreduced`), which every drawn exponent
  guarantees; primality is never used. Both sides' keys are the protocol's formula, written out
  from the hash, salt, user and password (`SessionFormula`). Another password, user or salt gives
  another secret unless the hash maps two named different messages to one digest, or user and
  password run into each other across the colon. The scrambling number does not separate the
  public values it joins, because their padding is stripped (`PaddedPairsCollide`).
- **Day numbers.** The writer truncates where the calendar floors, so it is exact exactly when
  the March-based year is not negative or is a leap year, and one too high otherwise. A written
  date is read back exactly when it is not before the first of March of year 0
  (`ParseUndoesDayNumber`), and two dates share a number exactly when they are neighbours and only
  the number of the earlier one is too high (`SharedNumbers`).
- **Decimal text.** The printer is read back exactly when the adjusted exponent neither wraps
  nor is the least int32, whose text carries two minus signs. A DECFIXED value is printed under
  its column's scale, and its text reads back under that same condition. The form of every text is
  fixed too: when it is plain or scientific, how many digits stand where, and that no digit is
  superfluous (`CanonicalForm`).
- **Arrays.** A stored slice is read back in step for every element type whose put and get
  geometry agree, and those conditions are exact: a QUAD element is written with eight bytes and
  read with four, fixed-size text needs its character and byte lengths to take the same number of
  words, and a varying element needs to fit the column's bytes. Fixed-size text loses trailing
  spaces and zeros.
  An element count that does not fit an int is zero, so such an argument sends no element.
  Lengths are those of a server's elements, in a table of their own (`ServerBytes`): a response
  announcing any number of them has exactly these read (`ResponseReadsBack`).
- **Short arrays.** An argument is sent without its own axes and padded only at its end, so its
  leaves keep their coordinates exactly when, behind leading axes of one element, the first longer
  axis is within the column's and every axis behind it is as long as the column's
  (`PlacementExact`). Two rows of two in a column of two rows of three do not: the first element
  of the second row becomes the last one of the first row (`ShortRowsShift`).
- **Rows.** A field is read back exactly when what is sent is as long as what is read, and a row
  exactly when every field is. Types that the batch writer sends as text (the decimal and 128-bit
  ones, and those with a time zone) are not, unless the text happens to have the field's length.
  The bytes of every field are given type by type (`FieldBytes`, `FieldForm`).
- **Cursor.** Draining yields every row in order and then the end for ever when no rows follow an
  empty chunk; otherwise the end is reported before all rows were.
- **Descriptions.** However a description is cut, the assembled columns are those of the whole
  one, and those are the ones the server told, field by field and in any order
  (`DescriptionIsUnderstood`). A cut reply that holds no column number and describes nothing ends the loop
  silently.
- **Batch.** Under autocommit a good execution commits exactly the accepted rows; one with failed
  rows commits none of them; without autocommit nothing is committed or rolled back (`ExecEnds`,
  `ExecCommits`). The queue is emptied before its message goes out, so the rows of a failed message
  are neither queued nor known to be stored. Since the last reset, over any run of calls, the rows
  of good messages and those queued are the accepted ones exactly when no message with rows failed
  (`ConfirmedOrQueued`; a failing run is `FailedMessageLosesRow`). The rows known to be committed,
  executed or in the server's batch and those queued are the accepted ones exactly when moreover no
  execution failed, in whole or for a row, while the batch held rows, no batch that still held rows
  was released, and no executed rows were rolled back or met a failing commit (`Conservation`). Closing the statement between a flush and the execution is such a
  release, although every exchange is good (`ReleaseLosesRow`).
- **Events.** A count is the counter told last for its name, less one as a signed 32-bit integer
  (`ServerBufferTaken`). The deltas reported for a name sum to the change of its count, with two exceptions,
  both exact. A name queued several times is accepted and has its change reported that many
  times (`TwiceQueuedTwiceReported`). A buffer that is cut off behind its version byte reports
  nothing, yet its earlier records are stored and the other counts reset
  (`CutBufferHidesChange`): a call reports a name's whole change exactly when its buffer parses
  to its end or the count is what it was, and a run exactly when the changes made by refused
  buffers add up to nothing (`ReportedInFull`).

## Model

| member | source | states |
|---|---|---|
| WireSession.StepExact | wireprotocol.go:1928-1961 | for every operation, server answer and state in step: afterwards the unread frames are exactly the deferred responses and every reader got the response to its own request, if and only if the operation is harmless there |
| WireSession.RunInStep | wireprotocol.go:1928-1961 | over every run of operations, of any length, whatever the server answers: the connection is in step at the end and no response was taken by another request, if and only if every operation was harmless in the state it ran in |
| WireSession.DoomedRun | wireprotocol.go:1928-1961 | once more leftovers of earlier requests are unread than the driver counts, or a keep-alive stands among them, every run from there has a response taken by another request or is still in that state at its end |
| WireSession.StepTranscript | wireprotocol.go:1022-1076 | every harmless operation in step makes exactly its exchange: the requests that go out, the response each of them reads, and the responses put off, in both modes |
| WireSession.RunTranscript | wireprotocol.go:1928-1961 | over every harmless run the readings are those of its exchanges, in order |
| WireSession.SegmentsExact | wireprotocol.go:1036-1065 | of a reading that its last answer ends, one request goes out and is answered per segment, each by its own response, and the loop is done if and only if that last answer is good and whole |
| WireSession.PutsExact | wireprotocol.go:2028-2042 | the puts go out up to the first that fails, or all of them; each reads its own response, and the loop is done if and only if all succeed |
| WireSession.PrepareExact | statement.go:362-395 | the statement handle is the one the server gave to the allocate request, in both modes and whatever was deferred before; the prepare response is read by the prepare request |
| WireSession.FreeExact | statement.go:46-66 | freeing a statement, with an autocommit commit behind it, keeps the count of deferred responses exact, if and only if no keep-alive is behind a deferred response |
| WireSession.AskExact | wireprotocol.go:1928-1961 | a response is read by its own request if and only if no keep-alive stands between a deferred response and it; nothing is unread then |
| WireSession.DeferExact | wireprotocol.go:1067-1069 | deferring a response keeps the count equal to the unread responses under the same condition |
| WireSession.ReadBlobExact | wireprotocol.go:1022-1076 | open, any number of segment requests and a close, ended early by an error or a segment that is cut off, keep the connection in step in both modes if and only if no keep-alive is behind a deferred response; a cached BLOB takes no request; how far the loop goes is `StepTranscript` |
| WireSession.WriteBlobExact | wireprotocol.go:2019-2052 | create, any number of puts and a close keep the connection in step if and only if no keep-alive is behind a deferred response; the close is never deferred |
| WireSession.ProcedureExact | wireprotocol.go:1980-2017 | a procedure call stays in step if and only if no keep-alive is behind a deferred response and the server sends a result: a plain response is refused after its opcode and its body stays unread |
| WireSession.FetchExact | wireprotocol.go:1773-1856 | a fetch reads the answer to its own request, rows or an error response, past deferred responses and inline blobs |
| WireSession.BatchPairExact | batch_wire.go:63-71 | a request pipelined with a ping stays in step if and only if no keep-alive is behind a deferred response and the first of the two responses is a success |
| WireSession.BatchExecExact | batch_wire.go:169-205 | the batch completion is read by its own request behind any deferred responses |
| WireSession.SliceExact | wireprotocol.go:1610-1632 | an array slice is read by its own request if and only if no response is deferred |
| WireSession.BlobThenArrayLosesStep | wireprotocol.go:1067-1069 | a BLOB column read before an array column in lazy-send mode loses step: the smallest such run |
| WireProtocol.Protocol.AwaitFrame | wireprotocol.go:1934-1952 | the keep-alive and draining loops leave exactly the state the session model calls ready |
| WireProtocol.Protocol.OpResponse | wireprotocol.go:1928-1961 | the reader makes the step of the session model |
| WireProtocol.Protocol.OpFetchResponse | wireprotocol.go:1773-1802 | the reader makes the step of the session model, inline blobs included |
| WireProtocol.Protocol.OpSqlResponse | wireprotocol.go:1980-2017 | the reader makes the step of the session model, refusing a plain response after its opcode |
| WireProtocol.Protocol.OpBatchCompletion | batch_wire.go:169-199 | the reader makes the step of the session model |
| WireProtocol.Protocol.OpSliceResponse | wireprotocol.go:1610-1632 | the reader makes the step of the session model, without draining |
| WireProtocol.Protocol.NewStatement | statement.go:362-395 | prepares a statement in both modes as the session model does, handle included |
| WireProtocol.Protocol.FreeStatement | statement.go:46-66 | defers or reads the free response as the session model does |
| WireProtocol.Protocol.GetBlobSegments | wireprotocol.go:1022-1076 | returns at once for a cached BLOB; otherwise ends the segment loop as the session model says, on an error or a segment that is cut off too, and defers the close in lazy-send mode |
| WireProtocol.Protocol.SendPair | batch_wire.go:73-87 | a batch request with a ping behind it makes the step of the session model |
| WireProtocol.Protocol.ReceiveTwoResponses | batch_wire.go:63-71 | stops at the first error, leaving the second response unread |
| Srp.KeysAgree | srp.go:124-191 | client and server derive the same session key for every salt, user, password, hash with 20-byte digests, b, and a up to the prime less 2^320; the prime need not be prime |
| Srp.SessionFormula | srp.go:107-191 | with each other's public values both session keys are the hash of g to the power b * (a + u * x), reduced, with u and x written out from hash, salt, user and password |
| Srp.ClientFormula | srp.go:169-182 | for any public values the client's session key is the hash of (B - k * g^x) to the power a + u * x |
| Srp.ServerFormula | srp.go:184-191 | for any public value of the client the server's session key is the hash of (A * (g^x)^u)^b |
| Srp.PublicFormulas | srp.go:124-167 | the public values are g^a and k * g^x + g^b, reduced |
| Srp.UserHashDepends | srp.go:107-114 | equal secrets come from the same salt and the same user:password text, or show two different messages with one digest |
| Srp.OtherPasswordOtherHash | srp.go:107-114 | without such a pair, equal secrets of one user have one password, and those of one password have one user |
| Srp.ScrambleDepends | srp.go:91-100 | equal scrambling numbers come from the same joined public values, or show two different messages with one digest; with one public value given, the other is the same |
| Srp.PaddedPairsCollide | srp.go:91-100 | two different pairs of public values have the same scrambling number under every hash |
| Srp.SecretsAgree | srp.go:169-191 | for any modulus, generator and multiplier both secrets are g to the power b * (a + u * x) |
| Srp.ExponentUnreduced | srp.go:172-179 | reducing u * x and then a + u * x modulo n changes nothing if and only if a + u * x is below n |
| Srp.DrawnExponentsFit | srp.go:124-138 | every 128-bit private exponent satisfies the bound of the agreement |
| Srp.Pad | srp.go:42-65 | the fill, reverse and strip loops give the shortest byte form of the number modulo 2^1024 |
| Srp.PadIsMinimal | srp.go:42-65 | the padded form is the minimal big-endian form of the number modulo 2^1024 |
| Srp.PadRoundTrip | srp.go:42-82 | reading the padded form gives the number back if and only if it fits 128 bytes |
| BigEndian.BytesToBigInt | srp.go:71-82 | the accumulating loop computes the big-endian value |
| BigEndian.WordsAreBigEndian | utils.go:77-99 | the bytes of a word are the big-endian form of the integer modulo 2^32 or 2^64 |
| BigEndian.LittleIsReversed | utils.go:53-134 | the little-endian forms are the big-endian ones backwards and are read backwards |
| DecFloat.Decimal128RoundTrip | decfloat.go:131-174 | decoding the decimal128 encoding gives back sign, biased exponent and coefficient, for all of them in range |
| DecFloat.Decimal64RoundTrip | decfloat.go:184-226 | the same for decimal64 |
| DecFloat.CalcSignificand | decfloat.go:101-129 | the declet loop computes the significand for any number of declets |
| DecFloat.SignificandRoundTrip | decfloat.go:101-129 | for any number of declets, decoding an encoded tail behind a prefix restores all digits |
| DecFloat.DecletRoundTrip | decfloat.go:45-99 | each of the thousand digit groups survives the encoding of table 3.4 and the decoder |
| DecFloat.EveryDecletDecodes | decfloat.go:45-99 | the invalid-encoding branch cannot be taken: any bits give three digits |
| DecFloat.CombinationsAreTotal | decfloat.go:131-174 | the error branch of either combination field cannot be taken |
| DecFloat.DecodersAreTotal | decfloat.go:131-226 | no 8 or 16 bytes make a decoder fail |
| DecFloat.SpecialsDecode128 | decfloat.go:131-174 | infinities and NaNs of both signs decode from their combination bits, whatever the rest holds |
| DecFloat.SpecialsDecode64 | decfloat.go:184-226 | the same for decimal64 |
| DecFloat.SpecialsText | decfloat.go:176-243 | infinities and NaNs print as their name behind their sign, in both widths and whatever the scale |
| DecFloat.TextOfEncoding | decfloat.go:184-243 | the text returned for an encoded decimal reads back as the number encoded, in both widths |
| DecFloat.KnownDecimal | decfloat_vectors_test.go:94-94 | the eight bytes A2 30 00 00 00 00 03 D0 are printed as -7.50 |
| DecFloat.FixedTextReadsBack | decfloat.go:176-182 | the text of a DECFIXED value reads back as the encoded sign and coefficient under the scale of the column, if and only if that number is printable |
| DecimalText.PrintedReadsBack | decfloat.go:245-298 | for every number whose adjusted exponent is representable and can be negated, reading the printed form as a numeric string gives back sign, coefficient and exponent, quantum and zeros included |
| DecimalText.CanonicalForm | decfloat.go:245-298 | the text is plain if and only if the exponent is not positive and the adjusted one is at least -6; the place of the point, the count of digits, the sign and form of the exponent and the absence of superfluous zeros are fixed |
| DecimalText.PrinterIsInjective | decfloat.go:245-298 | no two printable numbers share a text |
| DecimalText.PrinterIsExact | decfloat.go:245-298 | for a digit count within int32 the text reads back if and only if the adjusted exponent is representable and can be negated |
| DecimalText.LeastExponentUnreadable | decfloat.go:285-298 | with the least int32 as adjusted exponent the text is no number at all |
| Calendar.WriterIsExact | utils.go:213-221 | the day number is the true one if and only if the March-based year is not negative or is a leap year, and one more otherwise |
| Calendar.TrueDaySteps | utils.go:213-221 | the reference is the day number: one more per calendar day in all years, zero on 1858-11-17 |
| Calendar.NextDayIsNextNumber | utils.go:213-221 | from year 1 on, unbounded, the next calendar day is the next number, across months, leap years and centuries |
| Calendar.NumbersOrderDates | utils.go:213-221 | from the first of March of year 0 on, numbers order dates as the calendar does, so no two of them share one |
| Calendar.SharedNumbers | utils.go:213-221 | over all years numbers never go down, and two dates share one if and only if they are neighbours and truncation raises only the number of the earlier one |
| Calendar.TruncationCollision | utils.go:213-221 | the last of February and the first of March of year 0 share a number |
| Calendar.ParseUndoesDayNumber | xsqlvar.go:213-234 | the reader gives back a date from its written number if and only if the date is the first of March of year 0 or later |
| Calendar.DayNumberUndoesParse | xsqlvar.go:213-234 | a number is read as a date that has it, if and only if it is that of the first of March of year 0 or a later one |
| Calendar.DateRoundTrip | xsqlvar.go:213-234 | over the wire a date survives if and only if it is the first of March of year 0 or later and its number fits an int32 |
| Bytes.XdrBytes | utils.go:156-172 | the indexed writes give the length word, the data and zero padding |
| Bytes.XdrRoundTrip | wireprotocol.go:290-297 | reading the length and that many aligned bytes undoes the XDR form and stops right behind it |
| Bytes.Int32RoundTrip | utils.go:53-118 | a 32-bit integer survives both byte orders and a wider one wraps |
| Bytes.Int32BytesRoundTrip | utils.go:91-118 | writing what was read gives back the same four bytes |
| Bytes.Int64RoundTrip | utils.go:77-142 | a 64-bit integer survives its big-endian form |
| Bytes.PaddingByMask | wireprotocol.go:1914-1915 | the masked form of the padding is the padding |
| ArrayShape.AllElementsCount | array.go:335-351 | the product of the lengths, or 0 for empty, non-positive or overflowing shapes: the division guard is exact |
| ArrayShape.ElementsInTrailingAxes | array.go:598-604 | the wrapping product of all axes after the first |
| ArrayShape.ShrinkDimensions | array.go:576-594 | the loop computes the shape of a short array or refuses it |
| ArrayShape.ShrunkExact | array.go:576-594 | each axis stays between 0 and its declared length and the weighted deficits sum to the missing count, for any rank |
| ArrayShape.WalkPresentRanges | array.go:619-631 | the recursive walk appends exactly the runs of the specification and advances by the full declared product |
| ArrayShape.RangesExact | array.go:619-631 | for any rank the runs list, in order and once each, exactly the present linear indices |
| ArrayShape.PresentBelowMeans | array.go:610-617 | that listing is strictly increasing and holds an index if and only if its mixed-radix coordinates lie below the actual lengths |
| ArrayShape.FillableRanges | array.go:436-463 | for a shape that may be filled the runs are all elements in wire order |
| ArrayShape.FillSlots | array.go:453-461 | each element the runs name is converted into the next slot |
| ArrayShape.FillArraySetter | array.go:436-463 | succeeds if and only if the elements fit the declared shape and convert; then the target has one slot per element and element i is in slot i |
| ArrayNested.IsSliceRagged | array.go:406-429 | on success the shared lengths are the least extension the value conforms to; on failure no extension is |
| ArrayNested.IsRagged | array.go:398-404 | false if and only if there is one length per depth |
| ArrayNested.MultiDimSliceGetter.Dimensions | array.go:289-331 | one axis per level of the spine or of the type, SQL NULL for nil, an error for more axes than the column has |
| ArrayNested.AxisBounds | array.go:289-331 | each axis has its own level's length and the column's lower bound for it, or 1 behind the column's axes |
| ArrayNested.MultiDimSliceGetter.Index | array.go:273-287 | the leaf at a linear index is that element of the row-major flattening |
| ArrayNested.FlattenIsRowMajor | array.go:273-287 | the flattening is as long as the shape says and its element i is the one the mixed-radix digits of i lead to |
| ArrayNested.ReportedCount | array.go:289-351 | the count of the reported axes is the number of leaves, or 0 when that overflows |
| ArrayNested.ElementsFromGetter | array.go:469-495 | extracts exactly the row-major flattening, refusing too many axes or elements and nil leaves |
| ArrayPlacement.PlacementExact | array_meta.go:453-467 | for a non-empty rectangular argument with no more elements than the column: when it reaches the column's coordinates every leaf is stored at its own, and when its leaves are all different, only then |
| ArrayPlacement.SameDigitsExact | array.go:273-287 | the linear indices of an argument have the same coordinates in the argument and in the column if and only if, behind leading axes of one element, the first longer axis is within the column's and all behind it are as long as the column's |
| ArrayPlacement.ShortRowsShift | connection.go:78-86 | element (1, 0) of a two by two argument is stored at (0, 2) of a two by three column |
| ArraySlice.EncodeSliceElements | array_meta.go:277-405 | the loop encodes every element or fails if and only if one does not convert or there are too many |
| ArraySlice.OpSliceResponse | wireprotocol.go:1634-1683 | the announced count is checked and exactly that many elements are read |
| ArraySlice.SliceElementCount | array_meta.go:532-553 | accepts exactly the buffers that split into elements and counts them |
| ArraySlice.DecodeSliceElements | array_meta.go:472-528 | splits the buffer into the elements the counting pass saw; it fails only on zoned types and uncountable buffers |
| ArraySlice.CutElement | array_meta.go:489-513 | once the count is accepted neither truncation error can fire |
| ArraySlice.ReadsWhatIsWritten | wireprotocol.go:1656-1682 | the reading loop over written slots returns their packed form and stops right behind them |
| ArraySlice.SlotExact | wireprotocol.go:1656-1682 | one written element is read back, with the stream right behind it, if and only if it has the slot size, or for a varying one fits the column |
| ArraySlice.TextNeedsOneGeometry | array_meta.go:413-451 | the reader takes the bytes of a written fixed-size text slice if and only if its character and byte lengths round to the same size |
| ArraySlice.SplitUndoesPack | array_meta.go:472-528 | decoding a packed buffer gives back its elements |
| ArraySlice.SliceRoundTrip | array_meta.go:277-467 | encoding, padding to the declared count, answering with the server's length, reading and splitting give the elements followed by zero elements and consume the stream exactly, for every symmetric type and any number of elements from none up to the declared one |
| ArraySlice.ResponseReadsBack | wireprotocol.go:1634-1683 | a response announcing any number of the server's elements, up to the declared one, has exactly those read, for every element type, and the reader stops right behind them |
| ArraySlice.WireForm | array_meta.go:295-393 | which elements a column takes, and the bytes of each on the wire, type by type: range checks and widths of integers, text no longer than the column and filled with spaces, varying text behind its length and filled with zeros |
| ArraySlice.StoredValues | array_meta.go:472-528 | the decoded values are what is kept of each element, then zeros up to the declared count |
| ArraySlice.TextSurvives | array_meta.go:514-524 | fixed-size text survives if and only if it does not end in a space or a zero |
| ArraySlice.QuadIsLopsided | array_meta.go:413-451 | the reader takes the bytes of a written QUAD slice if and only if no element was stored |
| ArraySlice.AnnouncedCount | array_sdl.go:114-148 | n elements of the server's layout announced are n elements counted, or refused if and only if they are more than declared |
| ArraySlice.PutCount | array_sdl.go:95-139 | the declared lengths of a slice are its count times the server's bytes per element, in characters for the one that is put and in bytes for the one that is got |
| ArraySdl.GenerateSDL | array_sdl.go:168-205 | the appending loops give the descriptor of the grammar |
| ArraySdl.AppendDimensionBound | array_sdl.go:209-222 | appends the bound in its form |
| ArraySdl.BoundRoundTrip | array_sdl.go:209-222 | a bound is read back if and only if it fits 32 bits |
| ArraySdl.ShortestBound | array_sdl.go:209-222 | no form that reads as the bound is shorter |
| ArraySdl.DescriptorRoundTrip | array_sdl.go:168-205 | a reader of the grammar recovers type, scale or length, relation, field and the bounds of every axis, for up to 255 axes and names of up to 255 bytes |
| ArraySdl.SmallDescriptor | array_sdl.go:168-205 | the descriptor of a small slice, byte by byte |
| BlobSegments.DecodeInlineSegmentBuffer | inline_blob.go:129-151 | the in-place compaction returns exactly the data of the original buffer, or fails if and only if a header or segment is cut off |
| BlobSegments.GetBlobSegments | wireprotocol.go:1038-1065 | the appending loop returns the data of all responses or fails on the same inputs |
| BlobSegments.ReadersAgree | inline_blob.go:129-151 | both readers return the same bytes and fail on the same buffers |
| BlobSegments.ReadableExact | wireprotocol.go:1044-1064 | the readers succeed if and only if the buffer is a run of segments, each behind its two length bytes |
| BlobSegments.CreateBlob | wireprotocol.go:2028-2042 | the pieces concatenate to the value, none is empty or over 32000 bytes and all but the last are full |
| BlobSegments.BlobRoundTrip | wireprotocol.go:1038-1065 | however a server groups the segments, either reader restores the value |
| BlobCache.InlineBlobCache.constructor | inline_blob.go:39-48 | an empty cache; a limit that is not positive disables it |
| BlobCache.InlineBlobCache.Add | inline_blob.go:50-71 | accepts a blob if and only if it fits and its key is free; the size stays the exact sum within the limit |
| BlobCache.InlineBlobCache.GetAndRemove | inline_blob.go:73-96 | serves exactly what the plain map of accepted blobs holds and forgets it; the clamp never fires and no empty transaction is kept |
| BlobCache.InlineBlobCache.ClearTx | inline_blob.go:98-117 | drops exactly the blobs of one transaction; the clamp never fires |
| BlobCache.InlineBlobCache.ClearAll | inline_blob.go:119-127 | drops every blob |
| BlobCache.LiveSince | inline_blob.go:50-127 | a blob is held if and only if it was accepted and since then neither served nor dropped |
| BlobCache.ServedOnce | inline_blob.go:73-96 | every blob served was accepted with the same bytes, and in between it was neither served already nor dropped |
| RowCodec.EncodeBatchRow | batch_encode.go:67-131 | fails if and only if an argument does not convert; otherwise a bitmap marking exactly the nil arguments, then the other fields |
| RowCodec.SetBitExact | batch_encode.go:79-79 | setting a bit of the bitmap turns on that bit and no other |
| RowCodec.NullBitIs | wireprotocol.go:1743-1752 | the reader takes column m as null if and only if bit m modulo 8, from the low end, of byte m / 8 is set |
| RowCodec.FieldBytes | batch_encode.go:133-211 | which arguments a column takes, and the bytes of each, type by type: integers as big-endian words of their width, text cut to the column, a flag as one byte; no BLOB and no array |
| RowCodec.FieldForm | batch_encode.go:98-128 | the form of a field in the message: a varying one behind its length word, fixed text filled with spaces, all padded to words |
| RowCodec.ReadRow | wireprotocol.go:1735-1769 | the reading loop computes the row of the specification |
| RowCodec.ReaderTakes | wireprotocol.go:1753-1768 | the reader takes a field of its type's bytes, or of its length word for a varying one, and the padding behind it |
| RowCodec.FieldRoundTrip | batch_encode.go:98-128 | a field is read back, with the stream right behind it, if and only if it is in step |
| RowCodec.RowRoundTrip | wireprotocol.go:1735-1769 | reading an encoded row gives null for nil arguments and each field's bytes elsewhere, for any number of columns, and stops at the row's end, if and only if every field is in step |
| RowCodec.SupportedRows | batch_encode.go:133-211 | every encodable row of the supported column types is in step |
| Cursor.ParseInlineBlobPayload | inline_blob.go:161-205 | reads one inline blob, decoding its segments in place |
| Cursor.ConsumeInlineBlobsStarting | inline_blob.go:209-224 | takes all inline blobs before the next opcode, in order |
| Cursor.OpFetchResponse | wireprotocol.go:1788-1855 | the loop over rows and continuation headers computes the chunk of the specification |
| Cursor.ChunkReadsBack | wireprotocol.go:1803-1855 | a chunk with any keep-alives before it, rows and interleaved blobs is read from its own bytes and no further: all rows in order, all blobs, and whether more are to come |
| Cursor.Rows.Next | rows.go:161-217 | yields the next fetched row; fetches when used up and more is announced; reports the end or an error otherwise |
| Cursor.FetchIsAdvance | rows.go:165-211 | over any stream of chunks a fetch takes exactly the next chunk |
| Cursor.NextRow | rows.go:161-217 | a call on the real cursor is a step of the abstract one |
| Cursor.Drain | rows.go:161-217 | draining yields every remaining row once, in server order, and then the end for ever, when no rows follow an empty chunk |
| Cursor.EarlyEnd | rows.go:213-216 | when rows do follow an empty chunk, the end is reported before all rows were |
| Cursor.DrainRows | rows.go:161-217 | any number of calls on the byte-level cursor give the outcomes of the abstract one |
| Describe.ParseSelectItems | wireprotocol.go:768-884 | the in-place parser gives the descriptions and restart index of the specification on every buffer, and stays inside both arrays |
| Describe.ApplyItem | wireprotocol.go:805-881 | the switch on one item |
| Describe.ColumnFields | wireprotocol.go:805-881 | which tag fills which field: each field of a column is what the last item of its own tag, 11 to 19, says, in any order and with unknown tags between |
| Describe.ToldIsUnderstood | wireprotocol.go:805-881 | a column that is told in full is understood as it is: even type, nullable if and only if its item is not zero, each name in its own field |
| Describe.ItemRefused | wireprotocol.go:805-881 | a tagged item is an error if and only if it is a column number out of range or cut short, a column's item before any number, or a number of fewer than four bytes; parsing goes on behind every other one |
| Describe.CutItemRefused | wireprotocol.go:790-802 | an item whose length or payload is cut off is an error |
| Describe.AnnouncedExact | wireprotocol.go:971-988 | a first reply describes columns if and only if it starts with 5, 7, 4, 0 and a count between 0 and 65535; any other gives none |
| Describe.ContinuationExact | wireprotocol.go:1007-1013 | a continuation is parsed behind its own header, if and only if that header is whole and something is left behind it |
| Describe.FetchBindXsqlda | wireprotocol.go:971-1019 | the continuation loop computes the conversation of the specification |
| Describe.Restart | wireprotocol.go:994-1018 | reading a beginning of a column and then all of it is reading all of it |
| Describe.AnyCut | wireprotocol.go:785-787 | any cut leaves earlier columns done, the current one restartable and later ones untouched |
| Describe.CutDescription | wireprotocol.go:989-1019 | however a description is cut into replies, the columns assembled are those of the reply sent whole, and each continuation asks for the column the last one ended in |
| Describe.DescriptionIsUnderstood | wireprotocol.go:971-1019 | however a server cuts its description, the columns assembled are the ones it told |
| Describe.CutWithoutNumber | wireprotocol.go:785-787 | a cut reply without a column number is an error if it describes a column; otherwise it gives index 0 and ends the loop silently |
| Batch.PreparedBatch.EnsureCreated | batch.go:199-211 | creates the server batch unless there is one or the batch is closed |
| Batch.PreparedBatch.Flush | batch.go:254-269 | what goes out, and what stays queued: the whole queue in one message, and an empty queue behind it, also when the message fails; the queue is kept when creation fails |
| Batch.PreparedBatch.Add | batch.go:222-251 | an accepted row is the encoded one and the last of the queue; a row is refused if and only if the batch is closed, it does not encode, or it needs a flush that fails; the pending bytes stay exact and within the limit unless a single row is queued |
| Batch.PreparedBatch.Exec | batch.go:272-336 | the whole new state and the result: message, execution, release, and under autocommit a rollback when a row failed and a commit otherwise; when it returns normally every accepted row has been handed over and no server batch is left |
| Batch.ExecEnds | batch.go:272-336 | what an execution leaves at the server, by result: under autocommit all rows are committed, or none of them when a row failed; without it they stay executed; a failed commit or rollback leaves them in doubt |
| Batch.ExecCommits | batch.go:321-336 | an execution under autocommit that returns normally has committed exactly the rows accepted since the last reset, when none was lost or left open before |
| Batch.NoEndWithoutAutocommit | batch.go:321-327 | without autocommit an execution neither commits nor rolls back |
| Batch.FlushOnlyWhenFull | batch.go:243-247 | queueing a row sends nothing if and only if there is no limit, the queue is empty or the row fits behind it |
| Batch.RunFreesOnce | statement.go:46-76 | over every run of calls on a new batch the statement has been freed once when it is closed, and never before |
| Batch.PreparedBatch.Cancel | batch.go:339-352 | empties the queue and releases the server batch: a reset; fails if and only if the release does |
| Batch.PreparedBatch.Close | batch.go:355-368 | releases the server batch, then frees the statement, once; fails if and only if freeing the statement does |
| Batch.PreparedBatch.ReleaseBeforeFree | batch.go:370-376 | releases the server batch and leaves the queue |
| Batch.PreparedBatch.CloseStatement | statement.go:46-76 | closing the statement releases the server batch first and frees the statement once |
| Batch.Queues | batch.go:243-250 | queueing a row that fits, or a row alone, keeps accepted rows, exact byte sum and limit consistent |
| Batch.Flushes | batch.go:264-268 | handing the queue over keeps handed and queued rows together equal to the accepted ones |
| Batch.Sends | batch.go:199-211 | create goes out only without a server batch, execute and release only with one, and none of them touches the queue |
| Batch.QueueKeeps | batch.go:243-250 | queueing a row behind the limit check and its flush keeps the state consistent, whether or not the flush fails |
| Batch.RunConsistent | batch.go:199-376 | over every run of calls, whatever exchange fails, the state stays consistent: rows handed over since the last reset and rows queued are the accepted ones, the byte count is exact, and operations go out in order |
| Batch.ClosedForEver | batch.go:355-368 | once closed, no sequence of calls sends anything or changes the state |
| Batch.ExecutedOnce | batch.go:253-336 | over any log the rows known to be committed, executed or in the server's batch are those handed over, once and in order, if and only if no operation lost a row: a failed message with rows, a failed execution, release or creation over a batch that still held some, or a rollback or failed commit over executed ones |
| Batch.UndisturbedKeepsAll | batch.go:272-336 | when every exchange is good and every release follows an execution, no row is lost |
| Batch.Conservation | batch.go:221-376 | in every consistent state, rows known to be committed or executed, rows in the server's batch and rows queued are the rows accepted since the last reset, in order and without repeats, if and only if no operation since then lost a row; without a server batch none waits in one |
| Batch.ConfirmedOrQueued | batch.go:253-269 | in every consistent state the rows of good messages and those queued are the rows accepted since the last reset, if and only if no message with rows failed since then |
| Batch.FailedMessageLosesRow | batch.go:264-268 | add, then a flush whose message fails: the row is accepted, and neither queued nor known to be stored |
| Batch.ReleaseLosesRow | batch.go:370-376 | add, flush, close the statement: every exchange is good, nothing is reset, and the row is neither queued nor executed |
| Events.RemoteEvent.QueueEvents | remoteEvent.go:65-93 | the four refusals in order, else all names with a count of zero |
| Events.RemoteEvent.CancelEvents | remoteEvent.go:95-102 | drops all names and counts |
| Events.RemoteEvent.GetEventCounts | remoteEvent.go:104-158 | new counts, previous counts and report are those of taking in the buffer, cut-off and refused buffers included; counts and everything reported stay those of the run of buffers since the names were queued |
| Events.ServerBufferTaken | remoteEvent.go:104-158 | of any buffer a server lays out, every queued name takes the counter told of it last, less one as a signed 32-bit integer, or zero when none was told, and the changes are reported |
| Events.BuildEpbSlice | remoteEvent.go:160-169 | the loop gives the version byte and one record per event |
| Events.SentBuffer | remoteEvent.go:160-175 | the buffer sent is version byte 1 and, for every event in order, its length, name and count plus one with the low byte first; a name without a count is sent with 1 |
| Events.ReportSums | remoteEvent.go:142-157 | for any list of names a report holds the change of each name, once for every time it was queued |
| Events.ReportInOrder | remoteEvent.go:142-157 | events are reported in the order they were queued, those without a change left out |
| Events.TwiceQueuedTwiceReported | remoteEvent.go:83-91 | a name queued twice that rose by 5 is reported as 10 |
| Events.WholeChangeReported | remoteEvent.go:104-158 | one call reports the whole change of a queued name if and only if the buffer parses to its end or the count is what it was |
| Events.CutBufferHidesChange | remoteEvent.go:121-137 | a buffer cut off behind its first record stores a count of 5 and reports nothing |
| Events.Telescoping | remoteEvent.go:104-158 | over any run of buffers the deltas reported for a name sum to the change of its count less what refused buffers changed, once for every time the name was queued |
| Events.ReportedInFull | remoteEvent.go:104-158 | over any run a queued name has its whole change reported once for every time it was queued, if and only if the changes by refused buffers add up to nothing; and then just once if and only if the name was queued once or did not change |
| Events.ParsedHidesNothing | remoteEvent.go:112-140 | a run in which every buffer with the version byte parses to its end hides no change |
| Events.OwnBuffer | remoteEvent.go:160-175 | parsing the driver's own buffer leaves every count unchanged |
| Events.OwnBufferIsQuiet | remoteEvent.go:104-175 | feeding back the driver's own buffer reports no event and changes no count |

## Left out

- Sockets, deadlines, cancellation, ping draining and goroutines: the wire is a queue of frames or a byte sequence and no call is abandoned.
- Ciphers, compression and hash functions: SRP works with any hash that has 20-byte digests; the session key hash is that same abstract function.
- The proof of the key that the client sends (`getClientProof`), the connect handshake, authentication plugins and crypt-key callbacks between responses.
- Character sets, time-zone tables and message tables: text is bytes, and the types with a time zone are only refused.
- Conversions of Go values to numbers, floats, text and times: elements and arguments are already converted, and a value that does not convert is an error.
- Bodies of op_response and status vectors: `WireSession` works on whole frames with a handle and a success flag.
- What a reader would make of the bytes of a body left unread: it is one frame that every reader refuses.
- Statement text, metadata queries, service, backup, trace and user managers, event subscription threads.
- The outer loop of `parse_xsqlda` and its select branch, whose continuation loop is the one modelled for bind variables.
- The reader of rows before protocol 13: a row's values are the raw bytes of the later one.
- Mutexes and atomics of the cache and of events: calls are sequential; event ids are not carried in the reports.
- Cursor.OpFetchResponse: works on a connection with no deferred response, and every server error is one failure; draining before a fetch is in `WireSession.FetchExact` and `WireProtocol.Protocol.OpFetchResponse`.
- Cursor.Rows.Next: a cancelled context, marking the connection bad, the one row of a procedure and the fetching of BLOB and array columns are not modelled.
- Batch.PreparedBatch.Exec: the contents of a completion, its update counts and the errors of its rows, are not modelled, only whether a row failed; the success of every exchange is a parameter.
- Batch.Conservation: a commit or rollback by the caller outside the batch is not modelled.
- Describe.CutDescription: the column number in a continuation request is its low sixteen bits, as the driver writes it; the model's server starts at the column itself.
- DecimalText.PrinterIsExact: the negated exponent of the plain form is not wrapped, which matters only for coefficients of more than 2^31 - 7 digits.
- ArraySlice.SliceRoundTrip: the stored form is a single transfer; a server that changes text between character sets is not modelled.
