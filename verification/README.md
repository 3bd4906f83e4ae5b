# Verification model of the screen-sharing agent and relay

A Dafny model of the parts of the repository where a small slip corrupts data or
state without any error: the arithmetic entropy coder and the coefficient
controller of the vendored libjpeg-turbo, the frame, text and URI code of the
vendored websocketpp, the relay server, and three arithmetic kernels. `dafny verify
dfyconfig.toml` checks everything.

Arithmetic coding (T.81 is ITU-T Recommendation T.81)

- `QmTable`, `QmInterval`, `QmTermination`: the probability table, and a coder on
  unbounded integers that never outputs a byte, with its code strings.
- `Carry`, `ArithEncoder`: the registers `c`, `a`, `ct`, the held byte, the stacked
  0xFF bytes and the pending zeros, proved to refine the unbounded coder. `Valid` of
  `Encoder` is what holds between any two calls: 0x8000 <= a <= 0x10000, 1 <= ct <= 11,
  a held byte is never 0xFF, and nothing is settled or pending while no byte is held.
- `ArithDecoder`, `QmRoundTrip`: the decoder of jdarith.c, and the round trip.
- `DctDecisions`, `DctBands`, `DctRefine`, `ScanModel`, `ScanCodec`: coefficients as
  decisions in statistics bins, all five MCU modes, restart segments, whole scans.
- `StatAreas`, `ScanEncoder`, `ScanDecoder`, `ScanTransfer`: the encoding routines on
  top of `Encoder` and the decoding routines on top of `Decoder`, with blocks in place,
  proved to do what the model of a scan says. `Progressive`, `ScriptEncoder`: scripts of scans.

A round trip alone leaves the format open, so what is written is also fixed by itself:
`SymbolParts` and `EstimateRows` give each symbol its interval and next state, `BlockSpelled`
with `DcSpelled`, `AcSpelled` and `DcCategories` the decisions and their bins, `StartsFresh`
and `RestartsFresh` the statistics, and `MarkerAt` the restart markers.

One statement about scans has a condition. The encoder codes DC differences up to
2^16, the decoder gives up when the magnitude less one is 2^15 or more (jdarith.c:288-297). So
`ScanRoundTrip` says that the blocks come back if and only if every DC difference is
at most 2^15 in magnitude, and that damage is reported otherwise; `FarApart` has two
blocks that do not come back. `ProgressiveExact` says the same of a whole script.
`ScanFits` shows that DC values within 15 bits, or any point transform, are enough.

Coefficient controller

- `CoefLayout`: scan geometry and the padded image. `CoefDelivery`: what that is, block by
  block, in terms of the image alone. `CoefController`: the streaming and
  the buffered implementation as one class whose state is the controller's. Both keep
  the same invariant, for every sequence of refusals by the entropy encoder: what has
  been accepted is the MCUs of the padded image before the current position.

WebSocket code

- `Utf8`, `FrameMask`, `FrameHeader`, `Uri`. Masking is proved for both byte orders and
  word sizes on buffers that may be shared. A rejected `Validator` that is fed an empty
  chunk reports no error (utf8_validator.hpp:105-118); its state still rejects.
  `Uri.RoundTripExact` says exactly which URIs survive printing and parsing.

Relay

- `RelayModel` is the server as a state machine, `Relay` the handlers as they update the
  maps, `RelayConsistency` what holds. Session objects have identities, because handlers
  capture them. The counters are exact in every run less the error events. Consistency is
  kept by an event if and only if it is regular: it is not an error event, nobody joins a
  session while its agent is closing, a viewer's id is fresh, and an unknown path
  (index.js:118-123) names a session that exists; otherwise that session would be created
  and never dropped. A closing agent is no longer open but still the session's agent: a
  second one is let in (index.js:132), and is lost when the close event of the first sets
  the session's agent to null (`SecondAgentLost`).

Kernels

- `Base64`, `ColorConvert`, `Cmyk`. `Arith` and `Bytes` have the arithmetic that several
  modules use, `Coefficients` the type of a block.

## Model

| member | source | states |
|---|---|---|
| `QmRoundTrip.CoderRoundTrip` | Remote-Share/Agent/libs/libjpeg-turbo-main/src/jcarith.c:225-317 | for every decision sequence, every rule that picks a bin from past values, any bytes before and any marker after, the decoder of Annex D of T.81 on the sent bytes returns the values and ends with the encoder's interval and bins |
| `QmTable.Unpack` | Remote-Share/Agent/libs/libjpeg-turbo-main/src/jaricom.c:32-33 | unpacking a packed table row and XOR-ing the top bit gives the Qe value, the next index and the MPS exchange of that row |
| `QmTable.RowFields` | Remote-Share/Agent/libs/libjpeg-turbo-main/src/jaricom.c:32-33 | Qe and the two next values of a statistics byte are the fields of the row that it points to |
| `QmTable.TableClosed` | Remote-Share/Agent/libs/libjpeg-turbo-main/src/jaricom.c:35-157 | every Qe is in 1..0x5b12, estimation stays in the table, adaptive states never enter the fixed entry 113, a bin in entry 113 never changes, and an MPS never changes the MPS value |
| `QmInterval.StepValid` | Remote-Share/Agent/libs/libjpeg-turbo-main/src/jcarith.c:241-265 | coding any decision keeps the width in 0x8000..0x10000, the interval inside the code range and all bins valid |
| `QmInterval.SymbolParts` | Remote-Share/Agent/libs/libjpeg-turbo-main/src/jcarith.c:241-263 | the two symbols share the interval without gap or overlap; the more probable one has the wider part, and that is the lower one if and only if Qe is at most half of the width |
| `QmInterval.EstimateRows` | Remote-Share/Agent/libs/libjpeg-turbo-main/src/jcarith.c:241-265 | the estimate moves to the row's next LPS state after each less probable symbol, and to its next MPS state after a more probable one exactly if the width falls below 0x8000 |
| `QmInterval.RenormLeast` | Remote-Share/Agent/libs/libjpeg-turbo-main/src/jcarith.c:268-316 | renormalization doubles as often as the width needs to reach 0x8000, and no more |
| `QmInterval.StepShifts` | Remote-Share/Agent/libs/libjpeg-turbo-main/src/jcarith.c:268-316 | renormalization after one decision takes at most 15 shifts |
| `QmInterval.RunSnoc` | Remote-Share/Agent/libs/libjpeg-turbo-main/src/jcarith.c:225-317 | coding one more decision continues the interval of the decisions so far |
| `QmInterval.RunNested` | Remote-Share/Agent/libs/libjpeg-turbo-main/src/jcarith.c:241-316 | a code string in the interval of a run is in the interval of each of its prefixes |
| `QmInterval.ContainedFurther` | Remote-Share/Agent/libs/libjpeg-turbo-main/src/jcarith.c:268-316 | whether a zero-extended code string lies in an interval does not depend on how many bytes are looked at |
| `QmInterval.ContainedRenorm` | Remote-Share/Agent/libs/libjpeg-turbo-main/src/jcarith.c:268-316 | a renormalization shift keeps exactly the same code strings in the interval |
| `QmInterval.CutExact` | Remote-Share/Agent/libs/libjpeg-turbo-main/src/jdarith.c:166-188 | the code strings of an interval are split exactly between its lower and upper part |
| `QmInterval.NextBitExact` | Remote-Share/Agent/libs/libjpeg-turbo-main/src/jdarith.c:166-191 | decoding picks a decision if and only if the code string lies in the subinterval of that decision |
| `QmTermination.FinalRoundest` | Remote-Share/Agent/libs/libjpeg-turbo-main/src/jcarith.c:146-151 | the final number has at least as many trailing zero bits as any other number of the interval |
| `QmTermination.PayloadContained` | Remote-Share/Agent/libs/libjpeg-turbo-main/src/jcarith.c:144-199 | the zero-extended bytes sent at the end lie in the final interval |
| `QmTermination.PayloadShortest` | Remote-Share/Agent/libs/libjpeg-turbo-main/src/jcarith.c:144-199 | no byte string in the final interval is shorter than the one sent |
| `QmTermination.PayloadUnique` | Remote-Share/Agent/libs/libjpeg-turbo-main/src/jcarith.c:144-199 | the bytes sent are the only ones without a final zero byte that write the final number |
| `QmTermination.SegmentMarkerSafe` | Remote-Share/Agent/libs/libjpeg-turbo-main/src/jcarith.c:154-198 | in a sent segment each 0xFF is followed by 0x00, and it ends in 0x00 only behind a 0xFF |
| `Carry.CarryValue` | Remote-Share/Agent/libs/libjpeg-turbo-main/src/jcarith.c:274-285 | adding one to a byte followed by stacked 0xFF bytes increments the byte and turns the stack into zeros |
| `Carry.FullStack` | Remote-Share/Agent/libs/libjpeg-turbo-main/src/jcarith.c:274-285 | a stack of 0xFF bytes with nothing before it is the greatest number, so it never takes a carry |
| `ArithEncoder.ShiftMatches` | Remote-Share/Agent/libs/libjpeg-turbo-main/src/jcarith.c:268-271 | a shift of the 28-bit register and counter is a shift of the unbounded interval |
| `ArithEncoder.SpacerBits` | Remote-Share/Agent/libs/libjpeg-turbo-main/src/jcarith.c:273-289 | an extracted byte is at most 0x11F, and taking it never carries out of the bytes before |
| `ArithEncoder.ExtractMatches` | Remote-Share/Agent/libs/libjpeg-turbo-main/src/jcarith.c:271-314 | after extraction the register with 8 shifts to go and the bytes so far write the same low end |
| `ArithEncoder.NarrowMatches` | Remote-Share/Agent/libs/libjpeg-turbo-main/src/jcarith.c:241-265 | narrowing the interval moves only the register |
| `ArithEncoder.FinalBytes` | Remote-Share/Agent/libs/libjpeg-turbo-main/src/jcarith.c:146-153 | the register's final number, with its two last bytes, is the final number of the unbounded interval |
| `ArithEncoder.FinalCarry` | Remote-Share/Agent/libs/libjpeg-turbo-main/src/jcarith.c:154-165 | the final overflow never comes while no byte is held |
| `ArithEncoder.Encoder.constructor` | Remote-Share/Agent/libs/libjpeg-turbo-main/src/jcarith.c:893-899 | a fresh encoder has the interval of no decisions |
| `ArithEncoder.Encoder.EmitByte` | Remote-Share/Agent/libs/libjpeg-turbo-main/src/jcarith.c:122-131 | appends one byte to the output |
| `ArithEncoder.Encoder.EmitCoded` | Remote-Share/Agent/libs/libjpeg-turbo-main/src/jcarith.c:190-192 | writes a coded byte, stuffed with 0x00 if it is 0xFF |
| `ArithEncoder.Encoder.EmitPendingZeros` | Remote-Share/Agent/libs/libjpeg-turbo-main/src/jcarith.c:277-279 | writes all pending zero bytes |
| `ArithEncoder.Encoder.EmitStack` | Remote-Share/Agent/libs/libjpeg-turbo-main/src/jcarith.c:302-310 | writes pending zeros and the stacked 0xFF bytes, each stuffed |
| `ArithEncoder.Encoder.Overflow` | Remote-Share/Agent/libs/libjpeg-turbo-main/src/jcarith.c:274-285 | a carry: the number of all extracted bytes grows by one, and none of them is lost |
| `ArithEncoder.Encoder.Settle` | Remote-Share/Agent/libs/libjpeg-turbo-main/src/jcarith.c:293-310 | writes everything that no carry can reach any more, without changing the bytes extracted |
| `ArithEncoder.Encoder.ByteOut` | Remote-Share/Agent/libs/libjpeg-turbo-main/src/jcarith.c:273-312 | a further extracted byte, with its carry, is appended to the number of the bytes extracted so far |
| `ArithEncoder.Encoder.Shift` | Remote-Share/Agent/libs/libjpeg-turbo-main/src/jcarith.c:269-315 | one renormalization shift, with byte output, keeps registers, pending bytes and the unbounded interval in step |
| `ArithEncoder.Encoder.CodeSymbol` | Remote-Share/Agent/libs/libjpeg-turbo-main/src/jcarith.c:235-265 | one decision before renormalization narrows the unbounded interval and moves the statistics bin as Annex D says |
| `ArithEncoder.Encoder.Encode` | Remote-Share/Agent/libs/libjpeg-turbo-main/src/jcarith.c:225-317 | arith_encode is one step of the unbounded coder; the written and pending bytes with the register stay in step with it |
| `ArithEncoder.Encoder.Conclude` | Remote-Share/Agent/libs/libjpeg-turbo-main/src/jcarith.c:146-184 | the final number is chosen and its carry taken by the bytes extracted before |
| `ArithEncoder.Encoder.FlushTail` | Remote-Share/Agent/libs/libjpeg-turbo-main/src/jcarith.c:185-198 | the last two bytes are written as far as they are not zero, behind the pending zeros if anything is |
| `ArithEncoder.Encoder.FinishPass` | Remote-Share/Agent/libs/libjpeg-turbo-main/src/jcarith.c:139-199 | the whole output of a segment is exactly the stuffed shortest code string of the decisions coded |
| `ArithEncoder.Encoder.Reset` | Remote-Share/Agent/libs/libjpeg-turbo-main/src/jcarith.c:352-358 | a new segment starts from the statistics as they are and from an empty register |
| `ArithDecoder.UnstuffStuff` | Remote-Share/Agent/libs/libjpeg-turbo-main/src/jdarith.c:124-146 | reading coded data up to a marker undoes stuffing, whatever comes before and after |
| `ArithDecoder.ShiftHolds` | Remote-Share/Agent/libs/libjpeg-turbo-main/src/jdarith.c:123-154 | a shift without a new byte keeps the decoder's register in step with the interval |
| `ArithDecoder.FetchHolds` | Remote-Share/Agent/libs/libjpeg-turbo-main/src/jdarith.c:123-154 | a shift with a new byte keeps the decoder's register in step with the interval |
| `ArithDecoder.CompareUpper` | Remote-Share/Agent/libs/libjpeg-turbo-main/src/jdarith.c:166-169 | comparing the register with the scaled lower width tells the subinterval of the code string |
| `ArithDecoder.CutHolds` | Remote-Share/Agent/libs/libjpeg-turbo-main/src/jdarith.c:166-182 | taking the upper subinterval subtracts its offset from the register |
| `ArithDecoder.Decoder.constructor` | Remote-Share/Agent/libs/libjpeg-turbo-main/src/jdarith.c:734-741 | a fresh decoder is in step with the full interval |
| `ArithDecoder.Decoder.GetData` | Remote-Share/Agent/libs/libjpeg-turbo-main/src/jdarith.c:126-146 | the next byte of the unstuffed code, zeros from the marker on; repeated 0xFF bytes are skipped |
| `ArithDecoder.Decoder.Shift` | Remote-Share/Agent/libs/libjpeg-turbo-main/src/jdarith.c:123-155 | one turn of the renormalization loop, including the first two bytes, keeps the decoder in step |
| `ArithDecoder.Decoder.Renormalize` | Remote-Share/Agent/libs/libjpeg-turbo-main/src/jdarith.c:123-155 | renormalization ends with the decoder in step with the renormalized interval |
| `ArithDecoder.Decoder.DecodeSymbol` | Remote-Share/Agent/libs/libjpeg-turbo-main/src/jdarith.c:157-191 | the decision, its subinterval and the next estimate, on the registers |
| `ArithDecoder.Decoder.Decode` | Remote-Share/Agent/libs/libjpeg-turbo-main/src/jdarith.c:115-191 | arith_decode returns the decision that the code string holds next, and steps interval and bin as the encoder does |
| `ArithDecoder.Decoder.NextMarker` | Remote-Share/Agent/libs/libjpeg-turbo-main/src/jdmarker.c:890-933 | skips what is left of the coded data, up to and including the marker that ends it |
| `ArithDecoder.Decoder.Restart` | Remote-Share/Agent/libs/libjpeg-turbo-main/src/jdarith.c:224-227 | a new segment starts from the statistics as they are |
| `QmRoundTrip.Send` | Remote-Share/Agent/libs/libjpeg-turbo-main/src/jcarith.c:139-317 | encoding values with bins chosen by a rule writes their segment, and leaves the statistics of the run |
| `QmRoundTrip.Receive` | Remote-Share/Agent/libs/libjpeg-turbo-main/src/jdarith.c:115-191 | decoding under the same rule gives the values that lie ahead, and the statistics of the run |
| `QmRoundTrip.SendAndReceive` | Remote-Share/Agent/libs/libjpeg-turbo-main/src/jcarith.c:139-317 | the register-level encoder and decoder end to end: the decoder gets the values, and both statistics end up the same |
| `QmRoundTrip.SegmentFollows` | Remote-Share/Agent/libs/libjpeg-turbo-main/src/jcarith.c:139-199 | from any point inside a coding segment the decoder finds the decisions that the encoder coded from there on |
| `DctDecisions.DcMagnitudeDecoded` | Remote-Share/Agent/libs/libjpeg-turbo-main/src/jcarith.c:423-446 | a DC magnitude decodes to itself and its category exactly when it is below 2^15; otherwise the decoder reports an overflow |
| `DctDecisions.AcMagnitudeDecoded` | Remote-Share/Agent/libs/libjpeg-turbo-main/src/jcarith.c:519-541 | every AC magnitude below 2^15 decodes to itself |
| `DctBands.DcDecoded` | Remote-Share/Agent/libs/libjpeg-turbo-main/src/jcarith.c:404-446 | a DC difference decodes to itself, with the encoder's next conditioning category, if and only if it is at most 2^15 in magnitude |
| `DctBands.DcSpelled` | Remote-Share/Agent/libs/libjpeg-turbo-main/src/jcarith.c:404-446 | the decisions of a DC difference in closed form: flag, sign, and magnitude with category and bits, in the bins of Table F.4 of T.81 |
| `DctBands.DcCategories` | Remote-Share/Agent/libs/libjpeg-turbo-main/src/jcarith.c:436-441 | the conditioning category from the difference and L and U alone: 0 up to 2^(L-1), 4 or 8 up to 2^U, else 12 or 16 |
| `DctBands.DecodedCategory` | Remote-Share/Agent/libs/libjpeg-turbo-main/src/jdarith.c:298-305 | whatever the decoder reads, the category that it goes on with is that of the difference |
| `DctBands.AcBandDecoded` | Remote-Share/Agent/libs/libjpeg-turbo-main/src/jcarith.c:497-547 | every band of AC coefficients decodes to itself, from any position and with any end of block |
| `DctBands.AcSpelled` | Remote-Share/Agent/libs/libjpeg-turbo-main/src/jcarith.c:508-541 | the decisions of a nonzero AC coefficient in closed form, with the category bins from 189 or 217 on by Kx |
| `DctBands.BandPieces` | Remote-Share/Agent/libs/libjpeg-turbo-main/src/jcarith.c:497-547 | a band index by index: that the block goes on is coded behind its start and behind each nonzero coefficient, and its end unless that is the end of the band |
| `DctRefine.ApproxStep` | Remote-Share/Agent/libs/libjpeg-turbo-main/src/jcarith.c:646-667 | one more bit takes the approximation of a coefficient at bit al+1 to the one at bit al |
| `DctRefine.RefineBandDecoded` | Remote-Share/Agent/libs/libjpeg-turbo-main/src/jcarith.c:631-675 | decoding a refinement band takes every coefficient from its approximation at al+1 to that at al, with previous-stage end of block, next bits, new signs and zero history |
| `DctRefine.ApproxNear` | Remote-Share/Agent/libs/libjpeg-turbo-main/src/jcarith.c:484-495 | what is sent of an AC coefficient is a multiple of 2^al on the same side of zero, less than 2^al nearer to it |
| `DctRefine.RefinementPieces` | Remote-Share/Agent/libs/libjpeg-turbo-main/src/jcarith.c:640-675 | a refinement index by index: that the block goes on is coded only past its end at the previous stage, behind the start or a nonzero coefficient |
| `ScanModel.DcRefined` | Remote-Share/Agent/libs/libjpeg-turbo-main/src/jcarith.c:578-582 | setting bit al if the decision is one takes the DC approximation at al+1 to that at al |
| `ScanModel.BlockDecoded` | Remote-Share/Agent/libs/libjpeg-turbo-main/src/jcarith.c:368-820 | in each of the five modes, a block decodes to its target if and only if its DC difference fits; otherwise the decoder reports damage |
| `ScanModel.McuDecoded` | Remote-Share/Agent/libs/libjpeg-turbo-main/src/jcarith.c:368-820 | an MCU of any component membership decodes to its targets if and only if all its DC differences fit |
| `ScanModel.BlockSpelled` | Remote-Share/Agent/libs/libjpeg-turbo-main/src/jcarith.c:368-820 | what is coded for a block in each of the five modes, from the scan parameters: the DC value less the prediction or its next bit, and the band after its point transform, with the component's tables and Kx |
| `ScanModel.BlockLeaves` | Remote-Share/Agent/libs/libjpeg-turbo-main/src/jcarith.c:397-446 | a block with a DC difference leaves its DC value and the category of the difference for its component, any other nothing |
| `ScanModel.McuCut` | Remote-Share/Agent/libs/libjpeg-turbo-main/src/jcarith.c:706-817 | an MCU is its blocks in order, each coded with the predictions that the ones before left |
| `ScanModel.Predicted` | Remote-Share/Agent/libs/libjpeg-turbo-main/src/jcarith.c:391-405 | a DC value is predicted from the last block of its component in the MCU, or from what the MCU before left |
| `ScanCodec.DcWithin` | Remote-Share/Agent/libs/libjpeg-turbo-main/src/jcarith.c:401-446 | DC coding touches only bins below 50 of its table's 64 |
| `ScanCodec.AcCoefWithin` | Remote-Share/Agent/libs/libjpeg-turbo-main/src/jcarith.c:497-541 | coding an AC coefficient touches only bins below 245 of its table's 256, and the fixed bin |
| `ScanCodec.BlockWithin` | Remote-Share/Agent/libs/libjpeg-turbo-main/src/jcarith.c:368-820 | every bin that a block touches is in the DC area of its table, if the scan codes DC differences, in the AC area, if it codes AC coefficients, or the fixed bin |
| `ScanCodec.McuCodable` | Remote-Share/Agent/libs/libjpeg-turbo-main/src/jcarith.c:368-820 | all decisions of an MCU can be coded with the scan's statistics |
| `ScanCodec.ResetExact` | Remote-Share/Agent/libs/libjpeg-turbo-main/src/jcarith.c:338-352 | start_pass and emit_restart clear exactly the DC areas of the scan's components, if it codes DC differences, and their AC areas, if it codes AC coefficients |
| `ScanCodec.StartsFresh` | Remote-Share/Agent/libs/libjpeg-turbo-main/src/jcarith.c:862-904 | at the start of a pass every MCU finds 0 in all its bins but the fixed one, the predictions and contexts of a scan with DC differences are 0, and nothing else has changed |
| `ScanCodec.RestartsFresh` | Remote-Share/Agent/libs/libjpeg-turbo-main/src/jcarith.c:338-358 | and so it is behind every restart marker |
| `ScanCodec.ScanMarkers` | Remote-Share/Agent/libs/libjpeg-turbo-main/src/jcarith.c:333-334 | the markers in a scan's output are 0xD0 + k modulo 8 in order, one for each restart interval but the last (with CountExact: (MCUs - 1) / interval) |
| `ScanCodec.MarkerAt` | Remote-Share/Agent/libs/libjpeg-turbo-main/src/jcarith.c:695-704 | marker n stands behind (n + 1) restart intervals of MCUs: what comes before codes those, with n markers, and what comes behind the others |
| `ScanCodec.SegmentCut` | Remote-Share/Agent/libs/libjpeg-turbo-main/src/jcarith.c:325-359 | in a scan's output each segment up to a restart marker reads back as the code string of its decisions |
| `ScanCodec.RestartInStep` | Remote-Share/Agent/libs/libjpeg-turbo-main/src/jdarith.c:199-230 | behind a restart marker the decoder finds the expected number and restarts in step with the encoder |
| `ScanCodec.ScanDecoded` | Remote-Share/Agent/libs/libjpeg-turbo-main/src/jdarith.c:199-624 | from any point of a scan on, the decoder gives the targets of the remaining MCUs exactly if all DC differences fit, else damage |
| `ScanCodec.ScanRoundTrip` | Remote-Share/Agent/libs/libjpeg-turbo-main/src/jcarith.c:686-820 | for every scan, MCU sequence, restart interval, conditioning parameters and state left by earlier scans, decoding the output gives every block's target if and only if all DC differences fit, and reports damage otherwise |
| `ScanCodec.PairFits` | Remote-Share/Agent/libs/libjpeg-turbo-main/src/jdarith.c:288-297 | two sequential blocks in a row fit if and only if their DC values are at most 2^15 apart |
| `ScanCodec.FarApartDamaged` | Remote-Share/Agent/libs/libjpeg-turbo-main/src/jdarith.c:288-297 | two valid blocks further apart are encoded, and the decoder reports damage |
| `ScanCodec.FarApart` | Remote-Share/Agent/libs/libjpeg-turbo-main/src/jdarith.c:288-297 | DC values 32767 and -32768 do not fit |
| `StatAreas.ClearAreas` | Remote-Share/Agent/libs/libjpeg-turbo-main/src/jdarith.c:209-222 | clears the DC areas of the scan's components, if it codes DC differences, their AC areas, if it codes AC coefficients, with predictions and contexts, and nothing else |
| `ScanDecoder.EntropyDecoder.constructor` | Remote-Share/Agent/libs/libjpeg-turbo-main/src/jdarith.c:749-771 | only the fixed bin is set at the start |
| `ScanDecoder.EntropyDecoder.ReadOnes` | Remote-Share/Agent/libs/libjpeg-turbo-main/src/jdarith.c:289-297 | the category loop reads one decision for each doubling, and gives up at 0x8000 |
| `ScanDecoder.EntropyDecoder.ReadBits` | Remote-Share/Agent/libs/libjpeg-turbo-main/src/jdarith.c:306-310 | the magnitude loop reads the bits below the top one |
| `ScanDecoder.EntropyDecoder.ReadDc` | Remote-Share/Agent/libs/libjpeg-turbo-main/src/jdarith.c:277-313 | a DC difference as the model decodes it, added to the prediction modulo 2^16, with the next context |
| `ScanDecoder.EntropyDecoder.ReadZeroRun` | Remote-Share/Agent/libs/libjpeg-turbo-main/src/jdarith.c:353-364 | zeros up to the next coefficient; past the band's end they are an overflow |
| `ScanDecoder.EntropyDecoder.ReadAcBand` | Remote-Share/Agent/libs/libjpeg-turbo-main/src/jdarith.c:352-392 | an AC band, in place, as the model decodes it |
| `ScanDecoder.EntropyDecoder.ReadRefineRun` | Remote-Share/Agent/libs/libjpeg-turbo-main/src/jdarith.c:468-493 | the inner loop of refinement, in place, up to the next coefficient that is or becomes nonzero |
| `ScanDecoder.EntropyDecoder.ReadRefineBand` | Remote-Share/Agent/libs/libjpeg-turbo-main/src/jdarith.c:461-496 | an AC refinement, in place, as the model decodes it |
| `ScanDecoder.EntropyDecoder.DecodeBlock` | Remote-Share/Agent/libs/libjpeg-turbo-main/src/jdarith.c:250-624 | one block, in place, in each of the five modes; false exactly on an overflow |
| `ScanDecoder.EntropyDecoder.DecodeMcu` | Remote-Share/Agent/libs/libjpeg-turbo-main/src/jdarith.c:250-624 | all blocks of an MCU, in place |
| `ScanDecoder.EntropyDecoder.StartPass` | Remote-Share/Agent/libs/libjpeg-turbo-main/src/jdarith.c:712-742 | the pass starts as the model says, over the statistics left by the scan before |
| `ScanDecoder.EntropyDecoder.ReadRestartMarker` | Remote-Share/Agent/libs/libjpeg-turbo-main/src/jdmarker.c:1137-1163 | reads on to the marker behind the segment; true exactly if it is the expected one and the next segment ends in a marker too |
| `ScanDecoder.EntropyDecoder.ProcessRestart` | Remote-Share/Agent/libs/libjpeg-turbo-main/src/jdarith.c:199-230 | the pass behind a restart marker as the model says |
| `ScanDecoder.EntropyDecoder.DecodeScan` | Remote-Share/Agent/libs/libjpeg-turbo-main/src/jdarith.c:199-624 | all MCUs of a scan, in place, on the registers: what the model's decoder gives, or damage exactly if that reports it |
| `ScanTransfer.SendAndReceiveScan` | Remote-Share/Agent/libs/libjpeg-turbo-main/src/jcarith.c:686-904 | encoder and decoder on their registers, end to end: MCUs sent before a marker arrive in the blocks if and only if all DC differences fit, and both ends are left with the same statistics and predictions |
| `ScanEncoder.EntropyEncoder.constructor` | Remote-Share/Agent/libs/libjpeg-turbo-main/src/jcarith.c:912-932 | only the fixed bin is set at the start, in its fixed entry 113 |
| `QmInterval.RunFixed` | Remote-Share/Agent/libs/libjpeg-turbo-main/src/jaricom.c:156 | a bin in the fixed entry keeps it, whatever is coded in whatever bins |
| `ScanCodec.PassedFixed` | Remote-Share/Agent/libs/libjpeg-turbo-main/src/jcarith.c:930-931 | no scan, with whatever restarts, moves the fixed bin |
| `ScanEncoder.EntropyEncoder.CodeOnes` | Remote-Share/Agent/libs/libjpeg-turbo-main/src/jcarith.c:429-434 | the category loop codes one decision for each doubling, in ascending bins |
| `ScanEncoder.EntropyEncoder.CodeLowBits` | Remote-Share/Agent/libs/libjpeg-turbo-main/src/jcarith.c:442-445 | the magnitude loop codes the bits below the top one, highest first |
| `ScanEncoder.EntropyEncoder.Recondition` | Remote-Share/Agent/libs/libjpeg-turbo-main/src/jcarith.c:437-441 | the conditioning category from the magnitude category and the bounds L and U |
| `ScanEncoder.EntropyEncoder.CodeDcMagnitude` | Remote-Share/Agent/libs/libjpeg-turbo-main/src/jcarith.c:423-445 | codes exactly the decisions of a DC magnitude |
| `ScanEncoder.EntropyEncoder.EncodeDc` | Remote-Share/Agent/libs/libjpeg-turbo-main/src/jcarith.c:401-446 | codes exactly the decisions of a DC difference, and updates last value and context of that component only |
| `ScanEncoder.EntropyEncoder.CodeAcMagnitude` | Remote-Share/Agent/libs/libjpeg-turbo-main/src/jcarith.c:519-541 | codes exactly the decisions of an AC magnitude |
| `ScanEncoder.EntropyEncoder.FindEob` | Remote-Share/Agent/libs/libjpeg-turbo-main/src/jcarith.c:484-495 | finds the end of the block after the point transform |
| `ScanEncoder.EntropyEncoder.EncodeAcCoef` | Remote-Share/Agent/libs/libjpeg-turbo-main/src/jcarith.c:501-541 | codes exactly the decisions of a nonzero AC coefficient |
| `ScanEncoder.EntropyEncoder.EncodeAcBand` | Remote-Share/Agent/libs/libjpeg-turbo-main/src/jcarith.c:497-547 | codes exactly the decisions of an AC band |
| `ScanEncoder.EntropyEncoder.EncodeRefineCoef` | Remote-Share/Agent/libs/libjpeg-turbo-main/src/jcarith.c:646-667 | codes the next bit of a coefficient, or flag and sign of a new one |
| `ScanEncoder.EntropyEncoder.EncodeRefineBand` | Remote-Share/Agent/libs/libjpeg-turbo-main/src/jcarith.c:640-675 | codes exactly the decisions of a refinement band |
| `ScanEncoder.EntropyEncoder.StartPass` | Remote-Share/Agent/libs/libjpeg-turbo-main/src/jcarith.c:828-904 | clears the statistics, predictions and contexts that the scan uses and no others |
| `ScanEncoder.EntropyEncoder.EmitRestart` | Remote-Share/Agent/libs/libjpeg-turbo-main/src/jcarith.c:325-359 | finishes the segment, writes the restart marker and clears the same areas |
| `ScanEncoder.EntropyEncoder.CheckRestart` | Remote-Share/Agent/libs/libjpeg-turbo-main/src/jcarith.c:695-704 | a restart exactly every restart interval, numbered modulo 8 |
| `ScanEncoder.EntropyEncoder.EncodeBlock` | Remote-Share/Agent/libs/libjpeg-turbo-main/src/jcarith.c:706-817 | codes exactly the decisions of a sequential block |
| `ScanEncoder.EntropyEncoder.EncodeBlockDcFirst` | Remote-Share/Agent/libs/libjpeg-turbo-main/src/jcarith.c:389-447 | codes exactly the decisions of a first DC scan's block |
| `ScanEncoder.EntropyEncoder.EncodeBlockAcFirst` | Remote-Share/Agent/libs/libjpeg-turbo-main/src/jcarith.c:478-547 | codes exactly the decisions of a first AC scan's block |
| `ScanEncoder.EntropyEncoder.EncodeBlockDcRefine` | Remote-Share/Agent/libs/libjpeg-turbo-main/src/jcarith.c:575-582 | codes exactly bit al of the DC value |
| `ScanEncoder.EntropyEncoder.EncodeBlockAcRefine` | Remote-Share/Agent/libs/libjpeg-turbo-main/src/jcarith.c:612-675 | codes exactly the decisions of an AC refinement block |
| `ScanEncoder.EntropyEncoder.EncodeMcu` | Remote-Share/Agent/libs/libjpeg-turbo-main/src/jcarith.c:686-820 | an MCU, with a restart before it if one is due, takes the pass to the modelled next state |
| `ScanEncoder.EntropyEncoder.EncodeMcus` | Remote-Share/Agent/libs/libjpeg-turbo-main/src/jcarith.c:686-820 | what has been written and what the rest will write is always the modelled output of the whole scan |
| `ScanEncoder.EntropyEncoder.EncodeScan` | Remote-Share/Agent/libs/libjpeg-turbo-main/src/jcarith.c:828-904 | start_pass, all MCUs and finish_pass write exactly the modelled output of the scan, and leave the statistics and predictions of its end, ready for the next scan |
| `ScriptEncoder.EncodePart` | Remote-Share/Agent/libs/libjpeg-turbo-main/src/jcarith.c:828-904 | one scan of a script writes what the model of the script says of it |
| `ScriptEncoder.EncodeScript` | Remote-Share/Agent/libs/libjpeg-turbo-main/src/jcarith.c:828-904 | the scans of a legal script, one after the other with the same encoder, write exactly the outputs of which ProgressiveExact speaks |
| `Progressive.ScanAdvances` | Remote-Share/Agent/libs/libjpeg-turbo-main/src/jcmaster.c:366-381 | a legal scan finds in a block what it needs and advances exactly its band to its lowest bit |
| `Progressive.PartAdvances` | Remote-Share/Agent/libs/libjpeg-turbo-main/src/jcmaster.c:344-381 | the decoded blocks of a scan, interleaved or not, put back in place are the image to its new precision |
| `Progressive.ScriptDecoded` | Remote-Share/Agent/libs/libjpeg-turbo-main/src/jcarith.c:368-678 | decoding a legal script from any point takes the blocks from one precision to the next if and only if all DC differences fit, and fails otherwise |
| `Progressive.ProgressiveExact` | Remote-Share/Agent/libs/libjpeg-turbo-main/src/jcarith.c:368-678 | decoding what the encoder writes for a legal script, from zeros, fails if some DC difference does not fit; otherwise every block comes to the precision it was sent to, and exactly where that is bit 0 of all 64 coefficients |
| `Progressive.UsualScript` | Remote-Share/Agent/libs/libjpeg-turbo-main/src/jcmaster.c:366-381 | a script with a first pass and a refinement of DC and AC is legal and takes every block to bit 0 |
| `Progressive.ScanFits` | Remote-Share/Agent/libs/libjpeg-turbo-main/src/jcarith.c:397-405 | with DC values of at most 2^14 in magnitude, or a point transform, every DC difference of a scan fits |
| `Progressive.ScriptInRange` | Remote-Share/Agent/libs/libjpeg-turbo-main/src/jcarith.c:397-405 | with such DC values every DC difference of a whole script fits |
| `CoefLayout.CeilTwice` | Remote-Share/Agent/libs/libjpeg-turbo-main/src/jcmaster.c:235-262 | a component's size in blocks is the MCU count's size less at most part of one MCU |
| `CoefLayout.RealRow` | Remote-Share/Agent/libs/libjpeg-turbo-main/src/jcmaster.c:535-556 | a row of an MCU is real by the controller's test if and only if it lies in the component |
| `CoefLayout.RealCols` | Remote-Share/Agent/libs/libjpeg-turbo-main/src/jcmaster.c:535-556 | all MCU columns but the last are real, and the last holds exactly the remaining columns |
| `CoefLayout.RowReal` | Remote-Share/Agent/libs/libjpeg-turbo-main/src/jccoefct.c:170-188 | in the padded image a real row of an MCU is its real blocks, then dummies with the DC value of the last one |
| `CoefLayout.RowBelow` | Remote-Share/Agent/libs/libjpeg-turbo-main/src/jccoefct.c:189-197 | a dummy row occurs only in interleaved scans, below a row of the same MCU, with the DC value of the block above its last one |
| `CoefLayout.PaddedWidth` | Remote-Share/Agent/libs/libjpeg-turbo-main/src/jccoefct.c:273-278 | the width with its right margin is a whole number of MCUs |
| `CoefLayout.BlockRowsReal` | Remote-Share/Agent/libs/libjpeg-turbo-main/src/jccoefct.c:265-272 | the block rows that the first pass takes as real are exactly those in the component |
| `CoefDelivery.PaddedRight` | Remote-Share/Agent/libs/libjpeg-turbo-main/src/jccoefct.c:178-188 | a dummy block at the right edge has no AC part and the DC value of the block before it |
| `CoefDelivery.PaddedBelow` | Remote-Share/Agent/libs/libjpeg-turbo-main/src/jccoefct.c:189-197 | a block of a dummy row has no AC part and the DC value of the last block of the row above in the same MCU |
| `CoefDelivery.BlockInPlace` | Remote-Share/Agent/libs/libjpeg-turbo-main/src/jccoefct.c:170-197 | by position in an interleaved MCU: inside the component the block of the image at that row and column, elsewhere such a dummy |
| `CoefDelivery.RasterAt` | Remote-Share/Agent/libs/libjpeg-turbo-main/src/jccoefct.c:162-217 | MCU number m is the one in row m / width and column m modulo width of the scan's grid |
| `CoefDelivery.PassDelivered` | Remote-Share/Agent/libs/libjpeg-turbo-main/src/jccoefct.c:150-217 | all MCUs of a finished pass, by position, in terms of the image alone: a scan of one component is its blocks row by row, one of several the MCU grid over the image |
| `CoefController.EntropySink.EncodeMcu` | Remote-Share/Agent/libs/libjpeg-turbo-main/src/jccoefct.c:203-211 | an entropy encoder that may refuse any call; only accepted MCUs are kept |
| `CoefController.Controller.constructor` | Remote-Share/Agent/libs/libjpeg-turbo-main/src/jccoefct.c:407-455 | a controller at the first MCU, with a padded array for each component |
| `CoefController.Controller.StartIMcuRow` | Remote-Share/Agent/libs/libjpeg-turbo-main/src/jccoefct.c:72-92 | MCU rows of the iMCU row: one if interleaved, else the sampling factor or what is left |
| `CoefController.Controller.StreamRow` | Remote-Share/Agent/libs/libjpeg-turbo-main/src/jccoefct.c:170-199 | a block row of an MCU, real or dummy, is that of the padded image |
| `CoefController.Controller.StreamMcu` | Remote-Share/Agent/libs/libjpeg-turbo-main/src/jccoefct.c:167-202 | the MCU buffer holds the MCU of the padded image |
| `CoefController.Controller.CompressData` | Remote-Share/Agent/libs/libjpeg-turbo-main/src/jccoefct.c:143-220 | whatever calls are refused, the accepted MCUs are those before the current position, each once, in raster order; false is returned exactly on a refusal |
| `CoefController.Controller.FillRealRow` | Remote-Share/Agent/libs/libjpeg-turbo-main/src/jccoefct.c:279-297 | a real block row of the array is that of the padded image, and no other row changes |
| `CoefController.Controller.FillDummyRow` | Remote-Share/Agent/libs/libjpeg-turbo-main/src/jccoefct.c:303-323 | a dummy block row of the array is that of the padded image |
| `CoefController.Controller.FillComponent` | Remote-Share/Agent/libs/libjpeg-turbo-main/src/jccoefct.c:258-325 | an iMCU row of the array is that of the padded image, and earlier rows are untouched |
| `CoefController.Controller.CompressFirstPass` | Remote-Share/Agent/libs/libjpeg-turbo-main/src/jccoefct.c:247-329 | the same contract as CompressData, and the arrays hold one more iMCU row of every component |
| `CoefController.Controller.FetchMcu` | Remote-Share/Agent/libs/libjpeg-turbo-main/src/jccoefct.c:369-381 | the MCU fetched from the arrays is the MCU of the padded image |
| `CoefController.Controller.CompressOutput` | Remote-Share/Agent/libs/libjpeg-turbo-main/src/jccoefct.c:343-397 | the same contract as CompressData, from the arrays |
| `CoefController.Controller.NextPass` | Remote-Share/Agent/libs/libjpeg-turbo-main/src/jccoefct.c:100-129 | a later pass over the filled arrays, for any other scan, starts with all its rows there |
| `CoefController.Controller.CallOnce` | Remote-Share/Agent/libs/libjpeg-turbo-main/src/jccoefct.c:100-129 | in each buffer mode a call advances by one iMCU row unless it was refused |
| `CoefController.Controller.RunPass` | Remote-Share/Agent/libs/libjpeg-turbo-main/src/jccoefct.c:143-397 | in all three buffer modes and under every pattern of refusals a finished pass has handed over the MCUs of the image in raster order, each once, with every real and dummy block in its place |
| `Utf8.RejectedForGood` | Remote-Share/Agent/libs/websocketpp/utf8_validator.hpp:45-78 | rejection is absorbing |
| `Utf8.PartialStep` | Remote-Share/Agent/libs/websocketpp/utf8_validator.hpp:69-78 | each byte is rejected, ends the unfinished character with its code point, or carries it on |
| `Utf8.Split` | Remote-Share/Agent/libs/websocketpp/utf8_validator.hpp:45-78 | what is not rejected is the encoding of the code points seen and an unfinished character |
| `Utf8.CharAccepted` | Remote-Share/Agent/libs/websocketpp/utf8_validator.hpp:45-78 | the encoding of any scalar value leads back to acceptance, and the value is seen once, at its end |
| `Utf8.AcceptsExactly` | Remote-Share/Agent/libs/websocketpp/utf8_validator.hpp:45-78 | acceptance if and only if the input is UTF-8 (section 4 of RFC 3629) of some scalar values, and those are exactly the ones seen |
| `Utf8.RejectsExactly` | Remote-Share/Agent/libs/websocketpp/utf8_validator.hpp:45-78 | rejection if and only if no continuation of the input is UTF-8 |
| `Utf8.Validator.constructor` | Remote-Share/Agent/libs/websocketpp/utf8_validator.hpp:84 | a validator that was fed nothing |
| `Utf8.Validator.Consume` | Remote-Share/Agent/libs/websocketpp/utf8_validator.hpp:91-96 | false exactly when nothing can make UTF-8 of what was fed |
| `Utf8.Validator.Decode` | Remote-Share/Agent/libs/websocketpp/utf8_validator.hpp:105-118 | the state is that of everything fed, in whatever chunks; false exactly if a nonempty chunk leaves nothing that can make UTF-8 of it |
| `Utf8.Validator.Complete` | Remote-Share/Agent/libs/websocketpp/utf8_validator.hpp:124-126 | true exactly when everything fed is UTF-8 |
| `Utf8.Validator.Reset` | Remote-Share/Agent/libs/websocketpp/utf8_validator.hpp:129-132 | back to a validator that was fed nothing |
| `Utf8.Validate` | Remote-Share/Agent/libs/websocketpp/utf8_validator.hpp:143-149 | true exactly when the string is UTF-8 |
| `Utf8.ValidateChunks` | Remote-Share/Agent/libs/websocketpp/utf8_validator.hpp:105-126 | splitting the input into chunks changes nothing |
| `FrameMask.XorValue` | Remote-Share/Agent/libs/websocketpp/frame.hpp:709-711 | xor of numbers is xor of their bytes |
| `FrameMask.XorBits` | Remote-Share/Agent/libs/websocketpp/frame.hpp:709-711 | a bit of the xor is one exactly where the two differ |
| `FrameMask.StoreOrder` | Remote-Share/Agent/libs/websocketpp/frame.hpp:595-604 | memory holds the least significant byte of a word first on a little-endian machine, else last |
| `FrameMask.WordXor` | Remote-Share/Agent/libs/websocketpp/frame.hpp:709-711 | xor of a machine word is xor of its bytes in memory, on either byte order |
| `FrameMask.RotateValue` | Remote-Share/Agent/libs/websocketpp/frame.hpp:616-622 | shifting a number both ways and or-ing rotates its bytes |
| `FrameMask.PreparedKey` | Remote-Share/Agent/libs/websocketpp/frame.hpp:595-604 | a prepared key holds the four key bytes over and over, for words of 4 and 8 bytes on either byte order |
| `FrameMask.CircshiftPrepared` | Remote-Share/Agent/libs/websocketpp/frame.hpp:612-623 | shifting a prepared key moves it on by as many key bytes |
| `FrameMask.LowWord` | Remote-Share/Agent/libs/websocketpp/frame.hpp:833-834 | the low 32 bits of a prepared key, as a union, are the same key bytes |
| `FrameMask.MaskTwice` | Remote-Share/Agent/libs/websocketpp/frame.hpp:645-655 | masking twice is the identity |
| `FrameMask.MaskedConcat` | Remote-Share/Agent/libs/websocketpp/frame.hpp:645-655 | masking in pieces with the offset moved on is masking the whole |
| `FrameMask.ByteMask` | Remote-Share/Agent/libs/websocketpp/frame.hpp:645-679 | masks each byte with byte (offset + i) mod 4 of the key, in place or not, and nothing else |
| `FrameMask.MaskWord` | Remote-Share/Agent/libs/websocketpp/frame.hpp:709-711 | one word masked in memory |
| `FrameMask.WordMaskExact` | Remote-Share/Agent/libs/websocketpp/frame.hpp:702-735 | equals one byte_mask pass from offset 0 |
| `FrameMask.WordMaskCirc` | Remote-Share/Agent/libs/websocketpp/frame.hpp:768-807 | equals byte_mask from the prepared key's offset, and returns the key moved on by the length |
| `FrameMask.ByteMaskCirc` | Remote-Share/Agent/libs/websocketpp/frame.hpp:830-859 | equals byte_mask from the prepared key's offset, and returns the key moved on by the length |
| `FrameMask.MaskChunks` | Remote-Share/Agent/libs/websocketpp/frame.hpp:768-859 | any split of a payload, each chunk by either routine with the key threaded through, equals one byte_mask pass |
| `FrameHeader.NetworkBytes` | Remote-Share/Agent/libs/websocketpp/common/network.hpp:66-85 | a word in network order is stored most significant byte first, on either byte order |
| `FrameHeader.HostOrder` | Remote-Share/Agent/libs/websocketpp/common/network.hpp:98-100 | and is read back from such bytes |
| `FrameHeader.BasicHeader.constructor` | Remote-Share/Agent/libs/websocketpp/frame.hpp:194-228 | the two bytes are FIN, RSV1-3 and opcode, and MASK with the length or 126 or 127 (section 5.2 of RFC 6455), and the getters return the fields given |
| `FrameHeader.ExtendedHeader.constructor` | Remote-Share/Agent/libs/websocketpp/frame.hpp:240-256 | the length field in network order, then the key, then zeros |
| `FrameHeader.ExtendedHeader.CopyPayload` | Remote-Share/Agent/libs/websocketpp/frame.hpp:260-274 | the length field takes 0, 2 or 8 bytes |
| `FrameHeader.PrepareHeader` | Remote-Share/Agent/libs/websocketpp/frame.hpp:489-502 | the two basic bytes and as many extended ones as the header length says |
| `FrameHeader.BuildHeader` | Remote-Share/Agent/libs/websocketpp/frame.hpp:194-585 | the bytes on the wire are those of section 5.2 of RFC 6455: flags and opcode, mask bit and length code, no, two or eight length bytes, the key; all getters read the fields back, and there are at most 14 bytes |
| `FrameHeader.LengthShortest` | Remote-Share/Agent/libs/websocketpp/frame.hpp:469-477 | no header that reads as the same payload size has a shorter length field |
| `Uri.DecimalAtoi` | Remote-Share/Agent/libs/websocketpp/uri.hpp:331 | decimal output is read back by atoi |
| `Uri.TailPrinted` | Remote-Share/Agent/libs/websocketpp/uri.hpp:274-285 | a printed port and resource are parsed back, also when the default port was left out |
| `Uri.ParsedMade` | Remote-Share/Agent/libs/websocketpp/uri.hpp:51-168 | whatever is parsed has a known scheme, a port from 1 to 65535 and a resource that starts with a slash |
| `Uri.FourSchemes` | Remote-Share/Agent/libs/websocketpp/uri.hpp:51-76 | what each of the four prefixes makes of a plain host and a path: wss and https are secure with port 443, ws and http are not, with port 80 |
| `Uri.PortPrintedExact` | Remote-Share/Agent/libs/websocketpp/uri.hpp:274-285 | the port is printed exactly if it is not 443 with a secure scheme or 80 with another |
| `Uri.RoundTrip` | Remote-Share/Agent/libs/websocketpp/uri.hpp:274-285 | parsing the printed form gives the same URI for plain hosts, ports from 1 and resources that start with a slash |
| `Uri.RoundTripExact` | Remote-Share/Agent/libs/websocketpp/uri.hpp:274-285 | and exactly for those: a host without '/' and ':' that does not start with '[', a nonzero port, a resource that starts with '/' |
| `Uri.BracketsLost` | Remote-Share/Agent/libs/websocketpp/uri.hpp:78-107 | a host that starts with a bracket is never read back |
| `Uri.LoopbackLost` | Remote-Share/Agent/libs/websocketpp/uri.hpp:78-107 | ws://[::1]/ parses to the host ::1, and its printed form does not parse |
| `Uri.ParsePrintParse` | Remote-Share/Agent/libs/websocketpp/uri.hpp:51-168 | printing what was parsed and parsing it again gives the same URI if and only if its host is plain |
| `Uri.ParsedUri.constructor` | Remote-Share/Agent/libs/websocketpp/uri.hpp:51-168 | the parsing constructor is valid exactly when the string parses, with exactly its parts |
| `Uri.ParsedUri.ScanHost` | Remote-Share/Agent/libs/websocketpp/uri.hpp:121-136 | the host ends at the first colon or slash |
| `Uri.ParsedUri.ScanPort` | Remote-Share/Agent/libs/websocketpp/uri.hpp:139-147 | the port's text ends at the first slash |
| `Uri.ParsedUri.ParsePort` | Remote-Share/Agent/libs/websocketpp/uri.hpp:139-167 | port and resource, or invalid |
| `RelayModel.StepWf` | Remote-Share/Server/index.js:70-313 | no handler leaves a dangling reference or lists a socket twice |
| `RelayConsistency.StepCounted` | Remote-Share/Server/index.js:70-313 | each event moves the counters with the number of live sockets, except that an error event takes one off each |
| `RelayConsistency.CountersExact` | Remote-Share/Server/index.js:20-25 | in every run, active = agents + viewers = live accepted sockets less error events, and total = connections |
| `RelayConsistency.AgentSaysKept` | Remote-Share/Server/index.js:156-198 | agent messages keep the relay consistent |
| `RelayConsistency.ViewerSaysKept` | Remote-Share/Server/index.js:247-281 | viewer messages keep the relay consistent |
| `RelayConsistency.ConnectExact` | Remote-Share/Server/index.js:70-152 | a connection keeps the relay consistent exactly if no agent or viewer joins a session whose agent is closing, a viewer's id is fresh, and an unknown path names an existing session |
| `RelayConsistency.ViewerReplaced` | Remote-Share/Server/index.js:237-240 | a repeated viewer id leaves the first viewer unlisted |
| `RelayConsistency.RepeatedViewerId` | Remote-Share/Server/index.js:237-240 | two viewers of a new session with the same id: a possible run of two events, irregular, and inconsistent at its end |
| `RelayConsistency.InconsistentRun` | Remote-Share/Server/index.js:237-240 | so a run of two events from the start of the server ends inconsistent |
| `RelayConsistency.CloseKept` | Remote-Share/Server/index.js:201-299 | a close event keeps the relay consistent, with the session dropped if it is empty |
| `RelayConsistency.Cleaned` | Remote-Share/Server/index.js:367-374 | dropping an empty session leaves no live socket behind in it |
| `RelayConsistency.BeginCloseKept` | Remote-Share/Server/index.js:201-299 | a socket that begins to close, agent or viewer, keeps the relay consistent |
| `RelayConsistency.AgentReplaced` | Remote-Share/Server/index.js:132-141 | a second agent admitted while the first is closing leaves the first live but unlisted |
| `RelayConsistency.ViewerMisled` | Remote-Share/Server/index.js:283-288 | a viewer that joins while the agent is closing is told that there is none |
| `RelayConsistency.SecondAgentLost` | Remote-Share/Server/index.js:132-206 | when the close event of the first agent comes, the session loses the second one, which is live: its open viewers are told that there is no agent, and a session without viewers is dropped |
| `RelayConsistency.ErrorMiscounts` | Remote-Share/Server/index.js:219-309 | an error event breaks the counters |
| `RelayConsistency.StepExact` | Remote-Share/Server/index.js:70-374 | from a consistent state, the next state is consistent if and only if the event is regular; beginning to close always is, joining behind a closing agent never |
| `RelayConsistency.RelayConsistent` | Remote-Share/Server/index.js:70-374 | every state of a run from the start is consistent if and only if every event of it is regular |
| `RelayConsistency.SessionsIsolated` | Remote-Share/Server/index.js:149-198 | an event of one session changes no socket of another |
| `RelayConsistency.AgentHeard` | Remote-Share/Server/index.js:186-194 | what an agent says other than screen_info goes once to each open viewer of its session and to nobody else |
| `RelayConsistency.RescaleExact` | Remote-Share/Server/index.js:172-182 | the rescaling loop reaches its end if and only if no open socket has been stored without a screen, and until then sends each open socket its scale once |
| `RelayConsistency.ScreenHeard` | Remote-Share/Server/index.js:163-194 | a screen_info goes to each open viewer, behind its own scale, if and only if the rescaling does not throw; otherwise the scales before that are still sent and the message goes to nobody |
| `RelayConsistency.ViewerHeard` | Remote-Share/Server/index.js:272-277 | what a viewer enters goes to its session's agent, if that is open, and to nobody else |
| `RelayConsistency.ClientHeard` | Remote-Share/Server/index.js:254-269 | a client_info: its sender is sent its scale exactly if the agent's screen is known and the message has one, nobody else is sent anything, and the screen replaces what the sender told before |
| `RelayConsistency.ConnectHeard` | Remote-Share/Server/index.js:70-153 | who hears of a connection: nobody if it is refused; a new agent is announced once to each open viewer of its session; a new viewer alone is told whether the agent is open |
| `RelayConsistency.CloseHeard` | Remote-Share/Server/index.js:201-299 | an agent's close is announced once to each open viewer of its session, a viewer's to nobody |
| `Relay.Server.constructor` | Remote-Share/Server/index.js:18-25 | no sessions, all counters zero |
| `Relay.Server.NotifyViewers` | Remote-Share/Server/index.js:149-153 | the loop sends the message once to each open viewer |
| `Relay.Server.RescaleViewers` | Remote-Share/Server/index.js:172-182 | the loop sends each open viewer its scale, and stops where one has been stored without a screen |
| `Relay.Server.OnConnection` | Remote-Share/Server/index.js:70-124 | the handler makes exactly the modelled step |
| `Relay.Server.HandleAgentConnection` | Remote-Share/Server/index.js:129-153 | refuses a second open agent, else installs the agent and tells the viewers |
| `Relay.Server.HandleViewerConnection` | Remote-Share/Server/index.js:233-288 | installs the viewer and tells it whether an open agent is there |
| `Relay.Server.OnAgentMessage` | Remote-Share/Server/index.js:156-198 | the handler makes exactly the modelled step |
| `Relay.Server.OnViewerMessage` | Remote-Share/Server/index.js:247-281 | the handler makes exactly the modelled step |
| `Relay.Server.OnCloseEvent` | Remote-Share/Server/index.js:201-299 | the close handlers make exactly the modelled step |
| `Relay.Server.OnErrorEvent` | Remote-Share/Server/index.js:219-309 | the error handlers make exactly the modelled step |
| `Relay.Server.CleanupSessionIfEmpty` | Remote-Share/Server/index.js:367-374 | drops the session of that name if it has neither agent nor viewers |
| `Base64.DecodeEncode` | Remote-Share/Agent/src/ImageProcessor.cpp:13-31 | the encoding has 4 times ceil(n/3) characters and decodes to the input (section 4 of RFC 4648) |
| `Base64.TestVectors` | Remote-Share/Agent/src/ImageProcessor.cpp:13-31 | the seven test vectors of section 10 of RFC 4648 |
| `Base64.RegisterBits` | Remote-Share/Agent/src/ImageProcessor.cpp:16-22 | the 32-bit register, wrapped or not, holds the bits of the last two bytes |
| `Base64.Emit` | Remote-Share/Agent/src/ImageProcessor.cpp:20-23 | the inner loop writes exactly the characters that a byte completes |
| `Base64.EncodeImpl` | Remote-Share/Agent/src/ImageProcessor.cpp:13-31 | the loop writes the encoding of RFC 4648 for every input |
| `ColorConvert.InRange` | Remote-Share/Agent/libs/libjpeg-turbo-main/src/jccolext.c:56-69 | for every precision all outputs are samples without clamping |
| `ColorConvert.GrayExact` | Remote-Share/Agent/libs/libjpeg-turbo-main/src/jccolor.c:39-55 | grays give Y = gray and Cb = Cr = center exactly |
| `ColorConvert.AccurateY` | Remote-Share/Agent/libs/libjpeg-turbo-main/src/jccolor.c:44-48 | Y is within one half, and the rounding of the scaled fractions, of the real formula |
| `ColorConvert.AccurateCb` | Remote-Share/Agent/libs/libjpeg-turbo-main/src/jccolor.c:44-48 | the same for Cb |
| `ColorConvert.AccurateCr` | Remote-Share/Agent/libs/libjpeg-turbo-main/src/jccolor.c:44-48 | the same for Cr |
| `ColorConvert.Converter.RgbYccStart` | Remote-Share/Agent/libs/libjpeg-turbo-main/src/jccolor.c:214-246 | fills all eight table sections |
| `ColorConvert.Converter.RgbYccConvert` | Remote-Share/Agent/libs/libjpeg-turbo-main/src/jccolext.c:32-75 | every pixel of every row is converted, for all widths and row counts |
| `Cmyk.InkLevel` | Remote-Share/Agent/libs/libjpeg-turbo-main/src/cmyk.h:27-45 | an ink level is the component's share of the brightest one, rounded |
| `Cmyk.RgbToCmykExact` | Remote-Share/Agent/libs/libjpeg-turbo-main/src/cmyk.h:27-45 | black is the brightest component, each ink its component's rounded share of that, and all inks are full if there is no light |
| `Cmyk.CmykToRgbExact` | Remote-Share/Agent/libs/libjpeg-turbo-main/src/cmyk.h:52-58 | each component is its ink times black, scaled and rounded, on any inks |
| `Cmyk.MixExact` | Remote-Share/Agent/libs/libjpeg-turbo-main/src/cmyk.h:52-58 | the rounding error of a mixed component is less than one half |
| `Cmyk.Reversible` | Remote-Share/Agent/libs/libjpeg-turbo-main/src/cmyk.h:27-58 | in exact arithmetic the two conversions are inverse for every precision and all samples |

## Left out

- Blocks are indexed in zigzag order throughout, so `jpeg_natural_order` does not appear.
- The decode_mcu routines, too, share one loop over the blocks of an MCU. A null block, which means that a component's coefficients are not wanted, is not modelled.
- The five encode_mcu routines share one loop over the blocks of an MCU; their bodies are separate methods.
- After a damaged code the decoder's skipping of the rest of the segment and its resynchronization are not modelled: the model's decoder reports damage and stops.
- Progressive scripts: legality is required for every block that a scan takes, padding included, where script validation works on components; nothing is said about a padding block that an interleaved DC scan takes after other scans have left it out.
- A scan's statistics and predictions start from those the scan before left; the other direction, a decoder that joins in the middle of a file, is not modelled.
- Output buffers, suspension inside the entropy encoder, memory pools, progress hooks and error exits of libjpeg; error exits are preconditions.
- The forward DCT is a function of component and block position; sample data and quantization are not modelled.
- Spectral conditioning, which is compiled out, and lossless mode.
- CoefController.Controller.NextPass: a later pass is a new object over the same arrays, where the source reinitializes the controller's fields.
- CoefController.EntropySink.EncodeMcu: stands for any entropy encoder that accepts or refuses, not for the arithmetic one.
- Frame header setters, reserved opcodes and the receiving side's checks of a header.
- Uri.DecimalAtoi: atoi on numbers beyond an int, which C leaves undefined, is taken on unbounded integers and then reduced to 32 bits.
- The other URI constructors, the query getter, and IPv6 hosts in the round trip, which lose their brackets.
- Relay messages carry abstract texts and screens; the arithmetic of a scale, logging, timestamps, ping timers, and sockets that fail before they are accepted are not modelled. That a closing socket drops what is sent to it is modelled.
- ColorConvert: samples are reduced to the range of the table, as the 12-bit build does; pixel orders other than three samples a pixel, the grayscale-only loop and the CMYK to YCCK loop, which reuse the same tables, would only add easy members.
- Cmyk.Reversible: floating-point rounding is not modelled; the reals are exact.
- Capture, input injection, browser pages, JNI, command-line tools and the rest of the repository.
