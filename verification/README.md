# WiScape sender: erasure code, retransmission window and rate decisions

This project models the sending side of a Wi-Fi access point and proves its
properties in Dafny. `dafny verify dfyconfig.toml` checks all of it.

## What is modelled

**The erasure code** (`src/fec.cc`). `Bits`, `Galois` and `GfPrimitive` develop GF(2^m) from
"multiply by alpha": carry-less multiplication modulo a polynomial, the field laws for every
width and polynomial, and the order of alpha. `GfTables` runs the table-building loops for
every GF_BITS from 2 to 16 whose listed polynomial is primitive; `Gf` fixes GF_BITS = 8.
`Linear`, `Gauss`, `Poly`, `Vandermonde` and `RsCode` hold the linear algebra, the exchange
invariant of Gauss-Jordan elimination, polynomial interpolation and the code itself.
`InvertMat`, `InvertVdm`, `Shuffle`, `Fec` and `Codec` are the in-place algorithms, on arrays,
proved against that theory. `BatchCodec` is the class `CodeInfo`, and `Transfer` the end-to-end
law for one batch.

**The retransmission window** (`src/wspace_ap_scout.cc`, `src/wspace_asym_util.cc`). `SendWindow` is a
state machine over an unbounded log of slots, with the history of what was accepted, how often
each packet was handed out and what became of it. `Ring` and `TxBuffer` implement it in 500
slots, `Feedback` holds the loops of `HandleDataAck` and `HandleTimeOut`, `Sender` and
`SendThread` the sending thread with its encoder and rate maker. `Endpoint` puts the threads of one
client on one shared buffer, and `TailRace` looks at several producers of one buffer.
`Runs`, `Liveness` and `Resend` prove what holds over every run of the threads together, and
`Delivery` that decoding the frames of any batch of a run gives back what the window accepted.

**Smaller parts.** `RawBuf` (fate of raw packets), `Mailbox` (the hand-over of acks between two
threads), `Packets`, `LossRecords` and `RateTally` (sliding windows that agree with recounting),
`Redundancy`, `ScoutRate` and `PlaceLookup` (how many packets to send, and at which rates), with the laws of real
products they use in `Reals`.

## Findings

- `invert_vdm` starts its inner loop one place too late and never adds the product of the first
  two points. The result is the inverse if and only if there are at most two points or one of the
  first two points is 0 (`Vandermonde.CodeInverseCorrect`); `fec_new` always passes 0 first. On the
  points 1, 2, 3 it is wrong (`Vandermonde.CodeInverseWrongFor123`).
- A retransmitted packet is copied from its ring slot only after the current batch has been
  sent. If it was acknowledged or dropped meanwhile, its slot may hold another packet, which is then
  sent under the old sequence number. This happens exactly when more than 500 packets were
  accepted from it on (`Resend.ResentBytes`, with a reachable case in
  `Resend.ResendCanCarryAnotherPacket`). A packet still in the window is never affected
  (`Resend.HeldIsIntact`).
- `BinarySearchRecords` is documented as returning the smallest index with a larger time. It
  does so if and only if no record has the time searched for (`LossRecords.SearchIsFirstLarger`). The
  least index with time at least t, which its callers need, it returns whenever no two records share that
  time (`LossRecords.SearchIsFirst`); with three records at one time it does not
  (`LossRecords.SearchSkipsEqualTimes`), with two it does (`LossRecords.SearchMayHitFirst`).
- As a consequence the class, called directly, can report a wrong loss rate: of three packets at the
  start of the interval one may not be counted (`LossRecords.LossMiscounted`). The one live caller
  (src/wspace_ap_scout.cc:862-864) avoids this: it asks 1 ns before the first and after the last packet
  of a report, and in time order a lookup at times that no record carries is right
  (`LossRecords.SortedCuts`, `LossRecords.CountsRightAtCuts`).
- The records need not be in time order: after a full buffer was flushed `SendCodedBatch` inserts that
  report again for every further packet of the batch (src/wspace_ap_scout.cc:347-348), behind whatever the
  raw-ack thread inserted meanwhile. Then a lookup can count a packet from outside its interval
  (`LossRecords.RepeatedReportBuilds`, `LossRecords.RepeatedReportMiscounted`). What is left out and
  what is counted in excess balance on every list (`LossRecords.CountsConserved`), and the count is right
  exactly when the two count the same (`LossRecords.CountsRight`).
- A packet with the status "invalid" is counted as sent but in no other column
  (`RateTally.InvalidCountedAsSent`), so sent = acked + naked + timed out holds exactly without such
  packets (`RateTally.SentIsSettled`). `InsertRecord` lets them in; its only caller does not, so reports
  of receivers never cause this (`RateTally.InsertFeedback`).
- `EnqueuePkt` accepts an empty packet, and the assertion of `DequeuePkt` then stops the program when
  that packet is to be sent, and on nothing else (`Runs.RunCanStep`, `Runs.EmptyPacketStops`).
- Without FEC, and with a coherence time shorter than one packet, the rate decision is a batch of 0
  packets (`ScoutRate.EmptyBatchWithoutFec`); the encoder then refuses the first push, and the assertion
  at src/wspace_ap_scout.cc:429 stops the program (`SendThread.TxSendAth.Iterate`, `Runs.EmptyBatchStops`).
- `EnqueuePkt` reads the tail before it takes the queue lock. The thread that receives packets and the
  thread that sends probes both call it (src/wspace_ap_scout.cc:26-27), so two packets can get the same
  sequence number (`TailRace.TwoPacketsWithOneNumber`); the exact condition is `TailRace.NumberedRight`.
- `FindSuccessRates` is documented to return rates that were acknowledged or not sent at all; the code also
  returns rates sent once without an ack.

## Assumptions

- An ack lists its missing sequence numbers in ascending order within [1, end_seq], and end_seq
  does not exceed the number of packets handed out for the first time.
- Raw-ack windows are nonempty, ordered and disjoint, with ascending nacks inside them, and end no
  later than the last raw packet stored.
- Packets put into the send buffer have at most 1472 bytes, the size of a slot. `EnqueuePkt` copies without a
  check, and src/tun.h:25 lets the receiving thread read up to 2000 bytes; a longer packet runs over into the next
  slot, which the model does not show.
- One thread at a time puts packets into a send buffer (see `TailRace` for what happens otherwise).
- Each step of a thread (one loop iteration, one critical section, one ack) is atomic.
- Rates and loss rates are looked up for rates of the rate table only, which `GetLossRate` asserts.

## Model

| member | source | states |
|---|---|---|
| `Galois.AlphaLinear` | src/fec.cc:226-287 | multiplying by alpha is linear over XOR, for any width and any polynomial |
| `Galois.MulExp` | src/fec.cc:149-178 | the carry-less product with alpha^i is i steps of "multiply by alpha", which is what the log table counts |
| `Galois.MulComm` | src/fec.cc:149-178 | the carry-less product modulo the polynomial is commutative for every width and polynomial |
| `Galois.MulAssoc` | src/fec.cc:149-178 | the carry-less product modulo the polynomial is associative for every width and polynomial |
| `Galois.ExpInjective` | src/fec.cc:226-287 | when the polynomial is primitive, the powers of alpha below 2^m - 1 are all different |
| `Galois.ExpSurjective` | src/fec.cc:226-287 | when the polynomial is primitive, every nonzero element is a power of alpha |
| `GfPrimitive.Polynomial8Primitive` | src/fec.cc:100-118 | the polynomial listed for GF_BITS = 8 is primitive: alpha has order 255 and no smaller one |
| `GfPrimitive.AlphaToTheEighth` | src/fec.cc:100-118 | it is 1 + x^2 + x^3 + x^4 + x^8: alpha is 2 and alpha^8 is 29 |
| `GfTables.Modnn` | src/fec.cc:139-147 | modnn(x) is x mod (2^m - 1) for every x >= 0, and its loop terminates |
| `GfTables.FirstPowers` | src/fec.cc:233-255 | the first loop enters alpha^0 .. alpha^(m-1) and their logarithms, and alpha^m as the polynomial itself |
| `GfTables.LaterPowers` | src/fec.cc:262-269 | the second loop enters the remaining powers with their logarithms, for every primitive polynomial |
| `GfTables.GenerateGf` | src/fec.cc:226-287 | exp and log are mutually inverse on nonzero elements, exp repeats with period 2^m - 1, and inverse[x] times x is 1, for every GF_BITS from 2 to 16 whose listed polynomial is primitive |
| `GfTables.MulByLogs` | src/fec.cc:168-178 | the log/exp formula computes the carry-less product of nonzero elements |
| `GfTables.InitMulTable` | src/fec.cc:168-178 | every entry of the multiplication table is the carry-less product, zero rows and columns included |
| `GfTables.MulByLog` | src/fec.cc:179-186 | the product by logarithms used for wider fields is the carry-less product as well |
| `Gf.Distribute` | src/fec.cc:149-178 | multiplication distributes over XOR in GF(2^8) |
| `Gf.InverseUnique` | src/fec.cc:278-286 | a nonzero element has exactly one inverse |
| `Gf.InitFec` | src/fec.cc:586-598 | initialisation leaves tables that multiply and invert in GF(2^8) |
| `Linear.InversesAreProducts` | src/fec.cc:391-515 | two matrices undo each other exactly when both products are the identity |
| `Linear.SingularNotInvertible` | src/fec.cc:391-515 | a matrix that maps a nonzero vector to zero has no inverse |
| `Gauss.PivotExchange` | src/fec.cc:459-493 | dividing a row by its pivot, replacing the pivot by 1 and clearing the column exchanges one input with one output of the linear map |
| `Gauss.ExchangePivot` | src/fec.cc:446-493 | one elimination step keeps the invariant: pivoted inputs and outputs are exchanged, up to the row permutation |
| `Gauss.StuckIsSingular` | src/fec.cc:424-444 | when no pivot is left, some nonzero vector is mapped to zero |
| `Gauss.UnscrambleStep` | src/fec.cc:495-506 | undoing one row swap on the columns keeps the matrix the inverse up to the remaining swaps |
| `InvertMat.FindPivot` | src/fec.cc:418-444 | the diagonal entry is taken first, otherwise any nonzero entry of unpivoted row and column; failure means there is none |
| `InvertMat.PivotColumn` | src/fec.cc:459-493 | the in-place row operations are the exchange step, also when they are skipped for a row that is already a unit vector |
| `InvertMat.Unscramble` | src/fec.cc:495-506 | replaying the recorded swaps on the columns turns the eliminated matrix into the inverse |
| `InvertMat.InvertMat` | src/fec.cc:391-515 | returns 0 exactly when the matrix is invertible and 1 exactly when it is singular; with 0 the array holds the inverse of what it held |
| `Poly.Division` | src/fec.cc:566-576 | synthetic division: the polynomial is (x - r) times the quotient plus its value at r |
| `Poly.RootBound` | src/fec.cc:520-583 | a polynomial of degree below k with k different roots is zero |
| `Poly.ProdRoots` | src/fec.cc:551-563 | the product of the factors x - p vanishes at each p |
| `Vandermonde.VdmInjective` | src/fec.cc:520-583 | a Vandermonde matrix on distinct points is injective |
| `Vandermonde.BasisIsInverse` | src/fec.cc:565-578 | the Lagrange basis coefficients, quotient by one factor over its value at that point, are the columns of the inverse |
| `Vandermonde.CodeProdTop` | src/fec.cc:551-563 | the coefficient loop misses exactly the term p0 * p1 two places below the top |
| `Vandermonde.CodeInverseCorrect` | src/fec.cc:529-583 | on distinct points the computed matrix is the inverse if and only if there are at most two points or one of the first two is 0 |
| `Vandermonde.CodeInverseWrongFor123` | src/fec.cc:529-583 | a concrete failure: on the points 1, 2, 3 the computed matrix is not the inverse |
| `InvertVdm.ProductCoefficients` | src/fec.cc:547-563 | the c loop builds the coefficients of the product polynomial, without the terms it skips |
| `InvertVdm.Quotient` | src/fec.cc:566-575 | the b loop is synthetic division by x - p and t its Horner value at p |
| `InvertVdm.InvertVdm` | src/fec.cc:529-583 | the array ends with the matrix of quotients over their values in its top k rows, and nothing else changed |
| `RsCode.RowsEvaluate` | src/fec.cc:630-685 | row i of the encoding matrix evaluates, at point i, the polynomial that interpolates the data at the first k points |
| `RsCode.OnePolynomial` | src/fec.cc:630-685 | exactly one polynomial with k coefficients takes the data as its values at 0, alpha^0, .., alpha^(k-2) |
| `RsCode.CodewordValues` | src/fec.cc:630-685 | for 1 <= k <= n <= 2^8 and any polynomial with k coefficients that takes the data at 0, alpha^0, .., alpha^(k-2), row i of the encoding matrix applied to the data is its value at alpha^(i-1) |
| `RsCode.FirstParityRow` | src/fec.cc:652-675 | a concrete row: for k = 2 and n = 3 the parity row is 3, 2 |
| `RsCode.PickedRowsInvertible` | src/fec.cc:630-685 | k rows of the encoding matrix form an invertible matrix if and only if they are k different rows |
| `Fec.FillVandermonde` | src/fec.cc:652-662 | row 0 is 1, 0, .., 0 and entry (i, j) of any other row is alpha^((i-1) j) |
| `Fec.MatMul` | src/fec.cc:346-362 | the triple loop computes the matrix product rows by columns |
| `Fec.FecNew` | src/fec.cc:630-685 | fails exactly unless 1 <= k <= n <= 2^m, and otherwise yields the encoding matrix that RsCode.CodewordValues describes: the identity on top, and below it the values at the next powers of alpha |
| `Codec.AddMul` | src/fec.cc:305-342 | the unrolled loop and its tail add c times the source to the destination, nothing beyond sz, and c = 0 changes nothing |
| `Codec.CombineIsCoded` | src/fec.cc:692-711 | accumulating rows packet by packet equals the matrix row applied symbol by symbol |
| `Codec.FecEncode` | src/fec.cc:692-711 | packet index of the codeword, by the row of RsCode.CodewordValues, which for index < k is the original itself; an index of n or more leaves the buffer alone |
| `Shuffle.SwapFixes` | src/fec.cc:720-736 | each swap puts one more index in its place for good, so shuffle terminates |
| `Shuffle.Shuffle` | src/fec.cc:716-749 | returns 0 exactly when no index below k is repeated, then every such index is in its own slot; packets and indices are rearranged by the same permutation |
| `Codec.BuildDecodeMatrix` | src/fec.cc:756-786 | yields the inverse of the received rows, or nothing exactly when an index is n or more or is repeated |
| `Codec.Recover` | src/fec.cc:815-835 | missing originals are recomputed from all received packets before any buffer is overwritten, and the others are untouched |
| `Codec.DecodedSlot` | src/fec.cc:815-835 | after decoding, slot x holds original x, whether it arrived or was recomputed |
| `Codec.RecoversRearranged` | src/fec.cc:799-839 | what is recovered does not depend on the order of arrival |
| `Codec.FecDecode` | src/fec.cc:799-839 | for all 1 <= k <= n <= 2^8 and any k indices in any order: returns 0 exactly when the indices are different and below n, and then pkt[i] is original i; bytes from sz on never change, and on an error no byte of any buffer does |
| `BatchCodec.CodeInfo.ClearInfo` | src/fec.cc:865-872 | all fields, indices, lengths and buffers are zero again |
| `BatchCodec.CodeInfo.SetCodeInfo` | src/fec.cc:874-879 | sets any k and n, and the start sequence number unless it is 0; the batch is usable for coding exactly when k <= n <= 2^8 and k packets fit |
| `BatchCodec.CodeInfo.PushPkt` | src/fec.cc:881-907 | accepted exactly when the length is positive and the side has room; then one buffer, one length or index, the size and the count change, and nothing else |
| `BatchCodec.CodeInfo.PopPkt` | src/fec.cc:909-921 | hands out the next coded buffer while there is one, with the coded size or the original length |
| `BatchCodec.CodeInfo.EncodeBatch` | src/fec.cc:923-932 | the first n buffers become the codeword of the pushed packets, padded to the longest, and the packets are unchanged |
| `BatchCodec.CodeInfo.DecodeBatch` | src/fec.cc:934-942 | with k different indices below n the buffers become the originals in order; otherwise they hold the bytes they held, and bytes from sz on never change |
| `BatchCodec.CodeInfo.GetSeqArr` | src/fec.cc:961-966 | the packets of a batch have consecutive sequence numbers |
| `Transfer.TransferBatch` | src/fec.cc:874-942 | packets of mixed lengths pushed and encoded, any k different coded packets pushed in any order, lengths copied, decoded and popped: the originals come back in order, byte for byte up to their own length |
| `SendWindow.StartInv` | src/wspace_asym_util.h:95-97 | the empty buffer satisfies the invariant |
| `SendWindow.EnqueueInv` | src/wspace_asym_util.cc:150-163 | enqueueing any packet that fits a slot keeps head <= curr <= sent <= tail <= head + 500, slot i carrying sequence number i + 1, new slots exactly in [sent, tail), retransmissions only from curr on with retries left, and the fate and hand-out counts in step |
| `SendWindow.AssertsExactly` | src/wspace_asym_util.cc:170-180 | the assertions of DequeuePkt hold for the slot at the current pointer if and only if it is not an empty packet handed out for the first time |
| `SendWindow.DequeueInv` | src/wspace_asym_util.cc:165-191 | handing out or skipping a slot keeps the same invariant |
| `SendWindow.AckInv` | src/wspace_ap_scout.cc:524-728 | every well-formed ack keeps the same invariant |
| `SendWindow.TimeOutInv` | src/wspace_ap_scout.cc:730-804 | every timeout keeps the same invariant, with out-of-retries packets dropped whatever their age |
| `SendWindow.EnqueueTakes` | src/wspace_asym_util.cc:150-163 | a packet is taken, at the tail and with the next number, exactly while the window holds fewer than 500 slots |
| `SendWindow.DequeueStamps` | src/wspace_asym_util.cc:165-191 | a pending slot becomes outbound with the present time, and a retransmission costs one retry; an outbound or empty slot is only passed over |
| `SendWindow.AckReleases` | src/wspace_ap_scout.cc:598-686 | a slot in the range of an ack ends empty exactly when it was empty, not nacked, or outbound without retries; a nacked one that awaits retransmission stays as it is |
| `SendWindow.NackRetransmits` | src/wspace_ap_scout.cc:612-633 | a nacked outbound slot with retries left is set for retransmission exactly when its packet was sent once so far or more than a round trip ago, and stays as it is otherwise |
| `SendWindow.AckMoves` | src/wspace_ap_scout.cc:714-726 | after an ack the head is the first slot still held, the current pointer the first slot of the range that awaits retransmission, or else the larger of the head and its old place; slots outside the range stay |
| `SendWindow.TimeOutRetransmits` | src/wspace_ap_scout.cc:750-793 | at a timeout an outbound slot with retries left is set for retransmission exactly when it is older than 1.2 round trips, and stays as it is otherwise; one without retries is released, any other stays |
| `SendWindow.TimeOutMoves` | src/wspace_ap_scout.cc:794-804 | the pointers after a timeout, as after an ack |
| `SendWindow.QuietTimeOut` | src/wspace_ap_scout.cc:750-804 | a timeout that finds nothing waiting, nothing without retries and nothing older than 1.2 round trips leaves every slot and every fate alone, and the pointers too when the head is held |
| `Ring.HoldsAppend` | src/wspace_asym_util.h:188-214 | storing behind the tail modulo 500 keeps the last 500 packets readable in the ring |
| `Ring.TailIsFree` | src/wspace_asym_util.cc:150-163 | the slot behind the tail is empty unless the window is full, so the assertion in EnqueuePkt holds |
| `Ring.LatestIsSelf` | src/wspace_asym_util.h:188-214 | a ring position still shows packet i exactly while fewer than 500 packets were accepted since |
| `TxBuffer.TxDataBuf.EnqueuePkt` | src/wspace_asym_util.cc:150-163 | the ring operation is the enqueue step; it asserts that the slot is empty |
| `TxBuffer.TxDataBuf.DequeuePkt` | src/wspace_asym_util.cc:132-191 | the ring operation is the dequeue step, and returns where the packet is; ok tells exactly whether its assertions on length, number and retries hold |
| `TxBuffer.TxDataBuf.MovePointers` | src/wspace_ap_scout.cc:714-726 | head and current pointer end where the ack or timeout step puts them |
| `Feedback.ClientContext.FirstNack` | src/wspace_ap_scout.cc:581-596 | skips the nacks below the window and stops at the first one inside it |
| `Feedback.CursorDecides` | src/wspace_ap_scout.cc:605-686 | the nack cursor in step with the index decides membership in the nack list |
| `Feedback.ClientContext.ScanAck` | src/wspace_ap_scout.cc:605-692 | the loop reaches the end of the ack with every nack matched, so the warning about unmatched nacks cannot be printed |
| `Feedback.ClientContext.AckSlot` | src/wspace_ap_scout.cc:612-685 | the branches of the loop give the slot the value of the ack step, which SendWindow.AckReleases and NackRetransmits describe, and tell whether it awaits retransmission |
| `Feedback.ClientContext.HandleDataAck` | src/wspace_ap_scout.cc:524-728 | out-of-order, empty and duplicate acks leave the window alone and count as the code counts them; any other ack is exactly one ack step, whose retransmissions, releases and pointers the SendWindow lemmas give |
| `Feedback.ClientContext.HandleTimeOut` | src/wspace_ap_scout.cc:730-821 | the loop is exactly one timeout step; high loss is signalled exactly when the timeouts in a row that found an overdue packet, this one included, reach the maximum, and the count starts again then or when none was overdue |
| `Feedback.ClientContext.TimeOutSlot` | src/wspace_ap_scout.cc:754-785 | the branches of the loop give the slot its new value and tell whether it was overdue |
| `Feedback.ExpiredIs` | src/wspace_ap_scout.cc:763-777 | overdue: outbound with retries left and sent more than 1.2 round trips ago |
| `Sender.RingBytesGrow` | src/wspace_asym_util.cc:156-158 | later packets never shrink what a ring slot shows |
| `Sender.CanStepExactly` | src/wspace_ap_scout.cc:411-505 | once its wait is over the sending thread can take its next step, reading only what is there, if and only if it does not hand out an empty packet for the first time, nor open a batch of size 0 |
| `Sender.AddNewOk` | src/wspace_ap_scout.cc:419-435 | a new packet always finds room in the batch, so the assertion on the push holds, and it carries the next sequence number |
| `Sender.NewPktInv` | src/wspace_ap_scout.cc:413-444 | dequeuing keeps the system invariant: the open batch continues at the next unsent packet, and every hand-out is in exactly one batch, or held |
| `Sender.PartialBatchIsShort` | src/wspace_ap_scout.cc:446-459 | a batch closed early holds between 1 and 9 packets, which the assertion of the redundancy rule needs |
| `Sender.PartialBatchInv` | src/wspace_ap_scout.cc:446-459 | closing a batch early keeps the system invariant |
| `Sender.RetransmissionInv` | src/wspace_ap_scout.cc:461-476 | pushing the held packet keeps the system invariant |
| `Sender.EncodingInv` | src/wspace_ap_scout.cc:478-501 | sending the batch keeps the system invariant, and only complete batches are sent |
| `Sender.ArriveInv` | src/wspace_asym_util.cc:150-163 | an arriving packet disturbs neither the open batch nor the account of hand-outs |
| `Sender.OtherThreadInv` | src/wspace_ap_scout.cc:524-804 | acks and timeouts from the other thread disturb neither, even in the middle of a batch |
| `SendThread.TxSendAth.AskRateMaker` | src/wspace_ap_scout.cc:422-424 | the decision of the real rate maker, recorded with what it followed from: duplication if and only if it is enabled and the loss is high, the packet is resent or the rate is the lowest one |
| `SendThread.TxSendAth.Decide` | src/wspace_ap_scout.cc:422-425 | the real rate maker decides and the real encoder is told: goes on exactly when the rule of the mode accepts at the selected rate, with k and n within the buffers and a rate for every coded packet; k is 0 exactly when the coherence time is too short; duplication if and only if it is enabled and the loss is high, the packet is resent or the rate is the lowest one, and then n is k and the samples |
| `SendThread.TxSendAth.AddToBatch` | src/wspace_ap_scout.cc:419-435 | the packet read from its ring slot is pushed into the real encoder, which then holds exactly the open batch; the push is refused exactly when it opens a batch of size 0 |
| `SendThread.TxSendAth.SendCodedBatch` | src/wspace_ap_scout.cc:316-389 | n frames, numbered consecutively, with the headers a receiver decodes by and the coded packets in order; with duplication the first k go by cellular as well |
| `SendThread.TxSendAth.EncodeAndSend` | src/wspace_ap_scout.cc:478-493 | the frames sent are the codeword of the packets pushed, whatever padding stood in the buffers, and the first k go by cellular if and only if the decision on the batch says so |
| `SendThread.TxSendAth.Iterate` | src/wspace_ap_scout.cc:411-505 | one iteration over the real buffer, encoder and rate maker is exactly one step of the state machine, and what was sent carries the batches of the model, by cellular as decided; a batch is decided on when it is opened and again when it is closed early; the program goes on exactly when DequeuePkt asserts right and the decision gives a batch |
| `Runs.RunInv` | src/wspace_ap_scout.cc:411-804 | the system invariant holds in every state of every run of packets, sending, acks and timeouts in any order |
| `Runs.RunCanStep` | src/wspace_ap_scout.cc:411-505 | in every run, of packets of any length that fits a slot, the sending thread can make its next iteration except on an empty packet to be sent for the first time, or when that packet opens a batch of size 0 |
| `Runs.EmptyPacketStops` | src/wspace_asym_util.cc:172 | a concrete failure: after an empty packet arrives first no iteration without timeout is possible |
| `Runs.EmptyBatchStops` | src/wspace_ap_scout.cc:429 | a concrete failure: a decision for 0 packets stops the program on a packet that a decision for 1 sends |
| `Runs.HistoryIsFinal` | src/wspace_ap_scout.cc:524-804 | along every run accepted packets, sent batches and decided fates are never taken back, and head and sent never move back |
| `Runs.FateHasCause` | src/wspace_ap_scout.cc:578-790 | a packet received or given up at the end of a run was acknowledged by an ack of that run that reports it, or was dropped with no retries left |
| `Runs.AckDecides` | src/wspace_ap_scout.cc:578-692 | an ack settles as received exactly the held packets in its range that it does not list as missing, and gives up exactly the missing ones that are outbound without retries |
| `Runs.HandOutsCounted` | src/wspace_asym_util.cc:165-191 | the hand-outs counted along a run are the recorded ones |
| `Runs.PacketStory` | src/wspace_ap_scout.cc:411-804 | in every run each accepted packet is still buffered, or acknowledged, or given up after retrans + 1 hand-outs; it is never handed out more often, and every hand-out is in exactly one batch unless it is still held |
| `Endpoint.Client.TimeOut` | src/wspace_ap_scout.cc:730-821 | a timeout of the shared buffer is a step of the run; when the timeouts in a row reach the maximum every rate counts as lost on both antennas and for the scout, and otherwise the rate maker is untouched |
| `Endpoint.Client.Arrive` | src/wspace_ap_scout.cc:949-953 | a packet put into the buffer that all threads share extends the run by an arrival |
| `Endpoint.Client.Send` | src/wspace_ap_scout.cc:411-505 | an iteration of the sending thread on the shared buffer extends the run by that step, exactly when the program goes on |
| `Endpoint.Client.Acknowledge` | src/wspace_ap_scout.cc:524-728 | an ack handled on the shared buffer extends the run by that ack, and by nothing when it is out of order; a timeout is asked for exactly on the tenth duplicate in a row |
| `Endpoint.Client.HandleFeedback` | src/wspace_ap_scout.cc:833-842 | an iteration of the feedback thread extends the run exactly by the ack in order, if one came, and then by a timeout if none came or the duplicates ask for it |
| `Liveness.DrainSendsPending` | src/wspace_asym_util.cc:165-191 | dequeuing to the tail hands out every pending packet exactly once more and no other: nothing is stranded below the current pointer |
| `Liveness.DrainAssertsExactly` | src/wspace_asym_util.cc:165-191 | dequeuing to the tail passes every assertion if and only if no packet still to be sent for the first time is empty |
| `Liveness.SilenceEmptiesWindow` | src/wspace_ap_scout.cc:730-804 | with no ack at all, retrans + 1 rounds of sending everything and timing out empty the buffer: exactly the packets still held at the start are given up, each after retrans + 1 hand-outs, and every other fate stays |
| `Liveness.WorkShrinks` | src/wspace_ap_scout.cc:411-505 | every iteration that does not time out brings the thread closer to an empty queue |
| `Liveness.NoWorkLeft` | src/wspace_ap_scout.cc:411-505 | when it stops, no packet is pending and no retransmission is held |
| `Resend.BatchContents` | src/wspace_ap_scout.cc:411-505 | in every run, packet j of every batch has sequence number start_seq + j, and batches of new packets carry exactly the accepted bytes |
| `Delivery.DecodeFrames` | src/fec.cc:865-942 | what a receiver does with any k different frames of a transmission, in any order and by their headers alone, gives back the packets of the batch |
| `Delivery.DeliverBatch` | src/wspace_ap_scout.cc:411-505 | in every run of a client, any k frames of a batch decode to that batch, and for new packets to exactly the packets accepted at its sequence numbers |
| `Delivery.CellularIsEnough` | src/wspace_ap_scout.cc:352-356 | a batch goes by cellular if and only if duplication is enabled and the loss was high, it is resent or the rate was the lowest one; then its first k frames do, which suffice to decode it, and the radio sends only k and the samples |
| `Delivery.ResentByCellular` | src/wspace_ap_scout.cc:461-476 | in every run, while duplication is enabled every resent packet goes by cellular whole, and none at all when it is not |
| `TailRace.NumberedRight` | src/wspace_asym_util.cc:150-163 | with several producers: a packet gets the number of its slot if and only if nobody stored one between its reading of the tail and its taking the lock; never a larger one |
| `TailRace.OneProducer` | src/wspace_asym_util.cc:150-163 | a single producer always numbers its packets right |
| `TailRace.TwoPacketsWithOneNumber` | src/wspace_asym_util.cc:150-163 | a concrete failure: two producers that read the tail together store two packets with number 1 |
| `Resend.ResentBytes` | src/wspace_ap_scout.cc:461-474 | a retransmission is copied from its own ring slot if and only if at most 500 packets were accepted from it on; otherwise it carries the bytes of a later packet, all of them or as many as the resent one has |
| `Resend.HeldIsIntact` | src/wspace_ap_scout.cc:461-474 | a packet that is still unacknowledged and not given up is always resent with its own bytes |
| `Resend.ResendCanCarryAnotherPacket` | src/wspace_ap_scout.cc:461-474 | a concrete reachable state in which packet 1 is resent with the bytes of packet 501 |
| `RawBuf.GetInd` | src/wspace_asym_util.h:747-756 | the index is found exactly for held sequence numbers |
| `RawBuf.TxRawBuf.PushPktStatus` | src/wspace_asym_util.cc:448-456 | a full buffer is flushed as bad before the packet is stored; otherwise nothing is reported |
| `RawBuf.TxRawBuf.MarkNacks` | src/wspace_asym_util.cc:467-476 | nacks are marked until the first one not held, and the assertion that a nacked packet was unknown holds |
| `RawBuf.TxRawBuf.PushPkts` | src/wspace_asym_util.cc:466-497 | a window whose start is held is judged completely and everything before it is dropped |
| `RawBuf.HeldReport` | src/wspace_asym_util.cc:478-511 | the known prefix is then exactly the window |
| `RawBuf.TxRawBuf.PopPktStatus` | src/wspace_asym_util.cc:458-511 | a window whose start is held is reported exactly, bad if and only if nacked; reports stay in increasing order, each with its reason, so none is repeated |
| `RawBuf.TxRawBuf.ClearPktStatus` | src/wspace_asym_util.cc:513-524 | everything held is reported as bad, in order |
| `RawBuf.HistoryGrows` | src/wspace_asym_util.cc:448-524 | appending a report above everything reported keeps the history increasing and justified |
| `Mailbox.RunInv` | src/wspace_ap_scout.cc:896-973 | in every interleaving with spurious wakeups and timeouts nothing is lost or repeated, and a thread sleeps only when it has to |
| `Mailbox.MailboxIsFifo` | src/wspace_ap_scout.cc:896-973 | the acks handled are a prefix of those deposited, at most one is outstanding, and the two threads are never both asleep |
| `Mailbox.ConsumerFreesProducer` | src/wspace_ap_scout.cc:914-926 | a sleeping producer is woken by the next pass of the consumer, and then deposits |
| `Mailbox.ProducerFreesConsumer` | src/wspace_ap_scout.cc:961-973 | a sleeping consumer is woken by the next deposit, and then takes it |
| `Mailbox.MissesCounted` | src/wspace_ap_scout.cc:896-926 | in every run the calls that return without an ack are exactly the waits that timed out over an empty slot |
| `Mailbox.RawAcksNeverMiss` | src/wspace_ap_scout.cc:879-881 | without a timeout, as for raw acks, every call in every run returns with an ack, so the assertion of the caller holds |
| `Packets.DropOldIsKept` | src/feedback_records.cc:33-41 | dropping from the front removes exactly the old records if and only if no old record stands behind a young one |
| `Packets.SortedDropIsExact` | src/feedback_records.cc:33-41 | in time order that is always so, and the order is kept |
| `LossRecords.FeedbackRecords.InsertPacket` | src/feedback_records.cc:23-43 | for any times the new record stays and records leave from the front until one with time + duration >= now stands there; tells whether any was removed |
| `LossRecords.InOrderIsExact` | src/feedback_records.cc:33-41 | with times that never decrease exactly the records with time + duration >= now remain |
| `LossRecords.SearchSplits` | src/feedback_records.cc:45-65 | on every sorted list the search splits the records at t, and stops at a record of time t if there is one |
| `LossRecords.SearchIsFirst` | src/feedback_records.cc:45-65 | it is the least index with time at least t whenever no two records share the time t |
| `LossRecords.SearchIsFirstLarger` | src/feedback_records.h:37-42 | it is the smallest index with a larger time, as documented, if and only if no record has the time t |
| `LossRecords.SearchSkipsEqualTimes` | src/feedback_records.h:37-42 | a concrete failure: with three records at time 5 the search for 5 returns 1, neither the first of them nor the first larger |
| `LossRecords.SearchMayHitFirst` | src/feedback_records.cc:45-65 | sharing a time does not always mislead the search: with two records at time 5 it returns 0 |
| `LossRecords.FeedbackRecords.BinarySearchRecords` | src/feedback_records.cc:45-65 | the loop computes the search function of the lemmas above, for any list |
| `LossRecords.CountsConserved` | src/feedback_records.cc:78-93 | on every list, in any order, the count made plus the records of [start, end) left out equals the count over [start, end) plus the others counted |
| `LossRecords.CountsRight` | src/feedback_records.cc:78-93 | so on every list it is right if and only if what was left out counts as much as what should not have been counted |
| `LossRecords.SearchAtCut` | src/feedback_records.cc:45-65 | in any order, where all records before n are earlier than t and all from n on later the search for t returns n |
| `LossRecords.CountsRightAtCuts` | src/feedback_records.cc:78-93 | when that is so at both ends, the records counted are exactly those of [start, end) |
| `LossRecords.SortedCuts` | src/feedback_records.cc:45-65 | in time order it is so at every time that no record carries, such as one just before or after a report |
| `LossRecords.SortedMissed` | src/feedback_records.cc:78-93 | in time order the records left out are those of the start time that the search passed over, and those counted in excess have the end time |
| `LossRecords.CountsRightIfSingle` | src/feedback_records.cc:78-93 | in time order it is right when no two records share the start time or the end time |
| `LossRecords.LossMiscounted` | src/feedback_records.cc:67-107 | a concrete failure: of three records at time 5, one of them lost, two are counted over [5, 6) and the loss rate is 0 instead of 1/3 |
| `LossRecords.RepeatedReportMiscounted` | src/feedback_records.cc:78-93 | a concrete failure out of time order: records at 1, 2, 7, 1, 2 looked up over [0, 3) count the record at 7, and the loss rate is 4/5 instead of 1 |
| `LossRecords.RepeatedReportBuilds` | src/feedback_records.cc:23-43 | that list is what inserting a report, a later packet and the report again leaves |
| `LossRecords.NothingWithin` | src/feedback_records.cc:73-76 | an interval that misses all records holds none, so giving up loses nothing |
| `LossRecords.FeedbackRecords.Tally` | src/feedback_records.cc:80-93 | the incremental table equals a count from scratch for every rate |
| `LossRecords.FeedbackRecords.CalcLossRates` | src/feedback_records.cc:67-107 | for start <= end, the loss rates of a count from scratch between the two splits, each -1 or in [0, 1]; false and unchanged exactly when the interval misses all records |
| `LossRecords.FeedbackRecords.FindSuccessRates` | src/feedback_records.cc:121-155 | the rates of the table, in rising order, that were acknowledged in the interval or sent fewer than twice; false and empty exactly when the interval misses all records |
| `LossRecords.FeedbackRecords.CalcLossRate` | src/feedback_records.cc:109-119 | the same for one rate, and -1 when the interval misses all records |
| `RateTally.TallyFirst` | src/rate_adaptation.cc:99-108 | taking the oldest packet off a window takes exactly its share off the tally |
| `RateTally.SentIsSettled` | src/sample_rate.cc:154-178 | sent = acked + naked + timed out if and only if no packet of that rate has another status |
| `RateTally.InvalidCountedAsSent` | src/sample_rate.cc:154-178 | a concrete failure: a packet of invalid status is counted as sent and in no other column |
| `RateTally.InsertFeedback` | src/scout_rate.cc:126-136 | from the reports of receivers no such packet can come: each antenna feeds its own records, the back one also the baseline of a version that has one, any other stops the program; every column sum of the baseline holds |
| `RateTally.AllAckedIsSum` | src/sample_rate.cc:158-161 | the global count of acks is the sum over the rates |
| `RateTally.SampleRate.InsertIntoRateTable` | src/sample_rate.cc:134-181 | the table then agrees with a fresh tally of the longer window, and the losses in a row at that rate grow by one on a loss and start again on an ack |
| `RateTally.SampleRate.RemoveFromRateTable` | src/sample_rate.cc:183-218 | the table then agrees with a fresh tally of the window without its first packet, and the losses in a row stay |
| `RateTally.RateAdaptation.InsertRecord` | src/rate_adaptation.cc:54-97 | for any times, packets leave from the front until one younger than 10.5 s stands there, and counts, lengths and air times of every rate equal a fresh tally of what is left |
| `RateTally.InOrderIsExact` | src/rate_adaptation.cc:99-108 | with a clock that never runs back exactly the packets younger than 10.5 s remain |
| `RateTally.RateAdaptation.UpdateRecords` | src/rate_adaptation.cc:99-108 | the loop from the front stops at the first packet young enough, with the statistics in step |
| `Redundancy.SlowerIsLonger` | src/scout_rate.cc:683 | a packet takes no longer at a higher rate, so a coherence time that suffices at the lowest rate suffices at every rate |
| `Redundancy.DurationIs` | src/scout_rate.cc:683 | the duration is the time of 8 size bits at the rate, rounded down to a microsecond, and the extra time |
| `Redundancy.CeilDivides` | src/scout_rate.cc:747-750 | ceil(k / q) is the least number of packets of which k get through on average |
| `Redundancy.LeastSuffices` | src/scout_rate.cc:747-757 | a number of packets lets k through on average, and with a moderate loss rate even without the one in reserve, exactly from the least such number on |
| `Redundancy.TruncatedFits` | src/scout_rate.cc:699-703 | cutting a batch to the maximal k never makes it longer |
| `Redundancy.ApplyFECForData` | src/scout_rate.cc:672-716 | the assertions hold exactly when one packet fits the coherence time (without FEC always); then 1 <= k <= 10, k <= n <= 254 and the batch fits the coherence time; n is all that fits or just enough for 10 packets to get through, and k is 10 or cannot grow without more than fits or without the packet in reserve; without FEC too short a coherence time gives k = n = 0 |
| `Redundancy.ApplyFECForTimeOut` | src/scout_rate.cc:718-759 | the assertions hold exactly for 0 < k < 10; then k <= n <= 254, and n is the least number that lets k through at the loss rate with its margin (capped by what 253 packets need) and, for a known loss of at most 0.9, with one packet in reserve |
| `Redundancy.OneToSpare` | src/scout_rate.cc:751-754 | then one packet can be spared |
| `Redundancy.ApplyFECForRetransmission` | src/scout_rate.cc:761-802 | the assertions hold exactly for 0 < k <= 10 packets that fit the coherence time; then k <= n <= 254, all n fit it, and n is the least number that lets k through at the loss rate with its margin and with one packet in reserve, or all that fits when that is less |
| `ScoutRate.UpdatedIsLoss` | src/scout_rate.cc:17-33 | an updated loss rate is a loss rate between the old and the new one, and a weighted update never forgets |
| `ScoutRate.UpdatedValues` | src/scout_rate.cc:17-33 | the weighted mean of two known losses, the known one of the two, or without a weight the new one |
| `ScoutRate.FrontBackIsLoss` | src/scout_rate.h:274-283 | combining the antennas is symmetric, never above the worse one, and at most the better one when both lose packets |
| `ScoutRate.FrontBackValues` | src/scout_rate.h:274-283 | the product of two losses, half of one when the other antenna loses nothing, or the only one known |
| `ScoutRate.CombinedValues` | src/scout_rate.cc:274-318 | which antennas count for which version |
| `ScoutRate.ScoutRateAdaptation.CalcLossRatesAfterCombine` | src/scout_rate.cc:274-318 | every rate gets the combination that the version prescribes |
| `PlaceLookup.LookUp` | src/scout_rate.cc:247-272 | the loss rates the front antenna saw around the time it was here, none known when standing or without records, and the promising rates of the back antenna, all rates without records |
| `PlaceLookup.DelayIs` | src/scout_rate.cc:254-255 | the distance of the antennas over the speed, rounded down to a nanosecond |
| `PlaceLookup.CombineByPlace` | src/scout_rate.cc:274-318 | every rate gets the combination that the version prescribes, over the records of both antennas for the versions that look up by place |
| `ScoutRate.ScoutRateAdaptation.SetHighLoss` | src/scout_rate.cc:211-218 | every rate counts as lost on both antennas and for the scout |
| `ScoutRate.ScoutRateAdaptation.ApplyRateScout` | src/scout_rate.cc:526-558 | the lowest rate of highest throughput; a higher rate than before only if it was tried, is feasible and loses less than everything |
| `ScoutRate.ThroughputIs` | src/scout_rate.cc:530-546 | throughput: the rate times what is not lost, the whole rate when untried and not above the current one, nothing when ruled out, too lossy, or untried and above |
| `ScoutRate.FallsBack` | src/scout_rate.cc:526-558 | when everything is lost at every rate the lowest rate is chosen |
| `ScoutRate.ScoutRateAdaptation.SampleRates` | src/scout_rate.cc:560-627 | exactly the requested number of rates in the sampling versions, each feasible and higher by at most the bound, or the next lower one; the first is a higher one whenever there is one within the bound |
| `ScoutRate.SortKeeps` | src/scout_rate.cc:514-516 | sorting the rates keeps each as often as it was |
| `ScoutRate.EmptyBatchWithoutFec` | src/scout_rate.cc:684-691 | a concrete case: without FEC, 50 microseconds of coherence time give a batch of 0 packets |
| `ScoutRate.ScoutRateAdaptation.FindRatesForBatch` | src/scout_rate.cc:482-524 | the list has one rate for every coded packet: n times the current one plus the samples, in ascending order |
| `ScoutRate.ScoutRateAdaptation.ApplyFEC` | src/scout_rate.cc:643-661 | at the selected rate, in every mode: goes on exactly when that rule accepts, with the k and n of that rule |
| `ScoutRate.ScoutRateAdaptation.SelectRate` | src/scout_rate.cc:148-157 | after combining the losses of all rates as the version prescribes, the baseline choice, the fixed rate, or the lowest rate of highest throughput |
| `ScoutRate.ScoutRateAdaptation.MakeDecision` | src/scout_rate.cc:141-181 | for any coherence time, goes on exactly when the rule of the mode accepts at the selected rate; then 1 <= k <= 10, k <= n <= 255 with k and n of that rule, or k = 0 without FEC when not one packet fits; duplication if and only if it is enabled and the loss is high, the packet is resent or the rate is the lowest one, and then n is k and the samples; the list of rates is the selected rate with the samples in ascending order, or followed by the baseline choices; after high loss the lowest rate |

## Left out

- Sockets, the tun device, option parsing, thread start-up, GPS, logging and printing: input and output only.
- Memory management (`malloc`, `free`, `fec_free` and its magic number): matrices are two-dimensional arrays instead of flat ones.
- Fec.FecNew: needs k >= 1, because with k = 0 the source writes the first element of an empty matrix.
- GF_BITS other than 8 in the codec: the field theory and the tables are proved for every width, the matrices and packets for bytes. That a listed polynomial of another width is primitive is a hypothesis.
- Integer widths: counters, sequence numbers and times are unbounded, because 500 does not divide 2^32 and the ring arithmetic is meant without wrap-around.
- TxBuffer.TxDataBuf.EnqueuePkt: one atomic step, which is right for one producer at a time (TailRace.OneProducer); the runs do not include two packets with one number.
- SendThread.TxSendAth.Iterate: the copy out of the ring slot belongs to the same atomic iteration; the look-up by place and the choices of a baseline algorithm are parameters; handing a sent frame to the raw-packet buffer and writing to the sockets are left out.
- RawBuf.TxRawBuf.PopPktStatus: repeated use of the same report by `SendCodedBatch` (src/wspace_ap_scout.cc:346-348) is outside the class, so only the class's own reports are claimed to be unique.
- Mailbox.MailboxIsFifo: safety, and in the two wake-up lemmas one step of progress; no scheduler fairness is modelled.
- Redundancy.ApplyFECForData: exact reals instead of doubles, so rounding and the range of `int` after `ceil` are not modelled; the same holds for the other redundancy and loss arithmetic.
- ScoutRate.ScoutRateAdaptation.MakeDecision: the outcome of the look-up by place, which PlaceLookup.LookUp computes, and the choices of the baseline algorithms are parameters, and random sampling is a nondeterministic choice.
- ScoutRate.ScoutRateAdaptation.constructor: whether duplication is enabled is a parameter that never changes afterwards, because the program sets it from its options before the threads start; version, FEC and thresholds stay fields.
- SendThread.TxSendAth.SendCodedBatch: the size of the buffer that a frame is built in is not modelled, nor the entry made for each frame in the raw-packet buffer.
- ScoutRate.ScoutRateAdaptation.CalcLossRatesAfterCombine: takes the outcome of the look-up as a parameter; PlaceLookup.CombineByPlace is the same with the look-up.
- `ApplyRate` and `UpdateRateTable` of `SampleRate`, `RobustRate`, `PacketDropManager`, `RxRcvBuf`: they repeat arguments made here or are off the sending path.
