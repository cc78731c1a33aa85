# The jdvrif carriers, modelled and proved

jdvrif hides an encrypted file in a JPEG. This project models the carrier codecs that
put the bytes into the image and take them out again, the machinery they share, the
encrypted stream inside, the KEY's text form, and the two protocols of the Bluesky
poster, and proves that they do what they are for.

- **X-Twitter.** A syndrome-trellis code over the parities of coefficients chosen in a
  keyed order. `Stc*` proves the Viterbi search optimal among all vectors with the right
  syndrome, in the costs as the caller gives them, through pruning, the shrinking mask
  and segmentation, and `StcMatrix` gives the parity-check matrix entry by entry;
  `KeyedShuffle`, `KeyedIndexPrefix` and `CandidateOffsets` prove the sparse permutation
  and the closed-form candidate index equal to the plain shuffle and enumeration, and
  `ShuffleChoices` that every arrangement is reached by its own draws;
  `ParityEdits` and `TwitterCarrier` put them together: whatever is accepted is read
  back, and a payload is read exactly where header, length and checksum are in place.
  `ResidualPlanes`, `EmbeddingCosts` and `StripCosts` prove the strip-wise J-UNIWARD
  costs equal to those of the whole padded image, and say what those are: costs and
  residuals are given for single impacts and taps, and add up from there.
- **Reddit.** Every bit is written several times on a quantization lattice. `Reddit*`
  proves the lattice arithmetic, the counting sort that lays the copies out, the
  streaming row walks and the weighted vote, and from them the tolerance: any 6 of 17
  copies of a header bit, any 1 of 3 of a payload bit, may arrive as anything while the
  others are off by one.
- **Default and Bluesky metadata.** Writers and readers were written apart, with
  different constants. `Icc*` and `Bluesky*` prove that they undo one another for every
  size and every way of streaming, that every length field leads from segment to segment
  to the end, and that what was written is refused when it is cut short anywhere; `Base64`,
  `SignatureScan`, `Bytes` and `OutputLog` hold the encoders, searches and buffers in
  between.
- **Stream, KEY and poster.** `StreamFraming` and `StreamRecovery` prove the framed
  encryption exact: a reader accepts the frames of sound streams and nothing else, so
  that any truncation or addition is noticed. `KeyCodec` proves the Base58 KEY text
  canonical. `DeadlineHandoff` and `PublishOnce` are state machines over all
  interleavings of their threads, requests and replies, with laws in both directions:
  when the client returns, warns or retries, and when a value is delivered.

Code that updates in place is modelled by classes and methods over fields and arrays,
each proved against a specification function; what that function guarantees is proved
in lemmas beside it.

## Findings

- The deadline worker's documentation promises that the disposal runs exactly once
  whenever the timeout is raised (`src/bsky/create_bsky_post.py:504-507`). It does not
  when the action itself raises `DeadlineExceeded`, nor when the action ends in an
  exception outside `Exception`. `DeadlineHandoff.TimeoutDisposesOnce` says exactly when
  it does; `ActionsOwnDeadline` and `UncaughtExceptionLeaks` are runs where it does not.
- The lattice encoder moves a coefficient by at most 4 if and only if the lattice point
  within 3 of it, if there is one, is a 16-bit value (`RedditQim.FourIsExact`): for every
  bit and dither exactly between -32765 and 32764 (`FourByCoefficient`). Where that
  fails, the fallback takes the neighbour 5 to 7 away (`FallbackTakesTheOther`);
  `FallbackMovesSeven` is an example. The last of the encoder's tie rules never changes
  the result (`TiesGoOutwards`).
- Three damaged copies in eight are the limit of the vote, for every bit value,
  whitening and number of copies (`RedditVoting.ToleranceIsSharp`): 7 of a header bit's
  17 copies can turn it and 6 cannot (`SevenOfSeventeenCanFlip`), 2 of a payload bit's 3
  can and 1 cannot (`TwoOfThreeCanFlip`).
- The Bluesky builder accepts an empty ciphertext, which the reader refuses
  (`BlueskyRoundTrip.BlueskyRoundTrip`). No caller makes one.
- A default-layout segment's number is written in 16 bits over the closing zero byte of
  the identifier `ICC_PROFILE` and the number's own byte. Only the first 255 segments
  therefore begin with the identifier as a profile reader expects it
  (`IccSegments.ZeroByteOnlyEarly`), and every segment states a count of 1; this
  program's own reader does not look at either.
- The all-zero KEY has a display form that the parser refuses (`KeyCodec.ParseIsExact`).

## Assumptions

- The keyed function is arbitrary. The draw loop ends only if an accepted word always
  lies ahead; that is the predicate `Fair`, required wherever something is drawn.
  `KeyedShuffle.HighWordsAreFair` gives a plain reason for it.
- The CRC and the KEY's check value are arbitrary functions. The stream cipher is
  ideal: it opens what was sealed at the same place of the stream and nothing else
  (`StreamFraming.Ideal`, which `IdealIsMet` shows to be possible).
- The block grid covers the image (`CandidateOffsets.Covers`), as a decoded JPEG gives it.
- The metadata templates are binary files and not part of this model. What the proofs
  use of them is stated in `IccRoundTrip.TemplateOk`, `BlueskySegments.Templates.Valid`
  and `BlueskyRoundTrip.Searchable`; `TemplateOkIsMet` and `SearchableIsMet` show that
  such templates exist.
- The Bluesky server refuses a record key it has; a definite 3xx or 4xx reply is only
  sent for a request that created nothing; a request that was never sent creates nothing.

## Model

| member | source | states |
|---|---|---|
| StcSchedule.RoundedBoundary | src/twitter_stc.cpp:44-70 | the loop's boundary arithmetic is the k-th multiple of cover/messages rounded to nearest |
| StcSchedule.BoundaryIsRounded | src/twitter_stc.cpp:44-70 | the boundary defined by repeated subtraction equals (k * cover + messages / 2) / messages |
| StcSchedule.NumeratorFits | src/twitter_stc.cpp:44-70 | the 64-bit numerator cannot wrap for lengths counted in 32 bits |
| StcSchedule.BoundaryStep | src/twitter_stc.cpp:44-70 | consecutive boundaries differ by at least 2 when 2m <= n and at most 3 when n <= 3m |
| StcSchedule.WidthsCover | src/twitter_stc.cpp:44-70 | for every schedulable pair of lengths all widths are 2 or 3 and they add up to the cover |
| StcSchedule.MakeWidths | src/twitter_stc.cpp:73-80 | succeeds exactly when m >= 1 and 2m <= n <= 3m, and returns the schedule |
| StcSchedule.CutUpToIsChained | src/twitter_stc.cpp:97-135 | what the segmenter keeps after any number of widths: closed segments end to end, each legal, and an open one still legal |
| StcSchedule.SegmentsTile | src/twitter_stc.cpp:97-135 | the segments partition cover and message, none exceeds 65,536 symbols, and each can be scheduled again on its own |
| StcSchedule.SegmentsAreFull | src/twitter_stc.cpp:97-135 | every segment but the last is as long as it can be: the next width would take it past 65,536 symbols |
| StcSchedule.MakeSegments | src/twitter_stc.cpp:97-135 | succeeds exactly on the schedulable lengths; its own consumption check never fires |
| StcTrellis.ColumnFor | src/twitter_stc.cpp:24-25 | every column constant is odd and fits seven bits |
| StcTrellis.CodeWellFormed | src/twitter_stc.cpp:82-91 | the scheduled code advances one row at a time and every column is odd |
| StcTrellis.MaskNarrows | src/twitter_stc.cpp:163-166 | the mask loses one bit over each of the last seven rows and none before: the shrinking masks of the forward and reverse pass |
| StcTrellis.BitOfMaskedColumn | src/twitter_stc.cpp:163-210 | a masked column is the column without the rows past the end of the message |
| StcTrellis.TotalCostIsFlipSum | src/twitter_stc.cpp:178-193 | the cost of a vector is the sum of the caller's own amounts over the flipped positions, negative ones counted as 0 and non-finite ones as 1e13 |
| StcTrellis.CheapStaysDry | src/twitter_stc.cpp:178-193 | a vector whose amounts sum to less than 1e13 flips no symbol of non-finite cost |
| StcTrellis.Trellis.WalkTracksSyndrome | src/twitter_stc.cpp:137-211 | after any prefix of choices, the closed rows of H x equal the message and the state holds the open rows; a prefix with right rows survives |
| StcTrellis.Trellis.WalkEndsAtZero | src/twitter_stc.cpp:202-215 | a full walk survives if and only if H x is the message, and then it ends in state 0 |
| StcTrellis.Trellis.SomeWalkSurvives | src/twitter_stc.cpp:82-91 | because every masked column stays odd, each row can be closed whatever came before |
| StcTrellis.Trellis.FinalPriceIsFinite | src/twitter_stc.cpp:213-215 | the final price is finite on every schedulable input: the embedder's failure check cannot fire |
| StcTrellis.Trellis.StepIsLowerBound | src/twitter_stc.cpp:173-211 | one relaxation never prices a successor above predecessor plus step cost |
| StcTrellis.Trellis.StepIsAttained | src/twitter_stc.cpp:173-211 | a finite price comes from the recorded decision, whose predecessor is finite again: only finite states are ever visited |
| StcTrellis.Trellis.PriceIsLowerBound | src/twitter_stc.cpp:169-211 | no surviving vector is cheaper than the price of the state it ends in |
| StcTrellis.Trellis.TraceBackAttainsPrice | src/twitter_stc.cpp:219-240 | the bits read off the decisions walk to the state and cost exactly its price |
| StcTrellis.Trellis.TraceBackIsOptimal | src/twitter_stc.cpp:137-251 | the traced-back vector has syndrome equal to the message, and no vector with that syndrome flips symbols of a smaller sum of the caller's amounts |
| StcRaw.RelaxColumn | src/twitter_stc.cpp:176-199 | one column of the in-place search fills the next price row and the decision bits as the recurrence says, for all 128 states |
| StcRaw.PruneRow | src/twitter_stc.cpp:202-207 | pruning keeps exactly the states whose closing bit matches, halved |
| StcRaw.SearchTrellis | src/twitter_stc.cpp:153-211 | the two swapped price rows end with the recurrence's final price, and every decision is recorded |
| StcRaw.Backtrack | src/twitter_stc.cpp:219-243 | the reverse pass with its own mask returns the recurrence's trace-back and leaves no state over |
| StcRaw.EmbedScheduled | src/twitter_stc.cpp:137-251 | never fails; its result has the wanted syndrome, the least sum of the caller's amounts over the flipped symbols, and `changes` is the Hamming distance to the cover |
| StcRaw.EmbedRaw | src/twitter_stc.cpp:137-251 | succeeds exactly when the buffers agree and the lengths can be scheduled; then cheapest in the caller's amounts as above |
| StcRaw.XorColumn | src/twitter_stc.cpp:270-277 | flips in place exactly the message bits the column's parity checks touch |
| StcRaw.ExtractedAt | src/twitter_stc.cpp:253-281 | bit i of the extraction is row i of H x |
| StcRaw.ExtractRaw | src/twitter_stc.cpp:253-281 | the independently written extractor computes H x, failing exactly on unschedulable lengths |
| StcMatrix.SymbolExtracts | src/twitter_stc.cpp:20-25 | the parity-check matrix entry by entry: a single symbol extracts to the rows of its column, from its own message bit on and as far as the message goes |
| StcMatrix.ExtractionCombines | src/twitter_stc.cpp:253-281 | the extraction of two vectors combined is their extractions combined, so those entries determine it |
| Stc.RateIsSchedulable | src/twitter_stc.cpp:285-293 | the fixed rate of two bits in five is schedulable for every message of one bit upwards |
| Stc.RequiredCoverSymbols | src/twitter_stc.cpp:285-293 | the least number of symbols that holds m bits at two in five, refused exactly when the 64-bit formula would overflow |
| Stc.SyndromeIsExtracted | src/twitter_stc.cpp:253-281 | having a message as syndrome and extracting to it are the same |
| Stc.EmbeddedIsOptimal | src/twitter_stc.cpp:295-328 | vectors embedded segment by segment extract to the message, and any vector that does costs at least as much, over any number of segments |
| Stc.EmbedSegment | src/twitter_stc.cpp:318-325 | one segment is embedded in place, leaving the rest of the vector as it was |
| Stc.EmbedSegments | src/twitter_stc.cpp:312-327 | every segment carries its slice optimally and the changes add up to the Hamming distance |
| Stc.StcEmbed | src/twitter_stc.cpp:295-328 | for every cover, cost vector and message, also below 7 bits: extracts to the message; the sum of the caller's amounts over the flipped symbols is the least of all vectors that extract to it, and no symbol of non-finite cost is flipped when some such vector costs less than 1e13; `changes` is the Hamming distance; fails exactly on wrong lengths |
| Stc.ExtractionLength | src/twitter_stc.cpp:330-351 | a vector of the right length always extracts, to as many bits as asked for |
| Stc.StcExtract | src/twitter_stc.cpp:330-351 | returns the concatenated segment syndromes; fails exactly on wrong lengths |
| KeyedShuffle.WindowIsUniform | src/carrier_common.h:155-160 | any whole number of bound-sized intervals holds every residue equally often |
| KeyedShuffle.DrawIsUnbiased | src/carrier_common.h:160-181 | for every bound from 1 to 2^64-1, each residue has the same number of accepted words |
| KeyedShuffle.HalfIsAccepted | src/carrier_common.h:169-175 | for every bound at least half of all words are accepted |
| KeyedShuffle.HighWordsAreFair | src/carrier_common.h:169-175 | so the draw loop ends in every stream in which words of 2^63 or more never cease |
| KeyedShuffle.KeyedIndexStream.Below | src/carrier_common.h:169-175 | the draw is the residue of the first accepted word from the counter on, and the counter moves past it: rejected words count |
| KeyedShuffle.FixedPrefixStays | src/carrier_common.h:195-216 | positions once fixed never change, however far the shuffle goes on |
| KeyedShuffle.ShuffleRearranges | src/carrier_common.h:195-216 | the shuffle only rearranges, and keeps distinct items distinct |
| ShuffleChoices.EveryArrangementIsReached | src/carrier_common.h:195-216 | every choice and order of distinct items is what some stream of words selects |
| ShuffleChoices.SameArrangementSameDraws | src/carrier_common.h:195-216 | two streams select the same items in the same order exactly when they draw the same numbers: no arrangement is counted twice |
| KeyedShuffle.KeyedPrefixShuffle.ExtendTo | src/carrier_common.h:200-210 | the in-place array equals the specified Fisher-Yates after any sequence of extensions |
| KeyedIndexPrefixes.MaskWraps | src/carrier_common.h:288-289 | advancing a slot under the power-of-two mask goes round the table |
| KeyedIndexPrefixes.SomeSlotIsEmpty | src/carrier_common.h:296-298 | at load one half a probe always meets an empty slot, so probing ends |
| KeyedIndexPrefixes.InsertKeepsTable | src/carrier_common.h:298-308 | an entry put at the end of its probe path keeps every other entry reachable |
| KeyedIndexPrefixes.UpdateKeepsTable | src/carrier_common.h:299-302 | overwriting a value moves nothing |
| KeyedIndexPrefixes.RoomToDouble | src/carrier_common.h:313-317 | the table can always double: its shift never runs out |
| KeyedIndexPrefixes.PrefixExtends | src/carrier_common.h:218-263 | a longer prefix starts with the shorter one, however the extension was split |
| KeyedIndexPrefixes.PrefixIsDistinct | src/carrier_common.h:218-263 | no index occurs twice and none is out of range |
| KeyedIndexPrefixes.KeyedIndexPrefix.FindSlot | src/carrier_common.h:285-309 | the probe loop ends, at the index's slot or the empty one it would take |
| KeyedIndexPrefixes.KeyedIndexPrefix.ValueAt | src/carrier_common.h:284-293 | the displaced value, or the position itself when it was never displaced |
| KeyedIndexPrefixes.KeyedIndexPrefix.Store | src/carrier_common.h:295-309 | changes one entry of the displaced values and nothing else, growing when due |
| KeyedIndexPrefixes.KeyedIndexPrefix.Grow | src/carrier_common.h:311-322 | doubling and re-inserting keeps all entries and ends below the load limit |
| KeyedIndexPrefixes.KeyedIndexPrefix.Materialise | src/carrier_common.h:324-338 | the switch to the dense array keeps the arrangement, stale entries notwithstanding |
| KeyedIndexPrefixes.KeyedIndexPrefix.FixOne | src/carrier_common.h:250-261 | one draw keeps the sparse or dense form equal to the array shuffle one step further |
| KeyedIndexPrefixes.KeyedIndexPrefix.ExtendTo | src/carrier_common.h:240-263 | keeps the object equal to the array shuffle through probing, growth, stale entries and the mid-run switch |
| KeyedIndexPrefixes.KeyedIndexPrefix.Prefix | src/carrier_common.h:265-268 | exactly the first `visible` entries of the array shuffle of 0, ..., size-1 |
| CandidateOffsets.RowCountIs | src/twitter_juniward.cpp:444-447 | the closed-form count of a block row equals the enumeration's, partial widths included |
| CandidateOffsets.FindRowIsRight | src/twitter_juniward.cpp:449-460 | the block row found by division contains the index |
| CandidateOffsets.FindBlockIsRight | src/twitter_juniward.cpp:462-472 | the block column found by division contains the index, blocks without candidates skipped |
| CandidateOffsets.SizeIsCount | src/twitter_juniward.cpp:433-442 | the computed size is the number of offsets the enumeration visits |
| CandidateOffsets.AtIsCandidate | src/twitter_juniward.cpp:449-479 | operator[] is the enumeration: entry k of one is entry k of the other |
| CandidateOffsets.CandidatesIncrease | src/twitter_juniward.cpp:376-410 | the enumeration is strictly increasing and within the coefficient array |
| CandidateOffsets.CandidatesAreInside | src/twitter_juniward.cpp:376-410 | an offset is listed if and only if it is a non-DC coefficient whose pixel is inside the image |
| CandidateOffsets.GeometryIs | src/twitter_juniward.cpp:414-425 | which geometry fault is reported, in numbers: no blocks, a wrong coefficient count, 2^32 pixels or more |
| CandidateOffsets.TallyCounts | src/twitter_juniward.cpp:414-425 | the tallies are the number of candidates and the number of those whose coefficient is not 0 |
| CandidateOffsets.CountCarrierCandidates | src/twitter_juniward.cpp:414-425 | fails exactly on the geometry faults, in their order; otherwise the numbers of candidates and of nonzero candidates |
| CandidateOrder.CandidatesFit | src/twitter_steg.cpp:178-205 | the candidate indices fit the permutation's 32 bits |
| CandidateOrder.OrderExtends | src/twitter_steg.cpp:178-205 | offsets drawn so far do not depend on how far the order is drawn later |
| CandidateOrder.OrderSelects | src/twitter_steg.cpp:178-205 | no coefficient is selected twice and only candidates are selected |
| CandidateOrder.EverySelectionIsReached | src/twitter_steg.cpp:178-205 | every choice and order of candidate offsets is selected under some stream of words |
| CandidateOrder.KeyedCandidateOrder.Offsets | src/twitter_steg.cpp:188-202 | returns the keyed order's entries first, ..., first+count-1 and fails exactly beyond the candidates |
| CarrierFormat.BytesOfBitsOf | src/twitter_steg.cpp:133-157 | packing the unpacked bits gives the bytes back |
| CarrierFormat.BitsOfBytesOf | src/twitter_steg.cpp:133-157 | unpacking the packed bits gives the bits back |
| CarrierFormat.BytesToBits | src/twitter_steg.cpp:133-143 | low bit first, eight per byte |
| CarrierFormat.BitsToBytes | src/twitter_steg.cpp:145-157 | the inverse; fails exactly on a bit count that is no multiple of eight |
| CarrierFormat.WhitenedTwice | src/twitter_steg.cpp:163-176 | whitening twice restores the bits |
| CarrierFormat.WhitenBits | src/twitter_steg.cpp:163-176 | whitens in place with bit k mod 64 of word k div 64, the last block short or not |
| CarrierFormat.WhitenedFlips | src/twitter_steg.cpp:163-176 | bit k is flipped exactly when bit k mod 64 of the keyed word k div 64 is set |
| CarrierFormat.HeaderRoundTrip | src/carrier_common.h:492-532 | bytes parse to a header if and only if they are the header made from it |
| CarrierFormat.HeaderFault | src/carrier_common.h:492-532 | when bytes are refused and as what: the size, the checksum behind the magic, other parameters |
| CarrierFormat.NoHeader | src/carrier_common.h:492-532 | bytes are no header exactly when they do not begin with the magic, and refused exactly when they do and are no header ever made |
| CarrierFormat.EnvelopeRoundTrip | src/carrier_common.h:563-621 | a payload parses to an envelope if and only if it is the envelope made from it |
| CarrierFormat.EnvelopeFault | src/carrier_common.h:580-621 | a payload is passed over exactly when it does not begin with the magic, and refused exactly when it does and is no envelope ever made; unknown flags are told apart |
| ParityEdits.Edited | src/twitter_juniward.cpp:665-673 | the edited coefficient has the wanted parity, moves by at most one, and +-1023 only inwards |
| ParityEdits.CoefficientParityBits | src/twitter_juniward.cpp:630-641 | reads the parities, failing exactly on an offset past the end |
| ParityEdits.EditOne | src/twitter_juniward.cpp:656-678 | one edit in place; the parity check after it never fails |
| ParityEdits.ApplyParityBits | src/twitter_juniward.cpp:643-680 | edits in place and counts the moves; fails exactly on unequal lengths or an offset past the end |
| ParityEdits.AppliedEdits | src/twitter_juniward.cpp:643-680 | on distinct offsets every edit sees the original coefficient and all others are untouched |
| ParityEdits.MovedCounts | src/twitter_juniward.cpp:643-680 | the count equals the Hamming distance between wanted and original parities |
| ParityEdits.EditedCarries | src/twitter_juniward.cpp:643-680 | afterwards the selection carries the wanted bits and nothing moved by more than one |
| ParityEdits.EditedAsKeyed | src/twitter_juniward.cpp:665-673 | which way each changed coefficient moved: as the keyed bit says, except inwards at +-1023 |
| TwitterCarrier.CapacityIsExact | src/twitter_steg.cpp:94-119 | a payload is within the capacity exactly when its symbols fit beside the header's and all bits are at most two in five of the nonzero coefficients |
| TwitterCarrier.CapacityOfImage | src/twitter_steg.cpp:94-119 | the same for an image, its candidates and nonzero candidates counted directly |
| TwitterCarrier.AcceptsIs | src/twitter_steg.cpp:273-323 | which payloads are accepted, in numbers: 480 + 20n candidates for n bytes, and 5(192 + 8n) at most twice the nonzero ones |
| TwitterCarrier.SelectionParts | src/twitter_steg.cpp:313-323 | header and payload positions are the two parts of one draw of distinct in-range offsets |
| TwitterCarrier.TwoEdits | src/twitter_steg.cpp:348-359 | edits of disjoint selections do not disturb one another, and move each coefficient the way its key says |
| TwitterCarrier.WriteCarrier | src/twitter_steg.cpp:348-364 | after both edits each selection carries its vector and the change-count check passes |
| TwitterCarrier.BytesReadBack | src/twitter_steg.cpp:390-432 | bytes whitened and embedded on a selection read back |
| TwitterCarrier.CarriedIs | src/twitter_steg.cpp:379-435 | a payload is read if and only if the header selection reads the header of its length and checksum, its symbols fit behind the header's, and the payload selection reads it |
| TwitterCarrier.NothingIsCarried | src/twitter_steg.cpp:379-400 | nothing is read if and only if there is room for a header and its bytes do not begin with the magic |
| TwitterCarrier.DeclaredFaults | src/twitter_steg.cpp:401-435 | behind an intact header: too large exactly when the declared symbols do not fit, damaged exactly when the payload read has another checksum |
| TwitterCarrier.ExtractWithKey | src/twitter_steg.cpp:379-435 | computes the carrier's content, header first and then as far as it declares: gives a payload if and only if header and payload selections hold it, and none if and only if the header bytes lack the magic |
| TwitterCarrier.EncodeCarrier | src/twitter_steg.cpp:334-346 | header and payload vectors are each the cheapest that extract to their whitened bits |
| TwitterCarrier.EmbedTwitterPayload | src/twitter_steg.cpp:273-372 | succeeds exactly on the payloads whose numbers fit; then the same keys read the payload back, at least cost per selection, every coefficient moved by at most one and the way its key says; on failure nothing changed |
| TwitterCarrier.OutsideIsUntouched | src/twitter_steg.cpp:273-372 | DC coefficients and positions outside the image are never touched |
| ResidualPlanes.Mirrored | src/twitter_juniward.cpp:83-95 | mirror padding as a closed form with period twice the length, always inside the image |
| ResidualPlanes.MirroredAtEdges | src/twitter_juniward.cpp:83-95 | either reflection step keeps the mirror image, and inside indices are their own |
| ResidualPlanes.ReflectIndex | src/twitter_juniward.cpp:83-95 | the reflection loop ends inside the image at the mirror image; fails exactly on an empty dimension |
| ResidualPlanes.FillPadded | src/twitter_juniward.cpp:217-240 | rows of the mirrored image |
| ResidualPlanes.VerticalCorrelation | src/twitter_juniward.cpp:122-158 | a stretch of rows of the vertical pass equals those rows of the whole image's, taps beyond the padded image contributing nothing |
| ResidualPlanes.HorizontalReciprocal | src/twitter_juniward.cpp:162-195 | the reciprocal residuals of those rows |
| ResidualPlanes.SingleTapResidual | src/twitter_juniward.cpp:122-195 | with one tap down and one along, the residual is the reciprocal of 1/64 plus the size of that weighted pixel of the mirrored image, 8 back in each direction |
| ResidualPlanes.DownAdds | src/twitter_juniward.cpp:122-158 | the vertical pass is additive in its taps |
| ResidualPlanes.AlongAdds | src/twitter_juniward.cpp:162-195 | so is the horizontal one, in both filters: single taps determine every residual |
| StripCosts.ResidualStrip.Fill | src/twitter_juniward.cpp:198-257 | the three bands of the strip equal the whole image's residuals on those rows |
| StripCosts.ResidualStrip.Window | src/twitter_juniward.cpp:592-617 | the 23 by 23 window read out of the strip, every index in range, is the window of the whole image |
| StripCosts.StripHoldsWindows | src/twitter_juniward.cpp:97-105 | the strip holds the window of every block row in it and never exceeds 271 rows |
| StripCosts.StripBounds | src/twitter_juniward.cpp:552-566 | each strip takes at least one key, spans at most 32 block rows, and ends inside the padded image: the loop ends and its window check never fires |
| StripCosts.BelowRow | src/twitter_juniward.cpp:553-559 | an offset is below a block row's first offset exactly when its own block row is above |
| EmbeddingCosts.BoundSeparates | src/twitter_juniward.cpp:530-536 | the packed key bound separates offsets, also past 32 bits |
| EmbeddingCosts.SortedVisits | src/twitter_juniward.cpp:505-520 | the sorted keys visit every carrier slot with its own offset |
| EmbeddingCosts.LowerBound | src/twitter_juniward.cpp:556-559 | the first key not below the bound |
| StripCosts.CostAt | src/twitter_juniward.cpp:580-622 | one cost from the strip equals the cost from the whole image |
| StripCosts.CostStrips | src/twitter_juniward.cpp:547-626 | strip after strip, every key below the coefficient count gets its cost |
| StripCosts.ComputeCosts | src/twitter_juniward.cpp:481-628 | the cost of every slot equals the whole-image cost of its offset, for any selection in any order; with an impact table of a single 1, that is the mode's quantizer times the band's reciprocal residual at the window position, at most 1e13, and 0 for other modes; fails exactly on a wrong luminance size, too many slots, or a block outside the image |
| EmbeddingCosts.SingleImpactCosts | src/twitter_juniward.cpp:579-622 | the cost under an impact table of a single 1, for every mode, band and window position |
| EmbeddingCosts.CostsAdd | src/twitter_juniward.cpp:579-622 | costs below 1e13 add and scale as impact tables do, so single impacts determine every cost |
| EmbeddingCosts.ImpactIndexIsOwn | src/twitter_juniward.cpp:579-622 | every mode, band and window position has its own place in the impact table |
| RedditQim.RemIsSmall | src/reddit_steg.cpp:353-360 | C's truncated remainder: smaller than the divisor, signed like the numerator |
| RedditQim.FloorDivideIsFloor | src/reddit_steg.cpp:353-360 | the correction makes it the floor, for either sign of the divisor |
| RedditQim.QimEncode | src/reddit_steg.cpp:366-403 | never fails; a nearest in-range lattice point of the bit; moves by at most 4 from -32765 to 32764, and by at most 7 anywhere |
| RedditQim.TiesGoOutwards | src/reddit_steg.cpp:376-387 | a tie goes away from zero, and downwards at zero, unless that leaves the range: the last tie rule never changes the result |
| RedditQim.FourIsExact | src/reddit_steg.cpp:399-403 | the move is at most 4 if and only if the lattice point within 3, if any, is a coefficient: the fallback's guard |
| RedditQim.FallbackTakesTheOther | src/reddit_steg.cpp:399-403 | when the nearest point is no coefficient, the one on its other side is taken, 5 to 7 away |
| RedditQim.FourByCoefficient | src/reddit_steg.cpp:366-403 | every bit and dither moves a coefficient by at most 4 if and only if it is between -32765 and 32764 |
| RedditQim.FallbackMovesSeven | src/reddit_steg.cpp:389-402 | an input for which the bound of 4 is false: 32767 moves by 7 |
| RedditQim.PositiveModuloIsEuclidean | src/reddit_steg.cpp:410-413 | C's remainder made non-negative |
| RedditQim.DecodeByResidue | src/reddit_steg.cpp:415-432 | decoding as a table of the dithered residue |
| RedditQim.DecodeNearLattice | src/reddit_steg.cpp:420-432 | a lattice point decodes at confidence 5, one step off at 3, both to the right bit |
| RedditQim.ToleranceIsExact | src/reddit_steg.cpp:420-432 | within half the lattice distance a bit survives if and only if the error is at most 1 for a one, 2 for a zero |
| RedditQim.QimRoundTrip | src/reddit_steg.cpp:366-432 | decoding an encoded bit gives the bit, for every coefficient and dither |
| RedditLayout.CandidatePlace | src/reddit_steg.cpp:225-241 | a candidate's row, column and frequency, all in the grid |
| RedditLayout.DistinctPlaces | src/reddit_steg.cpp:225-241 | different candidates are different coefficients |
| RedditLayout.KeyedLattice | src/reddit_steg.cpp:315-327 | a carrier's whitening bit and dither are the low four bits of its candidate's keyed word |
| RedditLayout.SlotsHoldCopies | src/reddit_steg.cpp:309-327 | the slots hold every bit as often as its copies say |
| RedditLayout.SlotsAreSeparate | src/reddit_steg.cpp:286-327 | distinct draws give pairwise different coefficients |
| RedditCarriers.LayoutFault | src/reddit_steg.cpp:252-286 | the layout checks refuse exactly what does not fit |
| RedditCarriers.RowCursors | src/reddit_steg.cpp:296-305 | tallies and running sum give each row's first index |
| RedditCarriers.Scatter | src/reddit_steg.cpp:307-328 | the second pass puts every slot into its row's place, each cursor ending at the row's end |
| RedditCarriers.OrderBuckets | src/reddit_steg.cpp:330-348 | each row ordered by column and coefficient, in place |
| RedditCarriers.Arrange | src/reddit_steg.cpp:293-350 | the whole counting sort |
| RedditCarriers.MakeCarriers | src/reddit_steg.cpp:243-351 | fails exactly when the layout does not fit, with the first fault; otherwise the arranged carriers |
| RedditGrouping.ArrangedPermutes | src/reddit_steg.cpp:225-351 | every slot's carrier is emitted exactly once |
| RedditGrouping.ArrangedIsOrdered | src/reddit_steg.cpp:225-351 | rows, then columns, then coefficients never go back |
| RedditGrouping.SeparateIsStrict | src/reddit_steg.cpp:225-351 | on different coefficients the order has no ties, so it does not matter which sort orders a bucket |
| RedditCarriers.CarriersAreSound | src/reddit_steg.cpp:225-351 | one carrier per bit and copy, at pairwise distinct coefficients, strictly ordered |
| RedditVoting.ApplyCarriers | src/reddit_steg.cpp:652-687 | the streaming row walk writes every carrier; fails exactly when rows go back or leave the image |
| RedditVoting.WrittenOnce | src/reddit_steg.cpp:652-687 | each carrier's coefficient is encoded from its original value and all others stay |
| RedditVoting.ReadCarriers | src/reddit_steg.cpp:689-744 | the streaming row walk tallies every carrier and decides each bit by the sign of its score |
| RedditVoting.DecodedAt | src/reddit_steg.cpp:736-743 | a bit is read as one exactly when its votes are not negative |
| RedditVoting.ScoreBounds | src/reddit_steg.cpp:715-730 | each undamaged copy votes right by at least 3 and each damaged one wrong by at most 5 |
| RedditVoting.VoteRecovers | src/reddit_steg.cpp:689-744 | bits survive whenever fewer than three in eight of their copies are off by more than one |
| RedditVoting.ToleranceIsSharp | src/reddit_steg.cpp:715-743 | damaging k copies can turn a bit if and only if 8k exceeds 3 times its copies (or equals it, for a zero: a tie reads one) |
| RedditVoting.TwoOfThreeCanFlip | src/reddit_steg.cpp:689-744 | two of a payload bit's three copies can turn it, one cannot |
| RedditVoting.SevenOfSeventeenCanFlip | src/reddit_steg.cpp:689-744 | seven of a header bit's seventeen copies can turn it, six cannot |
| RedditCarrier.CapacityIsExact | src/reddit_steg.cpp:812-823 | the capacity is the largest payload whose copies all find candidates |
| RedditCarrier.FitsByCapacity | src/reddit_steg.cpp:252-286 | within the capacity the layout never fails |
| RedditCarrier.PlaceableByCapacity | src/reddit_steg.cpp:812-823 | on every grid within the format's limits, embedding is possible exactly up to the capacity |
| RedditCarrier.AcceptsIs | src/reddit_steg.cpp:954-973 | which payloads are accepted, in numbers of blocks and bytes |
| RedditCarrier.DisjointPlacements | src/reddit_steg.cpp:92-103 | header and payload frequencies are disjoint, so neither touches the other's coefficients |
| RedditCarrier.WritePlacement | src/reddit_steg.cpp:771-793 | each carrier ends on its bit's lattice and nothing else changes |
| RedditCarrier.HeaderStays | src/reddit_steg.cpp:771-793 | writing the payload leaves the header's bits on their lattices |
| RedditCarrier.PlacementReadsBack | src/reddit_steg.cpp:689-744 | one placement read back through damage |
| RedditCarrier.SurvivesInCopies | src/reddit_steg.cpp:689-744 | in numbers: 6 of a header bit's 17 copies and 1 of a payload bit's 3 may arrive as anything, the others off by one |
| RedditCarrier.CarriedThroughDamage | src/reddit_steg.cpp:829-883 | whatever survives the channel in that sense is read back exactly |
| RedditCarrier.CarriedIs | src/reddit_steg.cpp:829-883 | a payload is read if and only if the header placement reads the header of its length and checksum, it is within the capacity, and the payload placement reads it |
| RedditCarrier.NothingIsCarried | src/reddit_steg.cpp:829-883 | nothing is read if and only if a header fits and its bytes do not begin with the magic |
| RedditCarrier.DeclaredFaults | src/reddit_steg.cpp:829-883 | behind an intact header: too large exactly beyond the capacity, damaged exactly when the payload read has another checksum |
| RedditCarrier.ExtractWithKey | src/reddit_steg.cpp:829-883 | computes the carrier's content: gives a payload if and only if header and payload placements hold it, and none if and only if the header bytes lack the magic |
| RedditCarrier.TwoPlacementsMove | src/reddit_steg.cpp:746-810 | no coefficient is written twice, so each moves by at most 7 |
| RedditCarrier.EmbedRedditPayload | src/reddit_steg.cpp:954-973 | succeeds exactly on the payloads whose numbers fit; then every received version within the tolerance is read back exactly, and only lattice positions moved |
| KeyCodec.DigitOfChar | src/key_codec.rs:50-52 | each character stands for at most one digit, as in the alphabet's first occurrence |
| KeyCodec.AlphabetIsTable | src/key_codec.rs:50-52 | the 58 characters in their order: digits, capitals without I and O, small letters without l |
| KeyCodec.DisplayStrips | src/key_codec.rs:88-97 | the grouping dashes change nothing |
| KeyCodec.DisplayAt | src/key_codec.rs:88-97 | character by character: a dash after every four, and the others in order |
| KeyCodec.CheckIsNumber | src/key_codec.rs:84-86 | the two check digits are the check value in base 58 |
| KeyCodec.FirstDigitWeighsMost | src/key_codec.rs:73-83 | digits count from the most significant one |
| KeyCodec.BodyReachesPastKeys | src/key_codec.rs:133-135 | 58^22 > 2^128: some bodies have no KEY, so the carry test is needed |
| KeyCodec.DigitsAreExact | src/key_codec.rs:120-147 | 24 digits stand for a KEY exactly when they are that KEY's own digits |
| KeyCodec.ParseIsExact | src/key_codec.rs:102-148 | a text is accepted as a KEY if and only if, separators aside, it is that nonzero KEY's own 24 characters |
| KeyCodec.RefusalIsExact | src/key_codec.rs:102-148 | which text is refused as what: malformed exactly when it does not name a nonzero 128-bit number in 24 characters, a checksum error exactly when it does with another number's check digits |
| KeyCodec.DisplayRoundTrip | src/key_codec.rs:68-148 | every nonzero KEY's 29-character display parses back to it |
| KeyCodec.DivideBy58 | src/key_codec.rs:76-81 | one in-place division step of the whole number |
| KeyCodec.WriteBody | src/key_codec.rs:73-83 | the 22 body characters are the number's base-58 digits |
| KeyCodec.EncodeDisplay | src/key_codec.rs:68-98 | the buffer ends as the grouped display of body and check digits |
| KeyCodec.MultiplyBy58 | src/key_codec.rs:127-132 | one in-place multiply-and-add step with its carry out |
| KeyCodec.PrefixValue | src/key_codec.rs:126-136 | a body whose first digits overflow, overflows: stopping early is right |
| KeyCodec.ReadBody | src/key_codec.rs:125-136 | the body's number, refused exactly when it is 2^128 or more |
| KeyCodec.Collect | src/key_codec.rs:103-118 | collects the non-separators, refused exactly when they are not 24 |
| KeyCodec.ParseKeyText | src/key_codec.rs:102-148 | the parser, with its malformed and checksum errors |
| DeadlineHandoff.StepKeepsInv | src/bsky/create_bsky_post.py:490-581 | every step of caller or worker keeps the invariant that says whose turn it is to dispose |
| DeadlineHandoff.DisposalIsSafe | src/bsky/create_bsky_post.py:490-581 | in every interleaving: at most one disposal, only after giving up, never while the action runs, and of the action's own value |
| DeadlineHandoff.ReturnedIsKept | src/bsky/create_bsky_post.py:528-581 | a returned value or error is the action's own and is never disposed of, then or later |
| DeadlineHandoff.GoesOnInTime | src/bsky/create_bsky_post.py:528-581 | while no deadline has passed, caller or worker can go on until both are done, unless the action's exception escapes the worker |
| DeadlineHandoff.HandedIsTaken | src/bsky/create_bsky_post.py:560-582 | a waiting caller can take what was handed over, and returns or raises exactly that |
| DeadlineHandoff.InTimeIsDelivered | src/bsky/create_bsky_post.py:490-582 | when no deadline passed and both threads are done, the caller has returned or raised the action's own outcome, and nothing was disposed of |
| DeadlineHandoff.TimeoutDisposesOnce | src/bsky/create_bsky_post.py:490-581 | when both threads are done and a timeout is seen, the disposal ran exactly once if and only if the timeout was the caller's own and the worker caught what the action raised |
| DeadlineHandoff.WellBehavedActionIsDisposed | src/bsky/create_bsky_post.py:490-581 | so an action that raises neither DeadlineExceeded nor anything uncaught is always disposed of |
| DeadlineHandoff.ActionsOwnDeadline | src/bsky/create_bsky_post.py:528-581 | a run in which the action's own DeadlineExceeded looks like a timeout with nothing disposed of |
| DeadlineHandoff.UncaughtExceptionLeaks | src/bsky/create_bsky_post.py:528-545 | a run in which an exception outside Exception ends the worker and nothing is disposed of |
| DeadlineHandoff.RunsAreShort | src/bsky/create_bsky_post.py:490-581 | no interleaving takes more than eight steps |
| DeadlineHandoff.NeverStuck | src/bsky/create_bsky_post.py:490-581 | no interleaving gets stuck |
| PublishOnce.StepKeepsInv | src/bsky/create_bsky_post.py:2550-2607 | every step of client, network and server keeps the protocol's invariant |
| PublishOnce.AtMostOnePost | src/bsky/create_bsky_post.py:2550-2607 | whatever is lost, delayed or repeated, at most one record is created, under the one key |
| PublishOnce.ReturnMeansPosted | src/bsky/create_bsky_post.py:2550-2607 | a normal return means the record exists from then on |
| PublishOnce.ReturnsOnGoodNews | src/bsky/create_bsky_post.py:2535-2607 | the client has returned if and only if some attempt heard a proper success or some lookup found the record |
| PublishOnce.FailsSilentlyOnDefiniteNews | src/bsky/create_bsky_post.py:2535-2607 | it has failed without the warning if and only if the first attempt heard a definite 3xx or 4xx reply or was never sent |
| PublishOnce.WarnsOnDoubt | src/bsky/create_bsky_post.py:2577-2607 | it has failed with the warning if and only if a lookup failed, the retry was redirected, or the lookup after the retry found nothing |
| PublishOnce.RetriesOnlyInVain | src/bsky/create_bsky_post.py:2577-2600 | no run makes more than two requests, and none a second one unless the lookup after an uncertain first found nothing |
| PublishOnce.RetryBegins | src/bsky/create_bsky_post.py:2577-2600 | a retry begins only at that lookup |
| PublishOnce.SuccessIsReturned | src/bsky/create_bsky_post.py:2535-2607 | once a proper success is heard the client has returned, with exactly one record more |
| PublishOnce.FirstTry | src/bsky/create_bsky_post.py:2535-2567 | the ordinary run: applied, heard, returned, with exactly one record |
| PublishOnce.StepsRunOut | src/bsky/create_bsky_post.py:2535-2607 | every step but the server's own brings the client nearer its end |
| PublishOnce.ClientGoesOn | src/bsky/create_bsky_post.py:2535-2607 | and until it has ended it always has a step to take |
| PublishOnce.NoWarningMeansNeverPosted | src/bsky/create_bsky_post.py:2577-2607 | failing without the warning means no record exists at any point of the run, before or after |
| PublishOnce.LateArrival | src/bsky/create_bsky_post.py:2577-2607 | a run in which the record appears after the client gave up with the warning: the warning is needed |
| PublishOnce.RetryRefused | src/bsky/create_bsky_post.py:2550-2607 | a run in which the server refuses the retry of a request that was never applied |
| OutputLog.OutputFile.Write | src/output_file.rs:121-136 | appends, whatever the buffer holds |
| OutputLog.OutputFile.SendFrom | src/output_file.rs:139-172 | appends a stretch of another file behind everything buffered |
| OutputLog.PayloadSource.CopyTo | src/output_file.rs:656-678 | appends exactly the next bytes of template and encrypted file; fails only when fewer are left |
| IccSegments.UpdateValue | src/common.rs:506-536 | writes the field in place or changes nothing, and fails exactly on a bad range, width or length |
| Bytes.FirstByteWeighsMost | src/common.rs:506-536 | fields are read with the first byte as the most significant |
| IccSegments.LayoutAccepts | src/conceal_segments.rs:80-114 | sizes up to 65,535 segments' worth are accepted, one segment exactly up to 64,688 encrypted bytes |
| IccSegments.FieldsFit | src/conceal_segments.rs:146-198 | no u16 or u32 field can overflow for an accepted size |
| IccSegments.FramedLength | src/conceal_segments.rs:99-107 | framing adds 18 bytes per segment |
| IccSegments.HeaderAt | src/conceal_segments.rs:213-236 | header k stands 65,537 bytes behind header k-1 |
| IccSegments.HeadAt | src/conceal_segments.rs:49-63 | what stands at header k: the marker, its own segment's length, `ICC_PROFILE`, the segment's number in 16 bits where the identifier's zero byte and the number's byte are, and a count of 1 |
| IccSegments.PartIsChained | src/conceal_segments.rs:207-240 | following the length fields from the first header reaches header k at k * 65,537 for every k and ends exactly with the framed bytes |
| IccSegments.ZeroByteOnlyEarly | src/conceal_segments.rs:57-63 | the identifier's closing zero byte is there exactly in the first 255 segments |
| IccSegments.FillTemplate | src/conceal_segments.rs:144-198 | fills the template's fields in place; none of the writes can fail |
| IccSegments.WriteSegments | src/conceal_segments.rs:207-240 | the segment loop appends exactly the framed payload and uses it up |
| IccSegments.WriteIccData | src/conceal_segments.rs:134-248 | fails exactly when there is no layout, leaving output and template alone; otherwise appends template, leading segments and framed payload, whose lengths lead from header to header to the very end, each with its identifier and number, and reports their size and the length in the first segment's header |
| IccSegments.FirstSegmentField | src/conceal_segments.rs:176-247 | the reported first length fits 16 bits and is what stands in the first segment's length field |
| IccRecovery.FramedStepped | src/extract.rs:533-570 | stepping over the header windows takes away exactly what framing added |
| IccRecovery.SkippedIsCounted | src/extract.rs:468-479 | the closed form counts exactly the headers the run loop steps over |
| IccRecovery.BuildRuns | src/extract.rs:533-570 | the runs, read one after another, are the span without its headers |
| IccRecovery.OpenDefaultCiphertext | src/extract.rs:481-573 | fails exactly on a faulty span, with its first fault; otherwise the ciphertext's runs |
| IccRecovery.FileRunsSource.TryRead | src/cipher_source.rs:82-104 | the next bytes across run boundaries, or nothing when fewer are left |
| IccRoundTrip.FindProfile | src/recover/mod.rs:28-57 | the bounded walk over leading segments |
| IccRoundTrip.WalkReaches | src/recover/mod.rs:28-57 | the walk passes every leading segment and stops at the profile behind them |
| IccAcceptance.ProfileIsExact | src/recover/mod.rs:28-57 | the walk finds a profile at an index if and only if it stands there behind at most 16 whole leading segments |
| IccRoundTrip.RecoverCiphertext | src/recover/modes.rs:172-245 | profile, fields, runs and bytes put together |
| IccAcceptance.AcceptedIs | src/extract.rs:481-531 | a file is read if and only if a profile is found, the recorded number of bytes follows it, and the last recorded segment begins where it must |
| IccRoundTrip.MarkerIsPresent | src/extract.rs:504-531 | the last segment's marker stands where the reader looks for it |
| IccRoundTrip.SkippedIsSegments | src/extract.rs:468-479 | the headers left out are the segments after the first |
| IccRoundTrip.IccRoundTrip | src/conceal_segments.rs:116-248 | for every encrypted file with a layout, up to 16 leading segments within 64 KiB and any cover: the announced size, and recovery of exactly the encrypted file |
| IccAcceptance.CutIsRefused | src/extract.rs:481-531 | what was written, cut short anywhere, is refused |
| IccAcceptance.ProfileSizeIsTrue | src/conceal_segments.rs:176-198 | in one segment, the profile's own size field reaches from its first byte to the end of what is written |
| IccRoundTrip.TemplateOkIsMet | src/conceal_segments.rs:26-43 | templates with the assumed properties exist |
| Base64.AlphabetIsExact | src/extract.rs:316-325 | decoding a character inverts the encoder's table and refuses every other byte |
| Base64.AlphabetIsTable | src/conceal_segments.rs:321-321 | the 64 characters in their order, as in table 1 of RFC 4648 |
| Base64.TripleIsNumber | src/conceal_segments.rs:362-392 | four characters are the triple's 24 bits read six at a time, most significant first |
| Base64.Examples | src/conceal_segments.rs:362-410 | the test vectors f to foob of section 10 of RFC 4648 |
| Base64.TriplesAppend | src/conceal_segments.rs:362-392 | cutting at a multiple of three changes nothing |
| Base64.StreamingStep | src/conceal_segments.rs:362-392 | carry and new input encode as everything so far would, whatever the cut |
| Base64.Encoder.FillCarry | src/conceal_segments.rs:370-380 | the carry is filled up to a triple |
| Base64.Encoder.Push | src/conceal_segments.rs:362-392 | the text is the encoding of all bytes pushed, any cut |
| Base64.Encoder.Finish | src/conceal_segments.rs:394-410 | padding completes the text to the encoding as in section 4 of RFC 4648 |
| Base64.QuartetIsExact | src/extract.rs:403-442 | a quartet decodes to some bytes if and only if it is their canonical encoding, as in section 3.5 of RFC 4648 |
| Base64.DecodeIsExact | src/extract.rs:327-458 | text is accepted if and only if it is the canonical encoding of what it decodes to |
| Base64.DecodeUntilDelimiter | src/extract.rs:327-458 | the quartet loop decodes the text before the first delimiter, and refuses anything but the canonical encoding of the expected number of bytes |
| Base64.FileRoundTrip | src/extract.rs:327-458 | encoded bytes in front of a delimiter are read back exactly, wherever they stand |
| Base64.EncodeHasNoSpecials | src/conceal_segments.rs:321-321 | encoded text holds neither the delimiter nor a space |
| SignatureScan.FirstMatchMeans | src/extract.rs:95-120 | the first match is one, and none lies before it |
| SignatureScan.WindowFirst | src/extract.rs:33-93 | a window overlapping by one byte less than the signature shows the first match that ends in it |
| SignatureScan.FindSignature | src/extract.rs:33-120 | whatever amounts the reads return, the windowed scan finds the first match in range |
| BlueskySegments.LayoutFor | src/conceal_segments.rs:330-344 | each part is filled to its limit before the next begins, and the parts add up |
| BlueskySegments.CapacitiesAgree | src/extract.rs:144-163 | the writer accepts a size exactly up to the reader's capacity, 175,245 bytes |
| BlueskySegments.PartGrows | src/conceal_segments.rs:564-620 | a part grows by what is pushed into it and no other part changes |
| BlueskySegments.TakeExif | src/conceal_segments.rs:570-576 | bytes for the EXIF part keep the builder's invariant |
| BlueskySegments.TakeFirst | src/conceal_segments.rs:577-587 | bytes for the first dataset do, and completing it adds the second one's marker |
| BlueskySegments.TakeSecond | src/conceal_segments.rs:588-596 | bytes for the second dataset do |
| BlueskySegments.TakeXmp | src/conceal_segments.rs:597-613 | bytes for the XMP segment do |
| BlueskySegments.OpenBuilder | src/conceal_segments.rs:429-551 | a builder exactly for sizes within the capacity, with all size fields prepared |
| BlueskySegments.Builder.Push | src/conceal_segments.rs:564-620 | any cut of the ciphertext; fails exactly on bytes past the announced size |
| BlueskySegments.FullPshopIsPrefilled | src/conceal_segments.rs:655-685 | when an XMP segment follows, the template's own Photoshop sizes are the right ones |
| BlueskySegments.Finish | src/conceal_segments.rs:622-693 | fails exactly when bytes are missing; otherwise the packed segments, the same for every cut |
| BlueskyRecovery.FindPshopSignature | src/extract.rs:234-267 | the first signature in the bounded window, inside an APP13 segment |
| BlueskyRecovery.ReadXmp | src/extract.rs:269-285 | the Base64 behind the creator tag in front of the Photoshop segment |
| BlueskyRecovery.ReadParts | src/extract.rs:626-720 | both datasets and the XMP bytes, with every size check |
| BlueskyRecovery.ReadBlueskyCiphertext | src/extract.rs:578-721 | the reader as a whole |
| BlueskyRoundTrip.NoPshopInXmp | src/extract.rs:234-267 | the Photoshop signature occurs nowhere in an XMP segment, whatever it carries |
| BlueskyRoundTrip.PshopIsFound | src/extract.rs:234-267 | the reader finds the signature where the writer put it and nowhere before |
| BlueskyRoundTrip.XmpTagIsFound | src/extract.rs:269-285 | the reader finds the creator tag where the template has it and nowhere before |
| BlueskyRoundTrip.PackedHolds | src/conceal_segments.rs:622-693 | where every part of the packed file stands, the size fields included |
| BlueskyRoundTrip.ExifIsThere | src/extract.rs:165-232 | the EXIF checks pass on every packed file |
| BlueskyRoundTrip.DatasetsAreThere | src/extract.rs:626-690 | the reader meets both datasets behind the signature |
| BlueskyRoundTrip.XmpIsThere | src/extract.rs:696-714 | the reader decodes exactly the XMP share |
| BlueskyRoundTrip.BlueskyRoundTrip | src/extract.rs:578-721 | for every ciphertext within the capacity and every cover behind the segments the reader returns the ciphertext, except that it refuses the empty one the writer accepts |
| BlueskyMarkers.HeadIsTrue | src/conceal_segments.rs:449-470 | the EXIF segment ends where its length says, the artist field reaches from offset 144 to that very end, and the ciphertext's size is stated |
| BlueskyMarkers.XmpIsFramed | src/conceal_segments.rs:640-653 | the XMP segment begins where the EXIF segment ends and its length ends where the Photoshop segment begins |
| BlueskyMarkers.PshopIsFramed | src/conceal_segments.rs:655-685 | the Photoshop segment's length and the length of the resource block in it both end exactly where the packed bytes end, written or prefilled |
| BlueskyMarkers.ReadIsWhole | src/extract.rs:578-721 | nothing but the announced number of bytes is returned, the first of them straight out of the EXIF segment, and never more than the capacity |
| BlueskyMarkers.ReadNeedsSegment | src/extract.rs:617-680 | beyond that, nothing without the signature in an APP13 segment that the file holds to its end, nor from a second dataset when the segment has no room for two |
| BlueskyMarkers.CutIsRefused | src/extract.rs:165-267 | the packed segments, cut short anywhere, give nothing |
| BlueskyRoundTrip.SearchableIsMet | src/conceal_segments.rs:45-50 | templates with the assumed properties exist |
| StreamFraming.ChunksAreSound | src/conceal.rs:310-340 | chunking loses nothing and marks the last chunk alone as final |
| StreamFraming.UnframeIsExact | src/decrypt/stream.rs:82-151 | bytes are read as a whole stream if and only if they are the frames of a sound sequence of chunks |
| StreamFraming.FramedOpens | src/decrypt/stream.rs:82-151 | a sound stream opens to its chunks, and anything behind the final frame is noticed |
| StreamFraming.CutIsNoticed | src/decrypt/stream.rs:105-151 | a stream cut short anywhere, even between frames, is not whole |
| StreamFraming.IdealIsMet | src/decrypt/stream.rs:82-151 | ciphers with the assumed properties exist |
| StreamFraming.EstimateIsExact | src/conceal.rs:41-61 | the size formula, refusing exactly what does not fit 64 bits |
| StreamFraming.SizeIsEstimated | src/conceal.rs:41-61 | the estimate is the number of bytes the encryption writes |
| StreamFraming.SizeGrows | src/conceal.rs:41-61 | larger inputs never give smaller streams |
| StreamFraming.MaxStored | src/conceal.rs:128-156 | the binary search returns the largest payload whose envelope fits, 0 if none, and fails only on overflow |
| StreamRecovery.FillChunk | src/conceal.rs:312-331 | a chunk is filled from the prefix and then from the file |
| StreamRecovery.Encrypt | src/conceal.rs:265-352 | the framed chunks of prefix and file; fails exactly on an empty, short or grown input or an overflow, in that order |
| StreamRecovery.PrefixExtractor.Consume | src/decrypt/stream.rs:31-65 | filename and payload split the same way for every cut into chunks; a zero length is corrupt |
| StreamRecovery.MemorySource.TryRead | src/cipher_source.rs:36-43 | the next bytes, or nothing when fewer are left |
| StreamRecovery.ReadFrame | src/decrypt/stream.rs:105-134 | one frame, with its three length checks |
| StreamRecovery.DecryptChunks | src/decrypt/stream.rs:82-151 | everything that opened is handed on, and the verdict says whether the stream was whole |
| StreamRecovery.DecryptToStage | src/decrypt/stream.rs:317-348 | recovery of a payload stored as it is, with its None, corrupt and empty cases |
| StreamRecovery.RecoverIsExact | src/decrypt/stream.rs:317-348 | a file is recovered from exactly the frames of a sound chunking of its plaintext, cut anywhere |
| StreamRecovery.WholeButRefused | src/decrypt/stream.rs:317-348 | which whole streams give no file and why: corrupt with a name of length 0, empty with nothing behind the name, none with the name cut short |
| StreamRecovery.CutGivesNothing | src/decrypt/stream.rs:105-151 | a stream cut short anywhere gives no file; with a proper name length it is simply none |
| StreamRecovery.StreamRoundTrip | src/conceal.rs:265-352 | what is encrypted is recovered, for every name, payload and size, and is as long as estimated |

## Left out

- StcRaw.EmbedRaw: costs and prices are exact reals with a separate infinity; the rounding of `double` sums is not modelled.
- StcSchedule.MakeWidths: lengths are unbounded; `NumeratorFits` says for which lengths the 64-bit arithmetic cannot wrap.
- KeyedShuffle.KeyedIndexStream.Below: that the loop ends rests on the assumption `Fair`; the 64-bit counter is unbounded here.
- KeyedIndexPrefixes.KeyedIndexPrefix.constructor: the refusal of domains above 2^32 - 1 is a precondition; the callers' own checks are modelled.
- TwitterCarrier.EmbedTwitterPayload: requires a grid that covers the image and whose offsets fit 32 bits, as every image within the program's limits has; the cost of an offset is a parameter, for which `StripCosts.ComputeCosts` gives the values; decoding and re-encoding the JPEG and the checks on its format are not modelled.
- RedditCarrier.EmbedRedditPayload: the same for the Reddit JPEG; coefficients are one array instead of library row buffers.
- RedditCarriers.OrderBuckets: the library sort is modelled as insertion; `RedditGrouping.SeparateIsStrict` shows that the result does not depend on the sort.
- EmbeddingCosts.Sort: the library sort is modelled as insertion; only order and contents are used.
- StripCosts.ComputeCosts: over exact reals; planes are two-dimensional arrays instead of row * width + column, the filter taps and the impact table are parameters, and the planes are new for each strip instead of resized.
- StreamRecovery.DecryptToStage: the path that inflates a compressed payload, the cancellation polls and the wiping of buffers are not modelled; the source is a ciphertext in memory, and `IccRecovery.FileRunsSource` has the same contract.
- StreamFraming.Ideal: the mode byte authenticated with every chunk is fixed.
- IccSegments.UpdateValue: the KDF metadata and compression marker in the template's other fields are not modelled.
- IccRoundTrip.RecoverCiphertext: the declared-size limits of the platforms are not modelled.
- Base64.DecodeUntilDelimiter: the 4096-byte read and write chunks, which no result depends on, are not modelled.
- DeadlineHandoff.StepKeepsInv: time is whether the deadline has passed; exceptions raised by the disposal itself are swallowed, as the original does.
- PublishOnce.StepKeepsInv: replies are classified by what the client can tell apart; their contents are not modelled.
- OutputLog.OutputFile.Write: failures of system calls are not modelled.
- Argon2id, XChaCha20-Poly1305, BLAKE2b, SipHash and CRC-32 themselves.
- libjpeg, TurboJPEG and the JPEG preprocessing, orientation and quality tables.
- zlib, HTTP, DNS, HTML, image decoding and the text parsing of the Bluesky poster.
- Command line, terminal entry, printing, signals, memory wiping and staging files.
