# Formal models of labcolors' exact deciders

The repository decides questions about colours with exact arithmetic: whether two colours meet a WCAG
contrast ratio, what a stack of translucent layers looks like, which colours a table admits, how sure a
proportion of ratings is. Around those deciders it keeps small protocols and tools: a transactional writer
of style properties, a snapshot checker, a tar scanner, a scheduler. This project models the algorithms
that carry the argument and proves what they are for, over all inputs.

| modules | what they model |
|---|---|
| `Q55Interval`, `Q55Scan`, `Q55Domain`, `Q55Rows` | the fixed-point (Q55) enclosure of luminances, the merge of all colour sums, the boundary scan that decides all pairs of colours, and why its integer verdicts are those of the real contrast ratio |
| `FifthRoot`, `NeutralAxis`, `NeutralOracle`, `CodeRanges`, `NeutralAgreement` | the second, independent decider for neutral colours: exact roots, bisected enclosures, their cache, candidate sets and code ranges; and that the two deciders agree |
| `PointSupport`, `RationalOrder` | contrast distance, surplus over an anchor ratio, and the comparison of rationals without large products |
| `ClopperPearson`, `Ranks` | outward confidence intervals of proportions, and average ranks |
| `Binary64`, `SourceOver`, `LayerStack` | rounding to binary64 in integers, the source-over oracle built on it, and the replay of a stack without one layer |
| `CleanSetCodec`, `CleanSetReplay` | the canonical run-length codec of admitted colours and its replay |
| `SinkBatch`, `SinkOwnership`, `OutputSink` | the leases on style properties: a batch against an adversarial environment, the ownership registry, and the objects that carry both |
| `SnapshotLinks` | the symbolic-link check of a source snapshot against pathname resolution (section 4.13 of IEEE Std 1003.1-2017) |
| `UstarHeader`, `UstarScan` | the scan of a tar stream against archives as tilings (ustar Interchange Format, pax utility, IEEE Std 1003.1-2017) |
| `ListScheduling`, `ShardPlan` | the greedy shard plan and how close to optimal it is |
| `Transfer`, `Fractions`, `Powers`, `Bits`, `Products`, `Sequences`, `FiniteSets`, `Sorting`, `Bytes`, `Results` | shared vocabulary |

`dafny verify dfyconfig.toml` checks everything.

Exact rationals of the source are Dafny reals where only their value matters, and pairs of integers where
the algorithm looks at numerator and denominator. Integers are unbounded, as Python's are; where the source
is Rust the ranges are proved (`ChannelStaysInRange`). A real root is named by its defining equation, so a
statement "for all x with x^5 equal to ..." speaks about the root without assuming how it is computed.

Nine places where the code does not do all that its own words, or a natural reading of them, promise:

* the comment at scripts/verify_wcag22_q55.py:670-671 says that boundary neighbours suffice for the least
  definite margins; the failing margin reported is least only up to the width bound
  (`ReportedMarginNotLeast` is a run that misses the least one; `ScanThreshold` states the bound, and
  exactly when the least one is reported);
* the neutral oracle takes the higher code for the lighter colour, so its verdict is the contrast decision
  less the pairs where that is wrong, which one comparison of integers tells (`NeutralVerdictsAgree`).
  There are none under the committed profile, whose luminance rises with the code (`RisesIffNoDrop`,
  `CommittedRises`); on another profile the oracle denies a contrast that is there (`HigherCodeDarker`,
  `OracleDeniesContrast`);
* the source-over oracle refuses alphas strictly between 0 and 2^-67 (`OracleAlphaIff`, `SmallAlphaRefused`);
* packages/colors/sink.js:12-14 promises that a lease revoked inside a batch ends with its owned keys
  removed. A patch that loses its lease while writing clears the patched keys only
  (`PatchRevocationExact`, `PatchRevocationLeavesKey`);
* and a lease revoked by a restoring call of the rollback keeps the keys that the rollback puts back
  (`CommitRevocationExact`, `RollbackRevocationLeavesKeys`);
* a batch without keys whose first ownership callback revokes the lease reports success on the revoked
  lease (`StartRevocation`, `EmptyBatchSucceedsRevoked`);
* the comment at packages/colors/sink.js:98 calls the initial keys the full initial set of owned keys; a
  lease owns that set exactly when the keys can be read twice, or there are none, since an iterator is used
  up by the check (`OwnsAllIff`, `IteratorAttachOwnsNothing`);
* a commit with `diffFrom` leaves the style as the snapshot says only for the keys it wrote or that showed
  their value already (`DiffCommitShowsExactly`, `DiffCommitLeavesKey`);
* the comment at scripts/mutation.py:864-866 speaks of a ceiling of 40 symbolic-link expansions; opening an
  accepted link by its own path can take 41 (`AcceptedOpens`, `CeilingIsOneHigher`).

## Model

| member | source | states |
|---|---|---|
| Q55Interval.UnpackPack | scripts/verify_wcag22_q55.py:500-508 | packing a representable interval into a word loses nothing |
| Q55Interval.PackOrder | scripts/verify_wcag22_q55.py:500-508 | words are ordered by lower end, then by upper end, which is what sorting words relies on |
| Q55Interval.PackedSum | scripts/verify_wcag22_q55.py:525-529 | adding two words adds the two intervals if and only if their widths leave no carry |
| Q55Interval.OrientationByMargins | scripts/verify_wcag22_q55.py:556-605 | on ordered intervals passing and failing exclude each other, so the verdict is the sign of a margin |
| Q55Scan.BandMonotone | scripts/verify_wcag22_q55.py:614-618 | both edges of the candidate band move right with the darker colour, so pointers never have to go back |
| Q55Scan.BandIff | scripts/verify_wcag22_q55.py:620-634 | a lighter colour lies in the band exactly when, with every interval as wide as allowed, it reaches the law with its upper end and misses it with its lower end |
| Q55Scan.BelowBandFails | scripts/verify_wcag22_q55.py:629-631 | every colour below the band certainly fails, though no such pair is ever compared |
| Q55Scan.AboveBandPasses | scripts/verify_wcag22_q55.py:632-634 | every colour above the band certainly passes |
| Q55Scan.CoveredBothWaysDecides | scripts/verify_wcag22_q55.py:572-581 | a pair covered in both orientations is decided, although one failing orientation alone decides nothing |
| Q55Scan.FullyCoveredIsDecided | scripts/verify_wcag22_q55.py:608-617 | when every column of the scan is settled, every ordered pair of the array is decided |
| Q55Scan.AdvancePointers | scripts/verify_wcag22_q55.py:636-641 | the two pointers cut the array exactly into below, in and above the band |
| Q55Scan.ScanBand | scripts/verify_wcag22_q55.py:643-666 | the band is compared pair by pair: an unresolved pair is named, or all are decided and the records hold their least margins |
| Q55Scan.RecordBelow | scripts/verify_wcag22_q55.py:672-680 | the neighbour below the band stands for everything below it, up to the width bound |
| Q55Scan.RecordAbove | scripts/verify_wcag22_q55.py:681-688 | the neighbour above the band has the least passing margin above it |
| Q55Scan.ScanThreshold | scripts/verify_wcag22_q55.py:608-721 | an unresolved pair is reported if and only if one exists among all ordered pairs, most of them never compared; the count is the number of pairs in bands; the passing margin is least, the failing one within light times width of least, and least if and only if some failing pair in its band or next to it has the least one |
| Q55Scan.BandTotalCounts | scripts/verify_wcag22_q55.py:643-647 | the check count is the number of pairs of positions whose lighter colour lies in the band of the darker one |
| Q55Scan.NeighbourLeastIff | scripts/verify_wcag22_q55.py:670-680 | the neighbour's failing margin is the least below the band if and only if no upper end before it exceeds its own |
| Q55Scan.FailMarginNotLeast | scripts/verify_wcag22_q55.py:670-680 | a concrete sorted array of words without unresolved pairs on which no failing margin the scan can record is the least |
| Q55Scan.ReportedMarginNotLeast | scripts/verify_wcag22_q55.py:608-721 | the scan of that array reports, with a failing margin above that of one of its pairs |
| Q55Domain.SumsAre | scripts/verify_wcag22_q55.py:516-520 | the red-green list holds exactly the sums of one red and one green row |
| Q55Domain.MergeAdvances | scripts/verify_wcag22_q55.py:534-550 | one round of the heap merge keeps: heap holds the next sum of every stream, output is increasing and holds exactly the sums taken |
| Q55Domain.Merge | scripts/verify_wcag22_q55.py:523-553 | the merge of the streams is strictly increasing, holds exactly the pair sums, and visits each once |
| Q55Domain.BuildUniqueColorIntervals | scripts/verify_wcag22_q55.py:511-553 | the list of colours is strictly increasing, holds exactly the packed colours, and took one step for each of the colours |
| Q55Domain.ColourUnpacks | scripts/verify_wcag22_q55.py:1465-1467 | below the width mask a packed colour unpacks to the sum of its three rows |
| Q55Domain.MaxWidthBounds | scripts/verify_wcag22_q55.py:1465-1467 | the greatest width of a table is attained and not exceeded |
| Q55Domain.VerifyDomain | scripts/verify_wcag22_q55.py:1465-1471 | the whole check for a threshold scans unless a width, a word or the number of colours is out of range, each refusal with its cause; of all pairs of colours the scan then names an undecided one exactly when there is one, says that none passes or none fails, or reports the count in bands, the least passing margin and a failing margin within light times width of least, each with two colours that have it |
| Q55Rows.FifthRootFloor | scripts/generate_wcag22_q55.py:93-99 | the binary search finds the largest integer whose scaled fifth power does not exceed the right side |
| Q55Rows.WeightedBounds | scripts/generate_wcag22_q55.py:81-108 | a generated row is the one row that the independent tightness check accepts, and it is generated whenever there is one |
| Q55Rows.TightRowEncloses | scripts/verify_wcag22_q55.py:371-395 | an accepted row is the floor and the ceiling of the real contribution, equal exactly when that is an integer |
| Q55Rows.ThresholdScaled | scripts/verify_wcag22_q55.py:271-287 | the reduced integer threshold is the cleared law divided by one positive factor |
| Q55Rows.ThresholdReduced | scripts/verify_wcag22_q55.py:271-287 | the three numbers of a threshold have no common factor but one |
| Q55Rows.MarginsAreWorst | scripts/verify_wcag22_q55.py:584-605 | the two margins are the worst case of the real law over the enclosed luminances, attained at their ends |
| Q55Rows.MeetsLawIsRatio | scripts/verify_wcag22_q55.py:271-287 | the integer law is the contrast ratio of the two real luminances |
| Q55Rows.ReachesIsLaw | scripts/verify_wcag22_q55.py:572-581 | a ratio is reached if and only if one of the two orientations meets the law |
| Q55Rows.PairDecisionSound | scripts/verify_wcag22_q55.py:556-581 | pass and fail on intervals hold for all real luminances in them |
| Q55Rows.LuminanceEnclosed | scripts/verify_wcag22_q55.py:516-529 | the three rows of a colour enclose its real luminance |
| Q55Rows.VerifiedDomainClassifies | scripts/verify_wcag22_q55.py:1434-1471 | tight tables and a scan without unresolved pairs make the integer decision the real WCAG decision on every pair of colours |
| FifthRoot.IntegerRootFloor | scripts/verify_wcag22_neutral_axis.py:142-156 | the integer root is the largest one, with the source's error for a negative value or a degree below one |
| FifthRoot.ExactFifthRoot | scripts/verify_wcag22_neutral_axis.py:159-164 | the exact root is found whenever numerator and denominator are fifth powers |
| FifthRoot.ExactRootIffRational | scripts/verify_wcag22_neutral_axis.py:159-164 | for a fraction in lowest terms, a missing exact root means that no rational root exists |
| FifthRoot.FifthRootInterval.Create | scripts/verify_wcag22_neutral_axis.py:170-177 | an enclosure starts at the exact root or at the unit interval, and out-of-range radicands are refused |
| FifthRoot.FifthRootInterval.Encloses | scripts/verify_wcag22_neutral_axis.py:196-197 | comparing fifth powers of the ends bounds the root itself |
| FifthRoot.FifthRootInterval.Refine | scripts/verify_wcag22_neutral_axis.py:183-197 | a bisection keeps the enclosure, halves its width or resolves it, and counts only when there was something to do |
| FifthRoot.RefineLarger | scripts/verify_wcag22_neutral_axis.py:294-305 | in an undecided state exactly one unresolved enclosure is bisected and the margin's spread falls by a quarter at least, also when both arguments are one object |
| FifthRoot.ContrastPassesIntervals | scripts/verify_wcag22_neutral_axis.py:264-307 | a verdict is the exact inequality of the roots; giving up takes exactly the allowed bisections and leaves the margin within (3/4)^limit of the first spread |
| NeutralAxis.RadicandRoot | scripts/verify_wcag22_neutral_axis.py:239-248 | the luminance of a neutral code is the one fifth root of the radicand built for it, in both branches of the transfer |
| NeutralAxis.LinearRoot | scripts/verify_wcag22_neutral_axis.py:240-245 | in the linear branch the root is found exactly, so the source's assertion there never fails |
| NeutralOracle.Oracle.constructor | scripts/verify_wcag22_neutral_axis.py:201-230 | a new oracle has an empty, valid cache |
| NeutralOracle.Oracle.Luminance | scripts/verify_wcag22_neutral_axis.py:232-249 | the same object for the same code every time, the cache extended by nothing else, errors exactly for bad codes and radicands |
| NeutralOracle.Oracle.ContrastPasses | scripts/verify_wcag22_neutral_axis.py:251-262 | the verdict on two codes is that of their real luminances; cached enclosures only tighten; every error has its cause, and an undecided pair is vanishingly close to the boundary |
| NeutralOracle.LimitIsFar | scripts/verify_wcag22_neutral_axis.py:46-50 | the oracle gives up only within 2^-400 of the widest margin from the boundary of the law |
| NeutralOracle.Oracle.CandidateSet | scripts/verify_wcag22_neutral_axis.py:309-321 | exactly the codes that meet the criterion against every neighbour, in order; every error has its cause |
| CodeRanges.ExpandRanges | scripts/verify_wcag22_neutral_axis.py:331-339 | ranges are accepted if and only if ordered and disjoint, and give their codes |
| CodeRanges.CompressRanges | scripts/verify_wcag22_neutral_axis.py:342-356 | a strictly ascending list gives its maximal ranges, anything else an error |
| CodeRanges.RunsExpandBack | scripts/verify_wcag22_neutral_axis.py:331-356 | expanding compressed codes gives them back |
| CodeRanges.CodesCompressBack | scripts/verify_wcag22_neutral_axis.py:331-356 | compressing expanded ranges gives them back if and only if no two of them touch |
| Transfer.IsLinearIff | scripts/generate_wcag22_q55.py:83-84 | the integer test that picks the linear branch is the comparison of the encoded channel with the split |
| NeutralAxis.LuminanceOrderIff | scripts/verify_wcag22_neutral_axis.py:239-258 | which of two codes is the lighter colour is one comparison of the integers of their radicands |
| NeutralAxis.RisesIffNoDrop | scripts/verify_wcag22_neutral_axis.py:239-248 | luminance rises with the code throughout if and only if it does not fall at the one code where the branch changes, a comparison of two integers |
| NeutralAxis.CommittedRises | crates/labcolors-core/contracts/wcag22-srgb8-v1.json:1 | in the committed profile it does not fall there |
| NeutralAgreement.NeutralVerdictsAgree | scripts/verify_wcag22_neutral_axis.py:251-307 | on neutral colours the oracle's verdict is the decision of the verified Q55 tables and that the lighter code is the lighter colour, a comparison of integers; in a profile whose luminance does not fall at the split it is the decision |
| NeutralAgreement.HigherCodeDarker | scripts/verify_wcag22_neutral_axis.py:251-265 | a profile in order and two codes that reach 3:1, on which the margin the oracle looks at is negative |
| NeutralAgreement.OracleDeniesContrast | scripts/verify_wcag22_neutral_axis.py:251-307 | a new oracle of that profile answers false on those codes |
| PointSupport.SurplusGuaranteed | scripts/verify_point_support_surplus.py:276-295 | no luminances in the two intervals have less surplus than the reference distance says |
| PointSupport.SurplusAttained | scripts/verify_point_support_surplus.py:276-285 | some luminances in the intervals have exactly that surplus |
| PointSupport.AnchorSurplusIs | scripts/verify_point_support_surplus.py:288-295 | each of the three formulas is the contrast less the anchor's ratio |
| PointSupport.AnchorsRankAlike | scripts/verify_point_support_surplus.py:288-325 | all anchors order two distances as the rational comparator does |
| PointSupport.DistanceSymmetric | scripts/verify_point_support_surplus.py:276-285 | swapping the two intervals turns only the reported side |
| PointSupport.DistanceIs | scripts/verify_point_support_surplus.py:276-285 | the side is the order of all enclosed luminances, and the gap is their least distance, attained |
| PointSupport.RetainedIff | scripts/verify_point_support_surplus.py:298-302 | meeting the retained share of a baseline is one integer comparison, with both special cases |
| PointSupport.RequiredFalls | scripts/verify_point_support_surplus.py:298-302 | a larger permitted drop never asks for more, and no drop asks for the whole baseline |
| RationalOrder.CompareNonnegativeRationals | scripts/verify_point_support_surplus.py:305-325 | the sign of the cross-product difference, with no number above the inputs and a Fibonacci bound on the passes of the loop |
| RationalOrder.ReciprocalsReverse | scripts/verify_point_support_surplus.py:317-319 | equal integer parts drop out and reciprocals reverse the order |
| ClopperPearson.TailNumeratorIsTail | scripts/extract_human_ratings.py:203-205 | the integer sum is the binomial tail at the two integer weights |
| ClopperPearson.TailMonotone | scripts/extract_human_ratings.py:201-209 | the upper tail never falls when the probability rises: what makes the bisection correct |
| ClopperPearson.TailSymmetry | scripts/extract_human_ratings.py:218-220 | at least s successes and at least n+1-s failures make up everything, which is why the upper end may use the lower one |
| ClopperPearson.WithinIsChance | scripts/extract_human_ratings.py:206 | the integer comparison at a grid point is the comparison of probabilities |
| ClopperPearson.BinomialLower | scripts/extract_human_ratings.py:196-210 | the largest grid point whose tail is within the bound |
| ClopperPearson.LowerEndBracketsExact | scripts/extract_human_ratings.py:196-210 | the exact end lies within one grid step above the answer |
| ClopperPearson.ProportionInterval | scripts/extract_human_ratings.py:213-221 | both ends by the same search, ordered and inside [0, 1], with the two argument errors |
| ClopperPearson.EndsExact | scripts/extract_human_ratings.py:213-221 | at either end so extreme a count has a chance of at most alpha / 2, one step of 2^-32 inwards a greater one; without successes or failures the end is that of the unit interval |
| ClopperPearson.EndsMonotone | scripts/extract_human_ratings.py:213-221 | both ends are nondecreasing in the number of successes |
| ClopperPearson.EndsOrdered | scripts/extract_human_ratings.py:213-221 | the lower end never exceeds the upper end |
| ClopperPearson.Coverage | scripts/extract_human_ratings.py:213-221 | whatever the true proportion, the chance of an interval that misses it is at most alpha |
| ClopperPearson.CoverageAtLeast | scripts/extract_human_ratings.py:213-221 | every count is covered or missed on one side, and the chance of an interval that contains the true proportion is at least 1 - alpha |
| Ranks.RankValues | scripts/extract_human_ratings.py:105-111 | each value's rank is the middle of the positions its equals share |
| Ranks.RanksOrdered | scripts/extract_human_ratings.py:105-111 | ranks are ordered, and tied, exactly as the values are |
| Ranks.RanksConserved | scripts/extract_human_ratings.py:105-111 | however the values tie, the ranks add up to n(n+1)/2 |
| Binary64.Round53Nearest | crates/labcolors-core/src/appearance_replay_tests.rs:211-233 | the rounded value has a 53-bit significand, and no value with one, at any exponent, is nearer (section 4.3.1 of IEEE 754-2019) |
| Binary64.Round53TiesToEven | crates/labcolors-core/src/appearance_replay_tests.rs:222-228 | when two values are equally near, the even significand is taken |
| Binary64.Round53Monotone | crates/labcolors-core/src/appearance_replay_tests.rs:213-233 | rounding is monotone |
| Binary64.Round53Odd | crates/labcolors-core/src/appearance_replay_tests.rs:217-218 | rounding is symmetric in the sign |
| Binary64.Round53Exact | crates/labcolors-core/src/appearance_replay_tests.rs:213-233 | what a significand can carry is not changed |
| Binary64.RoundSignificand | crates/labcolors-core/src/appearance_replay_tests.rs:217-233 | shifting, rounding up and the carry to 2^53 give the rounded magnitude |
| Binary64.RoundDyadicToBinary64 | crates/labcolors-core/src/appearance_replay_tests.rs:213-243 | the bit fields encode the rounded value, and the exponent assertion fails exactly outside the normal range |
| Binary64.EncodedValue | crates/labcolors-core/src/appearance_replay_tests.rs:233-242 | sign, significand and exponent fields stand for the rounded dyadic |
| Binary64.EncodedIff | crates/labcolors-core/src/appearance_replay_tests.rs:237 | the exponent assertion holds exactly from 2^-1022 up to 2^1024 |
| Binary64.DecodeRounded | crates/labcolors-core/src/appearance_replay_tests.rs:179-243 | decoding a rounded value gives the rounded numerator over the same denominator |
| Binary64.RoundDecoded | crates/labcolors-core/src/appearance_replay_tests.rs:179-243 | every decodable value is its own rounding, except negative zero |
| SourceOver.OracleAlphaIff | crates/labcolors-core/src/appearance_replay_tests.rs:177-208 | of values below 2^127, whose numerators are exactly those that keep clear of the sign bit, the decoder takes zero and those from 2^-67 up; so the alphas in [0, 1] that the oracle takes are zero and those from 2^-67 up |
| SourceOver.SmallAlphaRefused | crates/labcolors-core/src/appearance_replay_tests.rs:196-206 | alpha 2^-100 is in [0, 1] and fails the decoder's shift assertion |
| SourceOver.ChannelIsBlend | crates/labcolors-core/src/appearance_replay_tests.rs:161-175 | for alpha zero, and for every alpha from 2^-67 up to one, no assertion or conversion fails, and two encoded roundings compute the blend |
| SourceOver.ChannelStaysInRange | crates/labcolors-core/src/appearance_replay_tests.rs:161-208 | every integer of a channel stays below the sign bit of 128-bit integers, as the comment on shifts argues |
| SourceOver.SourceOverNearest | crates/labcolors-core/src/appearance_replay_tests.rs:161-175 | each byte is the integer nearest to the doubly rounded sum, halves going up |
| SourceOver.SourceOverBetween | crates/labcolors-core/src/appearance_replay_tests.rs:161-175 | through both roundings and the quantisation each channel lies between tint and backdrop |
| SourceOver.SourceOverMonotone | crates/labcolors-core/src/appearance_replay_tests.rs:161-175 | more alpha never moves a channel away from the tint |
| SourceOver.SourceOverEnds | crates/labcolors-core/src/appearance_replay_tests.rs:161-175 | transparent keeps the backdrop, opaque gives the tint, equal colours are fixed |
| SourceOver.NormalOracle | crates/labcolors-core/src/appearance_replay_tests.rs:245-253 | the result after every layer is the fold of the layers below and including it |
| SourceOver.AbsentOracle | crates/labcolors-core/src/appearance_replay_tests.rs:255-265 | resuming above the target gives the fold of the stack without the target |
| SourceOver.TransparentIsAbsent | crates/labcolors-core/src/appearance_replay_tests.rs:245-265 | removing a layer of alpha zero, of either sign, changes nothing |
| SourceOver.LaterOpaqueErases | crates/labcolors-core/src/appearance_replay_tests.rs:333-353 | below a later opaque layer, with and without the target look the same |
| CleanSetCodec.RunsRoundTrip | scripts/verify_clean_set_receipt.py:409-428 | the runs of a canonical column's expansion are the column: starts are exactly the change points |
| CleanSetCodec.ExpandRoundTrip | scripts/verify_clean_set_receipt.py:433-439 | the runs of a column of canonical cells form a canonical column that expands to it |
| CleanSetCodec.CanonicalUnique | scripts/verify_clean_set_receipt.py:421-424 | every set of values has one canonical interval, the empty set included |
| CleanSetCodec.AcceptedIsEncoding | scripts/verify_clean_set_receipt.py:385-428 | accepted bytes are the encoding of their columns, byte for byte |
| CleanSetCodec.EncodingIsAccepted | scripts/verify_clean_set_receipt.py:385-428 | every encoding of canonical columns is accepted and gives the columns back |
| CleanSetCodec.EncodingLayout | scripts/verify_clean_set_receipt.py:385-413 | the bytes of an encoding: magic and version, big-endian record offsets of the columns, three bytes for each record |
| CleanSetReplay.EncodeAfterDecode | scripts/verify_clean_set_receipt.py:385-439 | decoding to a table and encoding again gives the accepted bytes back |
| CleanSetReplay.DecodeAfterEncode | scripts/verify_clean_set_receipt.py:385-439 | encoding a table and decoding again gives the table back |
| CleanSetReplay.SameRawSameBytes | scripts/verify_clean_set_receipt.py:430-452 | two accepted codecs with the same raw table are the same bytes |
| CleanSetReplay.TotalIsCardinality | scripts/verify_clean_set_receipt.py:440-446 | the running total is the number of admitted colours among all 256^3 |
| CleanSetReplay.TotalsSplitColours | scripts/verify_clean_set_receipt.py:440-446 | admitted and rejected totals add up to the number of colours seen |
| CleanSetReplay.CheckColumn | scripts/verify_clean_set_receipt.py:411-427 | the record loop accepts exactly the canonical columns |
| CleanSetReplay.LookupRun | scripts/verify_clean_set_receipt.py:435-439 | the linear lookup finds the last run that starts at or before a red value |
| CleanSetReplay.DecodeCodec | scripts/verify_clean_set_receipt.py:385-452 | an answer exactly for accepted codecs that neither admit nor reject everything, with their raw bytes and the admitted count |
| SinkBatch.BatchAtomic | packages/colors/sink.js:139-180 | a batch that does not complete, its lease not lost before or in the try block, leaves presence, value and priority of every property as before, except where a restoring call throws |
| SinkBatch.BatchFrame | packages/colors/sink.js:125-180 | properties outside the batch are never touched, whatever the environment does, but for the own keys of a lease revoked before the batch begins |
| SinkBatch.BatchRevoked | packages/colors/sink.js:145-158 | entering the try block without the lease, or losing it there, ends with every batch key removed, and never with success |
| SinkBatch.StartRevocation | packages/colors/sink.js:133-158 | a lease revoked by the first ownership callback loses all its keys, and those of the batch if that is entered; success is reported exactly for an entered batch without keys |
| SinkBatch.EmptyBatchSucceedsRevoked | packages/colors/sink.js:133-151 | a concrete batch without keys that reports success on a lease revoked by its first callback |
| SinkBatch.RevocationExact | packages/colors/sink.js:133-203 | an owned key of a revoked lease is gone if and only if the revocation came before the batch, or in the try block of a batch with that key, or the key was not there before |
| SinkBatch.BatchDone | packages/colors/sink.js:139-151 | a completed batch has done every action |
| SinkBatch.CompletesIff | packages/colors/sink.js:128-151 | a batch reports success if and only if its try block is entered, with the lease or with nothing to do, and no round goes wrong |
| SinkBatch.FirstDisturbance | packages/colors/sink.js:141-176 | otherwise its outcome is that of the first round that goes wrong |
| SinkBatch.CommitIsDone | packages/colors/sink.js:237-252 | a completed full commit declares the snapshot and removes what else the lease owned; with diffFrom it declares the values that differ from it; nothing else changes |
| SinkBatch.PatchIsDone | packages/colors/sink.js:273-281 | a completed patch declares its strings, removes its other keys, and changes nothing else |
| SinkBatch.CommitShows | packages/colors/sink.js:237-252 | a completed full commit makes the style show the snapshot on every old and new key |
| SinkBatch.DiffCommitShowsExactly | packages/colors/sink.js:241-246 | with diffFrom it does so at a key if and only if the value there differs from diffFrom or the style showed it already |
| SinkBatch.DiffCommitLeavesKey | packages/colors/sink.js:241-246 | a concrete undisturbed commit with diffFrom that reports success and leaves a dropped key on the style |
| SinkBatch.CommitRevocationComplete | packages/colors/sink.js:133-158 | revocation before or in the try block of a commit leaves none of the keys owned or about to be owned |
| SinkBatch.CommitRevocationExact | packages/colors/sink.js:133-171 | a revoked commit leaves none of the keys owned if and only if no restoring call revoked it, or none was there before |
| SinkBatch.RollbackRevocationLeavesKeys | packages/colors/sink.js:161-171 | a concrete commit revoked by a restoring call, after which all keys of the revoked lease are on the style |
| SinkBatch.PatchRevocationExact | packages/colors/sink.js:265-283 | a revoked patch leaves none of the keys owned if and only if it was revoked before the batch, or none that it did not remove was there before |
| SinkBatch.PatchRevocationLeavesKey | packages/colors/sink.js:265-283 | a concrete patch whose revocation leaves an owned key behind |
| SinkOwnership.OwnershipExact | packages/colors/sink.js:100-123 | active leases of an element own disjoint keys, its set owns exactly their union, and it is registered if and only if it has one |
| SinkOwnership.RevokedKeepsValid | packages/colors/sink.js:182-203 | revoking keeps the ownership invariant |
| SinkOwnership.AttachedKeepsValid | packages/colors/sink.js:110-123 | attaching without a conflict keeps it |
| SinkOwnership.SwitchedKeepsValid | packages/colors/sink.js:254-258 | moving ownership after a commit keeps it |
| SinkOwnership.RunsStayValid | packages/colors/sink.js:100-286 | it holds in every state of every history from an empty registry, made of the moves that attach, commit and revoke are shown to take |
| SinkOwnership.RevokedStaysInactive | packages/colors/sink.js:182-187 | a revoked lease never becomes active again |
| OutputSink.Sink.Attach | packages/colors/sink.js:100-123 | a target without the full style surface is refused first; then a conflict if and only if a key is taken, with no trace; otherwise a lease that owns what the second pass over the keys yields |
| OutputSink.OwnsAllIff | packages/colors/sink.js:98-118 | a lease owns the whole initial set if and only if the keys can be read twice, or there are none |
| OutputSink.IteratorAttachOwnsNothing | packages/colors/sink.js:100-118 | a concrete attach with an iterator over one free key, whose lease owns nothing |
| OutputSink.Sink.Withdraw | packages/colors/sink.js:118-122 | a set without leases leaves the registry |
| OutputSink.Sink.RegisterKeys | packages/colors/sink.js:288-300 | all keys are checked before any is taken |
| OutputSink.Sink.Revoke | packages/colors/sink.js:182-203 | the lease leaves the registry at once; its keys leave the style unless a batch is being written |
| OutputSink.Sink.RestoreAll | packages/colors/sink.js:159-168 | the rollback loop restores every key whose call does not throw |
| OutputSink.Sink.RemoveAll | packages/colors/sink.js:152-158 | the clean-up loop removes every key whose call does not throw |
| OutputSink.Sink.WriteKeys | packages/colors/sink.js:140-149 | the try loop over the objects takes the specified steps, with or without the lease, and keeps the registry consistent |
| OutputSink.Sink.RunBatch | packages/colors/sink.js:125-180 | a whole batch on the objects is the specified batch, wherever the lease is revoked; aborted and reentrant calls change nothing |
| OutputSink.Sink.NoProblem | packages/colors/sink.js:224-234 | the commit checks pass if and only if every value is a string and every new key is free |
| OutputSink.Sink.ProblemIsFirst | packages/colors/sink.js:225-234 | a failing check reports the first bad key, its value before its owner |
| OutputSink.Sink.Commit | packages/colors/sink.js:220-259 | style, outcome and ownership after any commit: nothing moves before the checks pass or while the set is being written, success means the style of a completed commit, and keys move only with it |
| OutputSink.Sink.Patch | packages/colors/sink.js:265-283 | a patch writes owned keys only, nothing while the set is being written, and never changes ownership, except by losing the lease; success with the lease kept means the style of a completed patch |
| SnapshotLinks.FollowLink | scripts/mutation.py:847-889 | the work-list loop ends and accepts a link exactly when pathname resolution within the limit reaches an entry inside |
| SnapshotLinks.RunIsResolve | scripts/mutation.py:856-884 | putting a target in front of the pending components is resolving the link to its end first |
| SnapshotLinks.DotsChangeNothing | scripts/mutation.py:856-862 | an empty component or a dot before further components changes nothing |
| SnapshotLinks.FinalDotIsDirectory | scripts/mutation.py:856-884 | a dot or a slash at the end asks for a directory and changes nothing else |
| SnapshotLinks.AbsoluteNeverFollowed | scripts/mutation.py:851-878 | an absolute target is never followed, of the link itself or on the way |
| SnapshotLinks.RelativeIsFollowed | scripts/mutation.py:863-884 | a relative target is resolved to its end from the directory of its link, and then what follows it |
| SnapshotLinks.ReachesEntry | scripts/mutation.py:880-889 | what is reached is in the snapshot, and is a directory where more components follow |
| SnapshotLinks.CheckLinks | scripts/mutation.py:831-892 | all links are inside, or one that is not is named |
| SnapshotLinks.EntryDirectories | scripts/mutation.py:618-624 | exactly the proper nonempty prefixes of the entries' paths |
| SnapshotLinks.ImpliedDirectoriesClosed | scripts/mutation.py:618-624 | those directories make the snapshot prefix-closed, which the resolver relies on |
| SnapshotLinks.CostIsIntrinsic | scripts/mutation.py:868-873 | the expansions a resolution needs do not depend on how many it is allowed |
| SnapshotLinks.LimitIsOnCost | scripts/mutation.py:868-873 | a link is accepted if and only if unlimited resolution reaches an entry with at most 40 expansions |
| SnapshotLinks.AcceptedOpens | scripts/mutation.py:847-892 | accepted links are exactly those that open by their own path within 41 expansions |
| SnapshotLinks.CeilingIsOneHigher | scripts/mutation.py:864-873 | a chain of 41 links whose first link is accepted and does not open within 40 |
| UstarHeader.ParseOctalIff | scripts/inspect-npm-tarball.py:169-175 | a field reads as a number if and only if it is spaces, octal digits, then NULs and spaces |
| UstarHeader.DecodeTextIff | scripts/inspect-npm-tarball.py:178-185 | a text field is a text without NUL padded with NULs, and nothing else |
| UstarHeader.WrittenHeaderReads | scripts/inspect-npm-tarball.py:335-353 | a header written with any unread fields is accepted and gives its path and size back |
| UstarHeader.AcceptedIff | scripts/inspect-npm-tarball.py:331-362 | a header is accepted, with a size and a path, if and only if it is that of a regular file, byte by byte: padded texts, octal size and sum, type, no link, magic; its path is the name, or prefix, slash and name |
| UstarHeader.AcceptedIsWritten | scripts/inspect-npm-tarball.py:331-362 | an accepted header is a written one but for how its size and its sum are set in their fields |
| UstarScan.StandsAtIff | scripts/inspect-npm-tarball.py:367-375 | header, content and zero padding read piece by piece are one tile of the stream |
| UstarScan.ReadTile | scripts/inspect-npm-tarball.py:331-375 | a member is taken exactly when an acceptable tile stands at the offset |
| UstarScan.Scan | scripts/inspect-npm-tarball.py:313-390 | accepted streams are exactly the serialised archives of distinct members within the limits, and the answer is their members and total size |
| UstarScan.ArchiveUnique | scripts/inspect-npm-tarball.py:313-390 | a stream is tiled in one way at most |
| UstarScan.WrittenArchiveReads | scripts/inspect-npm-tarball.py:313-390 | a written archive of distinct members is accepted with exactly those members |
| ListScheduling.SumLoadsIsTotal | scripts/region_unittest_shard.py:63-69 | loads add up to the weight of all modules |
| ListScheduling.LoadBound | scripts/region_unittest_shard.py:67-69 | only its last module can push a shard above the average |
| ListScheduling.WithinTwice | scripts/region_unittest_shard.py:67-69 | least-loaded placement in any order is within 2 - 1/count of any assignment |
| ListScheduling.WithinFourThirds | scripts/region_unittest_shard.py:65-69 | placed heaviest first it is within 4/3 - 1/(3 count) of any assignment |
| ListScheduling.NoneIdle | scripts/region_unittest_shard.py:60-69 | with enough modules, none weightless, no shard stays empty |
| ShardPlan.Lightest | scripts/region_unittest_shard.py:67 | the first of the lightest shards |
| ShardPlan.PartitionModules | scripts/region_unittest_shard.py:57-74 | a plan exactly for a count between one and the number of distinct modules, each module on the first lightest shard in weight order |
| ShardPlan.UnmeasuredIsOneSecond | scripts/region_unittest_shard.py:65-69 | a module missing in the table is planned as one measured at a second |
| ShardPlan.PlacedInOrder | scripts/region_unittest_shard.py:65 | modules are placed by falling seconds, and by name among equals |
| ShardPlan.LexLeIff | scripts/region_unittest_shard.py:65 | names are ordered by their first difference, a prefix first |
| ShardPlan.PlanUnique | scripts/region_unittest_shard.py:57-74 | there is one plan for the same modules and table |
| ShardPlan.PlanPartitions | scripts/region_unittest_shard.py:71-74 | every module is in the plan exactly once, every shard sorted |
| ShardPlan.PlanNoneEmpty | scripts/region_unittest_shard.py:57-74 | no shard is empty |
| ShardPlan.PlanBalanced | scripts/region_unittest_shard.py:66-69 | two shards differ by at most the heaviest module, and none exceeds the average by more than its share of it |
| ShardPlan.PlanNearOptimal | scripts/region_unittest_shard.py:57-74 | the longest shard is within 4/3 - 1/(3 count) of the longest shard of any other assignment |

## Left out

- Q55Domain.Merge: the heap is a set of entries whose least one is taken, as the heap library promises; its array layout is not modelled.
- Q55Rows.WeightedBounds: intermediate fractions are not reduced before their powers are compared; reduction changes neither side's order.
- SourceOver.OracleAlphaIff: from 2^127 up the source shifts a mantissa into the sign bit of its integers and beyond; the model's numerators are unbounded there, and no alpha is that large.
- SinkBatch.PatchRevocationExact: speaks of the keys whose removal does not throw, as those whose removal throws stay behind in either case.
- SinkBatch.BatchAtomic: the keys whose restoring call throws are excepted; the source swallows those errors.
- OutputSink.Sink.Commit: the environment may abort, refuse or throw in any ownership callback, throw on either side of a style call, and revoke this lease in any callback, style call or restoring call; it does not attach, commit or revoke through another lease of the element in the middle of a batch, nor revoke while the snapshot is read.
- OutputSink.Sink.Attach: the keys are an iterable that starts over or an iterator that is used up; one that throws, or that yields other keys the second time, is not covered.
- SinkBatch.CommitShows: enumeration order, parsing and shorthand behaviour of real style declarations are not modelled; a snapshot that cannot be read coherently is one outcome of the environment.
- NeutralOracle.Oracle.ContrastPasses: profile parsing and the check that weights sum to one are left to the caller; the exponent is 12/5.
- UstarScan.Scan: which byte strings are UTF-8, path normalisation and the portable key are parameters; a member keeps its content instead of its digest.
- SnapshotLinks.CheckLinks: which of several offending links is named first depends on dictionary order and is left open.
- ShardPlan.PlanNoneEmpty: needs positive measured weights, as all entries of the table are.
- The signed 64-bit and unsigned 128-bit envelopes of the production kernels: bounds on fixed constants.
- The decimal row oracle, digests, receipts, JSON, profile parsing and command-line wiring: library calls and pinned values.
- The committed tables themselves (1536 rows, the codec bytes): finite data; the algorithms are proved for all tables.
- Git, file descriptors, gzip, subprocesses and the round-robin mutation slices: orchestration.
- The compare-and-set checks of `authority.rs`, audits and extractors: one comparison and one assignment each, with nothing to prove beyond the body.
