# A verified model of netcode

netcode is a sliding-window random linear network code. The encoder keeps a window of sources that have not been
acknowledged, and sends repairs, which are linear combinations of the window over a Galois field. The decoder strips
the sources it knows from each repair, decodes a source as soon as a repair encodes nothing else, and otherwise
inverts the matrix of coefficients to rebuild several lost sources at once. This project models the code that does
this and proves what it guarantees, over every run and for every field.

To check the project with Dafny 4.11, run `dafny verify dfyconfig.toml` in this directory.

## How it is organised

| file | what it holds |
|---|---|
| `Wrappers`, `Ids`, `Division` | options; sets of identifiers read in increasing order; quotients and remainders without `/` and `%` |
| `GaloisField`, `Gf16`, `Extension`, `Gf256` | a field of characteristic 2 as a record of operations with laws; GF(2^4), and GF(2^8) with bytes as elements, satisfy them |
| `ChosenCoefficients` | which coefficient the code computes, and which coefficients are equal |
| `LinearAlgebra`, `Elimination` | dot products, kernels, left inverses; what each row operation keeps |
| `SquareMatrix`, `InvertMatrix` | the flat buffer with its two index views; `invert`, in place |
| `Invertibility` | a matrix has a left inverse exactly when it has no kernel vector |
| `Dependence` | which rows of a matrix are combinations of others |
| `Symbols` | sources, repairs, and the equation a repair stands for |
| `DecoderModel` | one call of the decoder as functions on values |
| `Peeling` | what the recursion decodes when it looks the next missing source up by key |
| `SavedIterator` | the recursion as it is coded, with the iterator that it saves: when that iterator is erased, and that it computes the same otherwise |
| `Delivery`, `InOrderDelivery`, `NestedDecoding` | what the callback is given; when nothing is held back |
| `FullDecoding`, `Rebuilding` | rebuilding all missing sources from the inverted matrix |
| `DecoderInvariant`, `DecoderSteps`, `Permanence`, `AnyOrder` | what every call keeps, for packets in any order that meet the decoder's assertions and keep its saved iterators valid |
| `OrderedArrival` | what more holds when packets arrive in the order in which they were sent |
| `DecoderCounters` | the decoder's counters, over any sequence of packets |
| `DecoderLoops`, `Decoder` | `decoder.cc` as a class that changes its containers in place |
| `EncoderModel`, `Encoder`, `Cadence` | the window, repairs, rate and counters, on values and in place |
| `Rates`, `EncoderRuns` | the rate that an acknowledgement sets, and the counters over any series of calls |
| `StripAndRecover` | one repair from encoder to decoder |
| `Transmission`, `Runs`, `Progress`, `Recovery` | encoder, lossy ordered channel, decoder and unreliable acknowledgements: every run, the next step always exists, and a run in which a lost source is rebuilt |
| `PacketFormat`, `PacketLayout`, `PacketBytes`, `Packetizer`, `Wire` | bytes: identifier lists, packets position by position, reader and writer loops, the dispatch on both sides |
| `ByteRuns` | the same system with bytes on the way in both directions: each of its runs is a run with packets |
| `Acknowledging` | what an acknowledgement leaves in the window |
| `GivenUp`, `Redundancy` | what is lost with the repair that a failed full decoding gives up, and what happens from then on |
| `Limits`, `LostSources` | where the guarantees end: exact conditions, and what becomes of a source that is passed over |
| `Processing`, `Repeats` | packets in any order for which the code is defined: what each of them hands over, and when that was handed over before |
| `Shapes`, `Overtaking` | short runs from the empty decoder, for every field, that fail the conditions of `Limits`, `SavedIterator`, `LostSources` and `Repeats` |
| `PairRuns` | two lost sources and two repairs of them, from the empty decoder, for every field |
| `NibbleRows`, `NibbleRuns` | runs in GF(2^4), with the coefficients that the decoder computes: an independent repair is given up, and a lost source comes back |

The methods of `Decoder`, `Encoder`, `SquareMatrix`, `Packetizer` and the functions that `DecoderModel`,
`EncoderModel` and `PacketFormat` define share their names: each method is proved to compute its function, and the
theorems are about the functions. Every `assert` of `decoder.cc` stands as an `assert` or a precondition in `Decoder`,
and `Runs.DecoderNeverFails` shows that these preconditions hold in every reachable state.

A symbol is a sequence of field elements; a size is encoded as a short vector of elements (`enc` and `dec` of the
field record), so that scaling a size is scaling a vector. A repair is right (`Symbols.RepairOk`) when size and symbol
together are, at every position, the sum of coefficient times source over the identifiers it lists. Two quantities
exist for the statements only: `truth`, what was committed under each identifier, and `log`, what the callback was given.

## Where the code does less than one would expect

- The recursion takes the iterator to the next missing source before the nested call, which may erase the entry that it
  points to (`decoder.cc:308`). As coded, it reads an erased iterator exactly when two sources that follow each other
  among the missing ones are both decodable (`SavedIterator.AddSavedExactly`), and is the scan by key otherwise.
  `Overtaking.IteratorErased` is such an input: with a window of two sources, the repair of 1 and 2 overtakes that of
  0 and 1, and both overtake source 1. With ordered arrival it never happens (`Runs.NextIsAcceptable`).
- A source may arrive that some held repair encodes alone although another repair encodes it too. The assertion at
  `decoder.cc:397` then fails, and without it an empty repair remains. The links survive exactly when there is no such
  repair (`Limits.UnlinkExactly`); `Overtaking.HeldAlone` is a run of two repairs and a source that leads there.
- A repair with a single unknown source deletes its missing entry before the other repairs are looked at
  (`decoder.cc:140`). The links stay consistent exactly when no other held repair encodes that source
  (`Limits.DegreeOneExactly`); in `Overtaking.StillListed` the repair of 0 and 1 overtakes the repair of 0, and keeps
  listing the stored source 0. Ordered arrival excludes both this and the case before.
- Every useful repair resets the bound of what is outdated (`decoder.cc:346`), also downwards. What was outdated stays so
  exactly when the repair does not start below (`Limits.OutdatedStaysExactly`); otherwise a source that was handed over
  and erased may become missing again and be handed over a second time. Without order a packet hands over exactly what it
  newly stores (`Repeats.HandedOverExactly`), so the promise never to repeat is kept, now and for later, exactly when all
  that was handed over is stored or outdated once the packet has dropped what it outdates (`Repeats.PromisesKeptExactly`;
  `Repeats.RepairForgetsExactly` says which repairs break that). In order, a source that was handed over is
  handed over again exactly when it is queued and a repair outdates it (`Repeats.HandedOverAgainExactly`).
  `Overtaking.HandedOverTwice` is a run of five packets, with a window of two, that hands source 0 over twice, in both
  modes and for every field.
- A source that arrives late and completes everything between the first missing source and itself is stored but
  neither handed over nor queued, because of the strict comparison at `decoder.cc:332`. This happens exactly when
  `NestedDecoding.PassedOver` holds (`NestedDecoding.CompleteUnlessPassedOver`), and such a source is lost: over
  every sequence of packets whose assertions hold and whose saved iterators stay valid it is not handed over, as long as
  no repair that lists it is processed after it has been erased (`LostSources.StaysLost`), which no repair does that
  starts at or above what is outdated (`LostSources.NotBelowNotAsked`). `Overtaking.LateSourceIsLost` is a run of two
  packets in the wrong order, for any two sources, after which the second is lost. The condition is needed: in
  `NibbleRuns.LateSourceComesBack`, which goes on from there in GF(2^4), two delayed repairs make the decoder rebuild
  that source, and the next one hands it over.
- The index that `invert` reports on failure is always that of the last row (`invert_matrix.cc:40-44`), so the repair that
  full decoding gives up as faulty (`decoder.cc:450-467`) is the one with the largest identifier. Nothing is lost with it
  exactly when its row is a combination of the others: then, and only then, any data that fit the other repairs fit it
  too (`GivenUp.GivenUpExactly`). For a repair that arrives with the largest identifier this is so whenever the repairs
  held before were independent (`Redundancy.RepairLosesNothing`). If they were dependent, the new repair is given up
  whatever it says (`GivenUp.ArrivalExactly`), and so is every later one that would complete them, until something is
  outdated (`Redundancy.StaysStuck`). `NibbleRuns.IndependentIsGivenUp` leads there: coefficients of w = 4 repeat with
  the identifier of the repair modulo 15, so repairs 0 and 15 of three lost sources are dependent, and repair 16, which
  is not, is given up. Nothing arrives out of order there.
- The coefficients of a repair repeat with its identifier and with that of the source, modulo the number of nonzero
  elements (`ChosenCoefficients.CoefficientsRepeat`), and a repair may give two sources the same one
  (`ChosenCoefficients.EqualExactly`). Two repairs of two lost sources bring both back exactly when the cross products of
  their coefficients differ (`PairRuns.TwoRepairs`); with w = 8 the first two repairs do (`PairRuns.FirstTwoComeBack`).
- An identifier list survives being written and read exactly when no gap exceeds 65535 and it has at most 65535 elements
  once encoded (`PacketFormat.SurvivesExactlyWhenEncodable`); otherwise its largest identifier is lost, and another one may
  take its place: an acknowledgement of two sources further apart makes the encoder give up a source between them that the
  decoder may never have had (`Wire.FalselyAcknowledged`). The window size bounds the number of sources, not the gaps
  between them: `Wire.NarrowFits` gives a sufficient distance.
- A repair packet ends with a second copy of its symbol that no reader uses (`packetizer.hh:114-118`).
- The window is trimmed when its size equals the maximum (`encoder.hh:258`): after the maximum was set below the current
  size it grows with every commit (`Cadence.WindowAfter`).

With ordered arrival a source that is received is always newer than anything a held repair encodes, so that the
recursion of `add_source_recursive` has nothing to decode there (`OrderedArrival.NewSourceStep`). It works when packets are
late; `Peeling` and `AnyOrder` say what it then computes as long as the iterators that it saves stay valid, and
`SavedIterator` when they do.

## Model

| member | source | states |
|---|---|---|
| `GaloisField.Field.CoefficientNonZero` | netcode/detail/galois_field.hh:141-157 | the coefficient of a source in a repair is never zero, whatever the identifiers wrap to in 32 bits, for each of the widths 4, 8, 16 and 32 |
| `ChosenCoefficients.CoefficientIs` | netcode/detail/galois_field.hh:141-157 | for w in 4, 8, 16 and identifiers of any size, in 32-bit arithmetic, the coefficient is the element numbered (r + s + 2)(r + 1), modulo 15, 255 or 65535, plus one |
| `ChosenCoefficients.WideCoefficientIs` | netcode/detail/galois_field.hh:145-151 | for w = 32 it is the product itself, with zero replaced by one |
| `ChosenCoefficients.EqualExactly` | netcode/detail/galois_field.hh:152-156 | a repair gives two sources the same coefficient if and only if 2^w - 1 divides its number, from one, times their distance |
| `ChosenCoefficients.CoefficientsRepeat` | netcode/detail/galois_field.hh:152-156 | the coefficients repeat every 2^w - 1 repairs and every 2^w - 1 sources |
| `ChosenCoefficients.PairSingularExactly` | netcode/detail/galois_field.hh:141-157 | two repairs of the same two sources are dependent if and only if the cross products of their coefficients are equal |
| `GaloisField.Field.AtScale` | netcode/detail/galois_field.hh:60-75 | multiplying a region multiplies it at every position, also past its end where it reads as zero |
| `GaloisField.Field.AtAddScaled` | netcode/detail/galois_field.hh:77-92 | multiply-and-add of a shorter region adds the product at every position |
| `GaloisField.Field.AddCancels` | netcode/detail/decoder.cc:402-407 | adding the same thing twice removes it: why stripping a source undoes encoding it |
| `GaloisField.Field.MulInv` | netcode/detail/galois_field.hh:132-139 | the inverse undoes a nonzero coefficient, and is itself nonzero |
| `Gf16.IsField` | netcode/detail/galois_field.hh:34-44 | GF(2^4) satisfies every law that the rest assumes of a field, including lossless sizes up to 65535 |
| `Gf256.IsField` | netcode/detail/galois_field.hh:34-44 | GF(2^8), as an extension of GF(2^4), with bytes as elements and sizes of two bytes satisfies them too |
| `LinearAlgebra.LeftInverseSolves` | netcode/detail/decoder.cc:480-534 | if L A = I then A x = b gives L b = x |
| `LinearAlgebra.SingularHasNoLeftInverse` | netcode/detail/invert_matrix.cc:35-44 | a matrix with a nonzero kernel vector has no left inverse |
| `LinearAlgebra.LeftInverseRowNonZero` | netcode/detail/decoder.cc:509-518 | the asserted first nonzero coefficient exists in every row of the inverse |
| `Elimination.SwapTracks` | netcode/detail/invert_matrix.cc:46-56 | swapping the same rows of both matrices keeps inv A = mat and the kernel |
| `Elimination.ScaleTracks` | netcode/detail/invert_matrix.cc:59-69 | so does scaling a row by the inverse of its pivot, which becomes one |
| `Elimination.CombineTracks` | netcode/detail/invert_matrix.cc:71-100 | so does adding a multiple of the pivot row below it, which clears the cell |
| `Elimination.UnitRowClearsOneCell` | netcode/detail/invert_matrix.cc:109-118 | in the second phase writing one cell of mat is the whole row operation |
| `Elimination.NoPivotIsSingular` | netcode/detail/invert_matrix.cc:35-44 | a column without pivot yields a nonzero kernel vector, by back-substitution |
| `SquareMatrix.SquareMatrix.Get` | netcode/detail/square_matrix.hh:54-61 | reading the flat buffer at r * n + c is reading row r, column c |
| `SquareMatrix.SquareMatrix.Put` | netcode/detail/square_matrix.hh:30-36 | the (row, col) accessor writes the cell that the flat view calls (col, row), and no other |
| `SquareMatrix.SquareMatrix.SwapRows` | netcode/detail/invert_matrix.cc:46-56 | exchanges two rows in place and keeps all others |
| `SquareMatrix.SquareMatrix.ScaleRow` | netcode/detail/invert_matrix.cc:60-68 | scales one row in place and keeps all others |
| `SquareMatrix.SquareMatrix.CombineRows` | netcode/detail/invert_matrix.cc:87-97 | adds a multiple of one row to another in place and keeps all others |
| `SquareMatrix.SquareMatrix.XorRows` | netcode/detail/invert_matrix.cc:77-86 | the shortcut for coefficient one does the same as the multiplication |
| `InvertMatrix.BringPivot` | netcode/detail/invert_matrix.cc:32-57 | brings a nonzero pivot to the diagonal, or reports n - 1 exactly with a proof that the original matrix is singular |
| `InvertMatrix.ClearColumn` | netcode/detail/invert_matrix.cc:71-100 | the column below a unit pivot becomes zero, the columns before stay triangular |
| `InvertMatrix.ClearAbove` | netcode/detail/invert_matrix.cc:107-119 | clears a cell above a unit row, in mat by one write and in inv by a row operation |
| `InvertMatrix.SetIdentity` | netcode/detail/invert_matrix.cc:18-24 | the inverse starts as the identity, through the accessor that stores column by column |
| `InvertMatrix.Triangulate` | netcode/detail/invert_matrix.cc:26-101 | the first phase reaches a unit upper triangular matrix with inv A = mat, or shows that A is singular |
| `InvertMatrix.Diagonalize` | netcode/detail/invert_matrix.cc:103-123 | the second phase reaches the identity with inv A = mat |
| `InvertMatrix.Invert` | netcode/detail/invert_matrix.cc:10-128 | fails exactly on matrices with a nonzero kernel vector, then always with index n - 1; otherwise inv A = I for the original A |
| `Invertibility.NonSingularHasLeftInverse` | netcode/detail/invert_matrix.cc:26-127 | the two phases of the elimination, on values: without a kernel vector they end with a left inverse |
| `Invertibility.SingularExactly` | netcode/detail/invert_matrix.cc:35-44 | exactly one of the two outcomes of an inversion is possible for any square matrix |
| `Dependence.CombinesExactly` | netcode/detail/decoder.cc:429-443 | a row of coefficients is a combination of others if and only if every vector that they send to zero is sent to zero by it |
| `Dependence.SingularExactlyDependent` | netcode/detail/invert_matrix.cc:35-44 | inversion fails if and only if the rows are dependent |
| `Dependence.SingularByLastRow` | netcode/detail/invert_matrix.cc:35-44 | if and only if the row at the reported index is a combination of the others, or these are dependent without it |
| `Symbols.CombRemove` | netcode/detail/encoder.cc:40-63 | the order in which sources are combined does not matter |
| `Symbols.StripOk` | netcode/detail/decoder.cc:182-191 | stripping a true source from a right repair leaves a right repair of the others |
| `Symbols.RightRepairIsUnique` | netcode/detail/decoder.cc:393-408 | a right repair is determined by its identifier, its sources and the length of its symbol |
| `Symbols.StripExactly` | netcode/detail/decoder.cc:393-408 | so what stripping leaves is the one right repair of the others with a symbol of that length |
| `Symbols.CreateOk` | netcode/detail/decoder.cc:156-178 | a right repair of one source gives back exactly its identifier, size and data |
| `EncoderModel.SymbolIsLongest` | netcode/detail/encoder.cc:24-48 | the symbol of a repair is as long as the longest source of the window |
| `EncoderModel.MakeRepairExactly` | netcode/detail/encoder.cc:15-64 | the repair that is built is the one right repair of exactly the window that is as long as its longest source |
| `StripAndRecover.StripAllOk` | netcode/detail/decoder.cc:393-408 | stripping any distinct sources in any order leaves a right repair of the rest |
| `StripAndRecover.StripAndRecover` | netcode/detail/decoder.cc:156-191 | from the repair of any window, removing all sources but one in any order and creating a source returns exactly that one |
| `Peeling.UnlinkKeepsLinks` | netcode/detail/decoder.cc:265-277 | removing the new source from the repairs that encode it keeps repairs and missing sources converse |
| `SavedIterator.ScanSavedExactly` | netcode/detail/decoder.cc:279-325 | the scan as coded reads an erased iterator if and only if two decodable sources are neighbours among the missing ones, and otherwise is the scan by key |
| `SavedIterator.AddSavedExactly` | netcode/detail/decoder.cc:250-337 | so does the whole recursion, if and only if that is so once the new source has been removed from the repairs; otherwise it is the recursion by key |
| `SavedIterator.ScanSavedPeels` | netcode/detail/decoder.cc:279-325 | the nested scans as coded, wherever they are defined, decode exactly the missing sources whose only repair encodes nothing else and use up exactly those repairs |
| `SavedIterator.AddSavedEffect` | netcode/detail/decoder.cc:250-337 | the recursion as coded then stores exactly the new source and every source that this makes decodable, and leaves nothing decodable |
| `Delivery.FlushInOrder` | netcode/detail/decoder.cc:570-591 | flushing hands over true data in strictly increasing order and leaves only later sources queued |
| `Delivery.AnnounceDelivers` | netcode/detail/decoder.cc:252-263 | announcing a new source keeps the log true, free of repetitions, and ordered if asked, with the source counted as pending |
| `Delivery.DeliverDelivers` | netcode/detail/decoder.cc:537-558 | delivering a source rebuilt by full decoding does too |
| `Delivery.ReleaseInOrder` | netcode/detail/decoder.cc:370-388 | outdating hands queued sources over in increasing order before it erases them |
| `DecoderInvariant.AddGood` | netcode/detail/decoder.cc:250-337 | the recursion keeps the decoder's invariant at every depth: links, true data, delivery |
| `DecoderInvariant.GiveUpGood` | netcode/detail/decoder.cc:448-468 | giving up a repair after a failed inversion keeps the invariant |
| `DecoderInvariant.DropOutdatedGood` | netcode/detail/decoder.cc:341-389 | outdating keeps the invariant when it does not move back, and sets the bound |
| `GivenUp.GivenUpExactly` | netcode/detail/decoder.cc:448-468 | whatever data fit the repairs that are kept fit the one that is given up if and only if its row is a combination of theirs |
| `GivenUp.FailsExactly` | netcode/detail/decoder.cc:444-448 | on a repair with the largest identifier inversion fails if and only if those held before are dependent or it is a combination of them |
| `GivenUp.ArrivalExactly` | netcode/detail/decoder.cc:412-468 | so such a repair is given up exactly then, and the decoder keeps what it had |
| `GivenUp.KeptIndependent` | netcode/detail/decoder.cc:448-468 | whatever started full decoding, when the repairs that are kept are independent the one that is given up is a combination of them |
| `GivenUp.NothingIsLost` | netcode/detail/decoder.cc:448-468 | when those held before are independent, whatever fits them fits the one that is given up |
| `Redundancy.RepairLosesNothing` | netcode/detail/decoder.cc:54-152 | the same for a packet: repairs arriving in order and held repairs independent, one that is given up says nothing that the decoder does not still hold, known sources included |
| `Redundancy.StaysStuck` | netcode/detail/decoder.cc:448-468 | once they are dependent, any number of later repairs that would complete them are given up, and only the counter changes |
| `NibbleRuns.IndependentIsGivenUp` | netcode/detail/decoder.cc:450-467 | from the empty decoder, w = 4: repairs 0, 15 and 16 of three lost sources; 16 is independent of the others and is given up |
| `FullDecoding.RowSum` | netcode/detail/decoder.cc:429-443 | a row of the coefficient matrix times the missing sources is the combination that the repair holds |
| `FullDecoding.Solution` | netcode/detail/decoder.cc:480-534 | row k of the inverse picks missing source k out of the repairs, at every position |
| `FullDecoding.RebuiltOk` | netcode/detail/decoder.cc:483-534 | the rebuilt source is the committed one in size and data, although the repairs' symbols differ in length |
| `FullDecoding.SolveGood` | netcode/detail/decoder.cc:470-566 | full decoding stores exactly all missing sources, true, delivers them in order, and leaves no repair and no missing source |
| `DecoderSteps.AddCount` | netcode/detail/decoder.cc:279-325 | every decoded source uses up one repair, and a lone repair with a lone missing source never remains |
| `DecoderSteps.FullStepGood` | netcode/detail/decoder.cc:412-566 | full decoding, successful or not, restores the balance: no repairs or fewer than missing sources |
| `DecoderSteps.SourceStepGood` | netcode/detail/decoder.cc:33-50 | a true source, at any time and in any order, keeps invariant and balance and ends up stored or outdated |
| `DecoderSteps.StripKnownOk` | netcode/detail/decoder.cc:100-114 | removing all known sources from an incoming repair leaves a right repair of the unknown ones |
| `DecoderSteps.DegreeOneGood` | netcode/detail/decoder.cc:133-149 | a repair that is alone with its single unknown source decodes it and keeps invariant and balance |
| `DecoderSteps.HigherDegreeGood` | netcode/detail/decoder.cc:100-151 | a repair with more unknown sources is linked and full decoding is attempted only with equal counts |
| `DecoderSteps.RepairStepGood` | netcode/detail/decoder.cc:54-152 | a right repair that does not start below what is outdated keeps invariant and balance |
| `DecoderCounters.UselessExactly` | netcode/detail/decoder.cc:54-89 | a repair is dropped without a trace if it is held or all its sources are outdated; otherwise it counts as useless if and only if all its sources are stored |
| `DecoderCounters.PacketCounts` | netcode/detail/decoder.cc:33-152 | for any packet in any order: every newly stored source was received or counted as decoded; every repair taken in, or held and not outdated, is held, was used for one decoded source, counted as failed or as useless |
| `DecoderCounters.RunCounts` | netcode/detail/decoder.cc:33-152 | so over any sequence of packets from the empty decoder: the counter of useless repairs is the number of those, received and decoded sources are those stored or erased, and all repairs that were looked at are accounted for |
| `PairRuns.TwoRepairs` | netcode/detail/decoder.cc:412-566 | from the empty decoder, two repairs of two lost sources bring both back if their coefficients determine them, and otherwise the second is given up |
| `PairRuns.BothComeBack` | netcode/detail/decoder.cc:412-566 | with their data |
| `PairRuns.FirstTwoComeBack` | netcode/detail/decoder.cc:412-566 | with w = 8, repairs 0 and 1 of sources 0 and 1 do |
| `InOrderDelivery.FlushComplete` | netcode/detail/decoder.cc:570-591 | after a flush the first missing source is not stored and the queue holds exactly the stored ones above it |
| `InOrderDelivery.DeliverComplete` | netcode/detail/decoder.cc:537-558 | delivering a rebuilt source keeps delivery complete |
| `InOrderDelivery.ReleaseComplete` | netcode/detail/decoder.cc:370-388 | outdating hands over every stored source that it erases, and leaves delivery complete |
| `InOrderDelivery.DropOutdatedComplete` | netcode/detail/decoder.cc:341-389 | nothing is erased that was not handed over, in both modes |
| `NestedDecoding.AddLogs` | netcode/detail/decoder.cc:250-337 | the recursion takes nothing back: the log is extended and the first missing source never moves back |
| `NestedDecoding.ScanComplete` | netcode/detail/decoder.cc:279-325 | no source decoded on the way is passed over: the scan works in increasing order |
| `NestedDecoding.MeetsExactlyWhen` | netcode/detail/decoder.cc:279-336 | the decoded sources advance the first missing one to exactly the new source if and only if all between them are stored or decodable |
| `NestedDecoding.CompleteUnlessPassedOver` | netcode/detail/decoder.cc:327-336 | delivery stays complete exactly when the new source is not passed over |
| `Limits.UnlinkExactly` | netcode/detail/decoder.cc:265-277 | the links survive the removal of a source exactly when no held repair encodes it alone (the assertion at line 397) |
| `Limits.DegreeOneExactly` | netcode/detail/decoder.cc:133-149 | the links survive a degree-one arrival exactly when no other held repair encodes its source |
| `Limits.OutdatedStaysExactly` | netcode/detail/decoder.cc:341-346 | what was outdated stays outdated exactly when the repair does not start below it |
| `Limits.PassedOverIsStuck` | netcode/detail/decoder.cc:327-336 | a source passed over is stored and not queued while the decoder waits for it |
| `Repeats.HandedOverExactly` | netcode/detail/decoder.cc:33-152 | without order, a packet in any order makes the callback get exactly the sources that it newly stores, each once |
| `Repeats.PromisesKeptExactly` | netcode/detail/decoder.cc:33-152 | so nothing is handed over twice, and all that was handed over stays stored or outdated, if and only if that is so once the packet has dropped what it outdates |
| `Repeats.RepairForgetsExactly` | netcode/detail/decoder.cc:341-389 | which a repair that is looked at keeps if and only if every source handed over is still stored or older than the first source of the repair |
| `Repeats.ForgottenComesAgain` | netcode/detail/decoder.cc:33-50 | a source that was handed over before is handed over again when it arrives, if and only if it is neither outdated nor stored |
| `Repeats.OlderHandedOverExactly` | netcode/detail/decoder.cc:341-389 | in order, one older than the source that is waited for is handed over if and only if it is queued and a repair outdates it |
| `Repeats.HandedOverAgainExactly` | netcode/detail/decoder.cc:33-152 | so in order, over every sequence of packets for which the code is defined, an identifier that was handed over is handed over again if and only if it is queued and a repair outdates it |
| `LostSources.StaysLost` | netcode/detail/decoder.cc:33-152 | a source that is passed over is not handed over by any sequence of packets, in any order, for which the code is defined, unless a repair that lists it is processed while it is not stored |
| `LostSources.NotBelowNotAsked` | netcode/detail/decoder.cc:341-389 | a repair that does not start below what is outdated never does that |
| `LostSources.PassedOverIsLost` | netcode/detail/decoder.cc:327-336 | a source that is passed over is in the state from which this holds |
| `LostSources.QueuedExactly` | netcode/detail/decoder.cc:537-558 | full decoding queues a source older than the one that is waited for if and only if it rebuilds it |
| `LostSources.QueuedIsHandedOver` | netcode/detail/decoder.cc:370-388 | whatever is queued is handed over when it is outdated, however late |
| `Overtaking.IteratorErased` | netcode/detail/decoder.cc:308-311 | after two repairs of windows of two in the wrong order, the source between them makes the scan read an erased iterator |
| `Overtaking.HeldAlone` | netcode/detail/decoder.cc:393-399 | after two repairs that overtake their sources and one of these sources, the next one is encoded alone by one repair and with others by another: the assertion fails and the links break |
| `Overtaking.StillListed` | netcode/detail/decoder.cc:133-149 | after two repairs in the wrong order a held repair lists a stored source |
| `Overtaking.LateSourceIsLost` | netcode/detail/decoder.cc:250-389 | a repair of two sources overtaking the second: both end up stored, and over every continuation for which the code is defined and that does not ask for it again the second is not handed over |
| `Overtaking.RebuiltAgain` | netcode/detail/decoder.cc:341-346 | with a window of two, a delayed repair moves the bound back, a source handed over and erased is missing again, and full decoding is attempted on it |
| `Overtaking.HandedOverTwice` | netcode/detail/decoder.cc:412-566 | it is rebuilt and handed over a second time, for every field, at once without order and when outdated in order |
| `NibbleRuns.LateSourceComesBack` | netcode/detail/decoder.cc:341-389 | six packets, w = 4: a source is lost; two delayed repairs ask for it again, and it is rebuilt, queued and handed over |
| `OrderedArrival.NewSourceStep` | netcode/detail/decoder.cc:33-50 | with ordered arrival a new source is stored and delivered, and nothing else changes |
| `OrderedArrival.NewSourceOrderly` | netcode/detail/decoder.cc:33-50 | a source newer than all that is known keeps the orderly state: nested repairs of degree two or more, complete delivery |
| `OrderedArrival.NewRepairMayArrive` | netcode/detail/decoder.cc:54-149 | a repair that carries a later window meets the conditions of the decoder's assertions |
| `OrderedArrival.NewRepairOrderly` | netcode/detail/decoder.cc:54-152 | and keeps the orderly state |
| `Permanence.SourceStepKeeps` | netcode/detail/decoder.cc:33-50 | receiving a source extends the log and forgets no stored source |
| `Permanence.RepairStepKeeps` | netcode/detail/decoder.cc:54-152 | receiving a repair extends the log, and a stored source stays stored or has been handed over |
| `AnyOrder.ArrivalsGood` | netcode/detail/decoder.cc:33-152 | for packets in any order that meet the assertions and keep the saved iterators valid, the invariant and the balance hold after each |
| `AnyOrder.ArrivalsDeliver` | netcode/detail/decoder.cc:33-152 | then the callback gets committed data only, no identifier twice, in increasing order if asked, with everything below the first missing source stored |
| `Decoder.Decoder.constructor` | netcode/detail/decoder.cc:12-29 | starts in the initial state of the model |
| `Decoder.Decoder.FlushOrderedSources` | netcode/detail/decoder.cc:570-591 | the loop over the queue computes Flush; its assertion holds |
| `Decoder.Decoder.CreateSourceFromRepair` | netcode/detail/decoder.cc:156-178 | computes Create for a right repair of one source without reading past its symbol |
| `Decoder.Decoder.UnlinkSource` | netcode/detail/decoder.cc:265-277 | the loop over the linked repairs computes Unlink; every assertion in it holds |
| `Decoder.Decoder.AddSourceRecursive` | netcode/detail/decoder.cc:250-337 | the recursive method computes Add whenever the saved iterators stay valid; its assertions hold at every depth, and it terminates |
| `Decoder.Decoder.ScanMissing` | netcode/detail/decoder.cc:279-325 | the loop, with the iterator saved across the recursion inside, computes the scan as coded; wherever that is defined, the iterator it reads is valid |
| `Decoder.Decoder.TryDecode` | netcode/detail/decoder.cc:284-312 | one round of that loop; the assertions at lines 296 and 298 hold |
| `Decoder.Decoder.DropOldRepairs` | netcode/detail/decoder.cc:345-368 | the erase-while-iterating loop computes DropRepairs; its assertion holds |
| `Decoder.Decoder.HandOverBelow` | netcode/detail/decoder.cc:370-382 | the loop over the queue computes HandOver |
| `Decoder.Decoder.DropOutdatedData` | netcode/detail/decoder.cc:341-389 | computes DropOutdated |
| `Decoder.Decoder.RebuildSource` | netcode/detail/decoder.cc:483-534 | computes the source that row k of the inverse picks |
| `Decoder.Decoder.StoreRebuilt` | netcode/detail/decoder.cc:537-558 | computes Deliver; the source was not stored before |
| `Decoder.Decoder.DropFaulty` | netcode/detail/decoder.cc:448-468 | advancing by the reported index erases the last repair and its links |
| `Decoder.Decoder.RebuildAll` | netcode/detail/decoder.cc:470-566 | the loop over the missing sources computes Solve |
| `Decoder.Decoder.AttemptFullDecoding` | netcode/detail/decoder.cc:412-566 | performs a full decoding step; entered with equal counts of at least two, as asserted |
| `Decoder.Decoder.ReceiveSource` | netcode/detail/decoder.cc:33-50 | performs SourceStep |
| `Decoder.Decoder.StoreRepair` | netcode/detail/decoder.cc:91-131 | the reverse loop over the identifiers strips the known sources and links the others |
| `Decoder.Decoder.ReceiveRepair` | netcode/detail/decoder.cc:54-152 | performs RepairStep; all assertions hold |
| `Decoder.Decoder.UseUp` | netcode/detail/decoder.cc:133-149 | decodes the single source of a repair and triggers the recursion |
| `Rebuilding.RebuildSize` | netcode/detail/decoder.cc:483-497 | the loop over the repairs computes the encoded size as a dot product |
| `Rebuilding.FirstCoefficient` | netcode/detail/decoder.cc:506-518 | finds the first nonzero coefficient; the assertion at line 518 holds |
| `Rebuilding.RebuildData` | netcode/detail/decoder.cc:520-534 | the loop over the repairs computes every position as a dot product, reading no symbol past its end |
| `Rebuilding.FillCoefficients` | netcode/detail/decoder.cc:429-443 | the loops fill one row of the flat view per repair |
| `EncoderModel.MakeRepairOk` | netcode/detail/encoder.cc:15-64 | a repair encodes exactly the window and is the combination of the committed sources in it |
| `EncoderModel.UnacknowledgedKeeps` | netcode/detail/source_list.hh:32-60 | erasing acknowledged sources keeps exactly the others, in order |
| `EncoderModel.SlideKeeps` | netcode/encoder.hh:255-264 | a commit adds the new source at the end and gives up at most the oldest one |
| `EncoderModel.AdaptedRateBounds` | netcode/encoder.hh:301-313 | whatever an acknowledgement reports, the adapted rate is between 1 and 50 |
| `Rates.AdaptedRateExactly` | netcode/encoder.hh:301-313 | the rate is 50 when nothing was sent or less than a hundredth was lost, and otherwise the least k with 2 k lost >= sent |
| `Rates.RateRises` | netcode/encoder.hh:335-344 | it never falls when more is received |
| `EncoderRuns.AckChanges` | netcode/encoder.hh:299-315 | an acknowledgement is counted, restarts the count of sent packets, sets the rate in adaptive mode only, and changes no other setting or counter |
| `EncoderRuns.CountersAgree` | netcode/encoder.hh:161-333 | over any series of commits, forced repairs, acknowledgements and changes of settings, every counter is the number of what it counts, and repairs are numbered one after the other |
| `EncoderRuns.RateFollowsLoss` | netcode/encoder.hh:301-314 | so the rate follows the share that is missing of the packets sent since the acknowledgement before |
| `Encoder.SourceList.Erase` | netcode/detail/source_list.hh:32-60 | the loop with two cursors computes the filter, whatever identifiers are listed |
| `Encoder.BuildRepair` | netcode/detail/encoder.cc:15-64 | the loop over the window with its growing buffer computes MakeRepair |
| `Encoder.Encoder.GenerateRepair` | netcode/encoder.hh:161-169 | sends the repair of the window and updates identifiers and counters |
| `Encoder.Encoder.Commit` | netcode/encoder.hh:253-285 | slides the window, sends the source or a repair in its place, and a repair at every multiple of the rate |
| `Encoder.Encoder.Notify` | netcode/encoder.hh:287-318 | adapts the rate, resets the count of sent packets and erases what was acknowledged |
| `Cadence.CommitsSend` | netcode/encoder.hh:253-285 | n commits send n sources in order and a repair per multiple of the rate, numbered one after the other, and every counter agrees; without systematic mode repairs take the place of the sources |
| `Cadence.Cadence` | netcode/encoder.hh:278-282 | from the start, n systematic commits send the sources 0 to n - 1 and exactly n / rate repairs |
| `Cadence.SlideBounded` | netcode/encoder.hh:258-264 | a commit leaves the window within its maximum exactly when it was so before |
| `Cadence.WindowAfter` | netcode/encoder.hh:258-264 | the size of the window after any number of commits, also when it exceeds its maximum |
| `Cadence.RatesStayPositive` | netcode/encoder.hh:301-313 | any sequence of acknowledgements keeps the modulus positive, and within 1..50 when adaptive |
| `Transmission.CommitInv` | netcode/encoder.hh:253-285 | committing keeps the invariant of the whole system |
| `Transmission.ForceInv` | netcode/encoder.hh:161-169 | so does forcing a repair |
| `Transmission.LoseInv` | netcode/detail/decoder.cc:33-152 | so does losing any packet |
| `Transmission.DeliverInv` | netcode/detail/decoder.cc:33-152 | so does delivering the oldest packet, with acknowledgements sent while the decoder works |
| `Transmission.AcksOnlyInv` | netcode/decoder.hh:212-229 | so does sending or losing an acknowledgement |
| `Transmission.DeliverAckInv` | netcode/encoder.hh:287-318 | so does the arrival of any acknowledgement ever sent, late, repeated or reordered |
| `Transmission.ConfigureInv` | netcode/encoder.hh:180-242 | so does changing rate, window size and modes |
| `Acknowledging.AckForgets` | netcode/encoder.hh:299-315 | an acknowledgement that arrives makes the window keep exactly what it does not list, in order, and the decoder is done with all that it lists |
| `Acknowledging.PresentAck` | netcode/decoder.hh:212-228 | that of the present decoder leaves exactly the sources that the decoder does not hold |
| `Acknowledging.PresentAckBytes` | netcode/decoder.hh:212-228 | also when it travels as bytes, with the rate set from the count they carry |
| `Runs.RunInv` | netcode/encoder.hh:253-318 | the invariant holds in every state of every run |
| `Runs.NextIsAcceptable` | netcode/detail/decoder.cc:57-152 | the next packet meets every assertion of the decoder |
| `Runs.RunAdvances` | netcode/detail/decoder.cc:33-152 | over any run: nothing committed or handed over changes, no stored source is dropped before it is handed over, and the window never moves back |
| `Runs.DeliveredIsCommitted` | netcode/detail/decoder.cc:33-152 | over any run, all that the decoder stores or hands over is what was committed under that identifier, never twice, and in increasing order if asked |
| `Runs.HeldIsDelivered` | netcode/detail/decoder.cc:250-389 | over any run, a source once held is still held or has been handed over, and only sources above the first missing one wait |
| `Runs.NothingIsForgotten` | netcode/detail/source_list.hh:32-60 | a committed source that is newer than the window's start and not in it was received; acknowledgements are true |
| `Runs.DecoderNeverFails` | netcode/detail/decoder.cc:426-427 | in every reachable state links are converse, repairs are fewer than missing sources, each has degree two or more, and the next packet is acceptable |
| `Runs.WindowsAreNested` | netcode/encoder.hh:253-333 | what a held repair misses and the next repair does not start above is listed by the next repair |
| `Runs.WindowBounded` | netcode/encoder.hh:217-224 | the window stays within its maximum if that is never set below its current size |
| `Progress.FullStepExists` | netcode/detail/decoder.cc:412-566 | full decoding always has an outcome |
| `Progress.ReceiveExists` | netcode/detail/decoder.cc:33-152 | the decoder has a next state for every acceptable packet |
| `Progress.DeliveryIsPossible` | netcode/detail/decoder.cc:33-152 | in every reachable state with a packet on its way, delivering it is a step of the system: the model never gets stuck |
| `Recovery.LostSourceIsRecovered` | netcode/detail/decoder.cc:54-149 | for any field and any two sources there is a run in which the first is lost and the callback is given both: the hypotheses of the theorems about runs can be met |
| `PacketFormat.Get16Put` | netcode/detail/packetizer.hh:225-257 | a 16-bit integer is read back modulo 65536 and nothing else is consumed |
| `PacketFormat.Get32Put` | netcode/detail/packetizer.hh:225-257 | a 32-bit integer is read back modulo 2^32 |
| `PacketFormat.ExpandRuns` | netcode/detail/packetizer.hh:280-296 | expanding the runs gives the differences back, each cut to 16 bits |
| `PacketFormat.RunsAreMaximal` | netcode/detail/packetizer.hh:280-296 | runs are of 1 to 255 elements, equal neighbours only follow a full run, and there are no more runs than differences |
| `PacketFormat.PutIdsLength` | netcode/detail/packetizer.hh:298-308 | a written list has six bytes and three per run, with at most n - 1 runs |
| `PacketFormat.SumsOfGaps` | netcode/detail/packetizer.hh:275-345 | partial sums undo adjacent differences |
| `PacketFormat.ReadBack` | netcode/detail/packetizer.hh:262-347 | what reading a written list yields for every increasing list, whether it fits the format or not |
| `PacketFormat.LastIsLost` | netcode/detail/packetizer.hh:262-347 | a list that does not fit is read without its largest identifier |
| `PacketFormat.SurvivesExactlyWhenEncodable` | netcode/detail/packetizer.hh:262-347 | a list is read back, whatever follows it and with exactly its bytes consumed, if and only if its identifiers fit in 32 bits, every gap is at most 65535 and it has at most 65535 encoded elements |
| `PacketLayout.SourceRoundTrip` | netcode/detail/packetizer.hh:165-213 | a source is read back exactly when its identifier fits in 32 bits and its size in 16; its symbol is at offset 7 |
| `PacketLayout.RepairRoundTrip` | netcode/detail/packetizer.hh:90-163 | a repair is read back exactly when each of its four fields fits, with its symbol at offset 7 and the second copy left unread |
| `PacketLayout.AckRoundTrip` | netcode/detail/packetizer.hh:46-88 | an acknowledgement is read back exactly when its count fits in 16 bits and its list can be carried |
| `PacketLayout.GetIdsExtends` | netcode/detail/packetizer.hh:311-347 | reading a list depends on nothing past what it consumes |
| `PacketLayout.GetRepairExtends` | netcode/detail/packetizer.hh:124-163 | nor does reading a repair |
| `PacketLayout.TruncatedSourceOverflows` | netcode/detail/packetizer.hh:205-209 | a source packet cut anywhere is refused |
| `PacketLayout.TruncatedRepairOverflows` | netcode/detail/packetizer.hh:143-158 | a repair packet cut short is refused exactly when the cut is before its unread tail |
| `PacketLayout.TruncatedAckOverflows` | netcode/detail/packetizer.hh:74-84 | an acknowledgement cut anywhere is refused |
| `PacketBytes.SourceBytes` | netcode/detail/packetizer.hh:165-183 | the bytes of a source packet, position by position: 2, identifier, size, symbol |
| `PacketBytes.RepairBytes` | netcode/detail/packetizer.hh:90-122 | those of a repair packet: 1, identifier, size, symbol, list, encoded size, and the size and the symbol once more |
| `PacketBytes.AckBytesAre` | netcode/detail/packetizer.hh:46-61 | those of an acknowledgement: 0, count, list |
| `PacketBytes.IdsBytes` | netcode/detail/packetizer.hh:259-309 | those of a list: the count, the first identifier, three bytes per run |
| `PacketBytes.PairsReadExactly` | netcode/detail/packetizer.hh:331-343 | any bytes are read as the pairs that would be written as these bytes |
| `PacketBytes.IdsReadExactly` | netcode/detail/packetizer.hh:311-350 | for any bytes, when a list can be read from them and which one |
| `PacketBytes.SumsAre` | netcode/detail/packetizer.hh:345-347 | each identifier read is the first one and a sum of differences, in 32 bits |
| `PacketBytes.SourceReadExactly` | netcode/detail/packetizer.hh:185-213 | for any bytes, when a source can be read from them and which one |
| `PacketBytes.RepairReadExactly` | netcode/detail/packetizer.hh:124-163 | the same for a repair |
| `PacketBytes.AckReadExactly` | netcode/detail/packetizer.hh:63-88 | the same for an acknowledgement |
| `Packetizer.Cursor.Read8` | netcode/detail/packetizer.hh:222-240 | refuses when no byte is left; otherwise consumed plus remaining stays the packet's size |
| `Packetizer.Cursor.Read16` | netcode/detail/packetizer.hh:222-240 | the same for two bytes, big-endian |
| `Packetizer.Cursor.Read32` | netcode/detail/packetizer.hh:222-240 | the same for four bytes |
| `Packetizer.Cursor.ReadSymbol` | netcode/detail/packetizer.hh:143-149 | skips a symbol only if it is there |
| `Packetizer.Packetizer.ComputeDifferences` | netcode/detail/packetizer.hh:274-275 | fills the buffer with the first identifier and the gaps |
| `Packetizer.Packetizer.EncodeRuns` | netcode/detail/packetizer.hh:277-296 | the nested loops compute the runs |
| `Packetizer.Packetizer.WriteIds` | netcode/detail/packetizer.hh:259-309 | sends the bytes of the list |
| `Packetizer.Packetizer.WriteSource` | netcode/detail/packetizer.hh:165-183 | hands one complete source packet to the handler |
| `Packetizer.Packetizer.WriteRepair` | netcode/detail/packetizer.hh:90-122 | hands one complete repair packet to the handler |
| `Packetizer.Packetizer.WriteAck` | netcode/detail/packetizer.hh:46-61 | hands one complete acknowledgement to the handler |
| `Packetizer.Packetizer.ReadDifferences` | netcode/detail/packetizer.hh:331-343 | the loops over pairs and runs expand the differences, or overflow |
| `Packetizer.Packetizer.PartialSums` | netcode/detail/packetizer.hh:345-347 | the loop inserts every partial sum, in 32 bits |
| `Packetizer.Packetizer.ReadIds` | netcode/detail/packetizer.hh:311-350 | reads a list from any bytes as specified, or overflows |
| `Packetizer.Packetizer.ReadSource` | netcode/detail/packetizer.hh:185-213 | reads a source from any bytes and reports how many were read, or overflows |
| `Packetizer.Packetizer.ReadRepair` | netcode/detail/packetizer.hh:124-163 | the same for a repair |
| `Packetizer.Packetizer.ReadAck` | netcode/detail/packetizer.hh:63-88 | the same for an acknowledgement |
| `Wire.NarrowFits` | netcode/detail/packetizer.hh:290-299 | identifiers less than 65535 apart can always be written |
| `Wire.DispatchExactly` | netcode/decoder.hh:88-122 | among all bytes the decoder takes exactly those that start with 1 and read as a repair or start with 2 and read as a source, and refuses the kind of all others |
| `Wire.AckDispatchExactly` | netcode/encoder.hh:291-300 | the encoder takes exactly those that start with 0 and read as an acknowledgement |
| `Wire.KindOf` | netcode/detail/packet_type.hh:11-11 | a written repair starts with 1, a written source with 2 |
| `Wire.NotForTheSender` | netcode/detail/packet_type.hh:17-37 | so neither side takes what it has sent |
| `Wire.SourceSurvives` | netcode/decoder.hh:112-119 | a source becomes bytes and comes out of the dispatch as the same source, exactly when it fits |
| `Wire.RepairSurvives` | netcode/decoder.hh:103-110 | so does a repair with a size of two bytes |
| `Wire.SurvivesExactly` | netcode/decoder.hh:98-122 | so does any packet: what is sent arrives as it was, if and only if the format can carry it |
| `Wire.AckSurvivesExactly` | netcode/detail/packetizer.hh:46-88 | the same of acknowledgements |
| `Wire.FalselyAcknowledged` | netcode/detail/packetizer.hh:262-347 | an acknowledgement of two sources more than 65535 apart is read as one of the first and of another between them, which the encoder gives up, unless the low 16 bits of the distance are zero |
| `Wire.RepairIsSendable` | netcode/detail/encoder.cc:15-64 | the repair of a window whose identifiers are less than 65535 apart can be carried |
| `Wire.CommitIsSendable` | netcode/encoder.hh:253-285 | so can all that a commit sends while the window is so |
| `ByteRuns.NextCarries` | netcode/encoder.hh:253-333 | every step of the system with bytes on the way is a step of the system with packets |
| `ByteRuns.ByteRunIsRun` | netcode/decoder.hh:98-122 | every run with bytes is a run with packets: the same encoder and decoder states throughout |
| `ByteRuns.BytesDeliver` | netcode/decoder.hh:98-122 | over any run with bytes, all that the callback gets is what was committed, never twice, in increasing order if asked, and is never taken back |
| `ByteRuns.BytesKeepGoing` | netcode/encoder.hh:253-333 | in every state of such a run the oldest packet and any acknowledgement can be read, and whatever lists close identifiers can be sent |
| `ByteRuns.BytesAreAField` | netcode/detail/galois_field.hh:94-130 | there is a field that these runs speak of, in which a size is encoded as the integer that is written |

## Left out

- Transmission.DeliverInv: the channel carries packets; `ByteRuns` has the system with bytes for w = 8 and shows that its runs are among these.
- Transmission.DeliverAckInv: an acknowledgement arrives as it was sent; one with a gap above 65535 does not (`Wire.FalselyAcknowledged`), and is not a step of `ByteRuns` either.
- Transmission.LoseInv: the channel may lose but neither reorders nor repeats; outside of this the code does not keep the claims of `Runs`, and `AnyOrder`, `SavedIterator`, `Limits`, `LostSources` and `Overtaking` say what remains.
- Runs.WindowBounded: states the bound under the condition that the maximum is not set below the current size, without which it fails (`Cadence.WindowAfter`).
- Wire.SurvivesExactly: speaks of fields whose elements are bytes and whose sizes are two of them (w = 8); for the other widths symbols are not split into bytes here.
- Gf256.IsField: the field is a quadratic extension of GF(2^4), isomorphic to that of gf_complete but with other names for its elements.
- Gf16.IsField: for w = 4 a symbol is a sequence of half bytes here and a size counts them, while the code counts bytes and encodes that number; `dec(enc(n)) == n` is therefore about another encoding than the one of `multiply_size`.
- EncoderModel.AdaptedRateBounds: over the reals; rounding of `double` is not modelled.
- Rates.AdaptedRateExactly: over the reals too; in `double` the rate may differ by one where the exact quotient is a whole number.
- Wire.DispatchExactly: an empty packet, which the code excludes by an assertion, counts as too short.
- The source and repair identifiers of encoder and decoder are unbounded; wrap-around after 2^32 commits is not modelled (the coefficient and the packet format are modelled in 32 bits, and a run with bytes ends there).
- The inner workings of gf_complete, alignment and buffers; a size counts field elements, and `enc` and `dec` stand for the conversion of a 16-bit size, which is lossless for w in {4, 8, 16}.
- w = 32, where `multiply_size` truncates (`galois_field.hh:118`), except for its coefficients.
- Once a saved iterator has been erased, what the code does is undefined: the methods require that it is not, and nothing is said of the other case.
- Reused buffers and moved-from packets: the queue of ordered sources holds identifiers in place of pointers to stored sources, and repairs, sources and links are maps from identifiers.
- When acknowledgements are sent: any state may send one, also while a packet is processed; timers and thresholds (`decoder.hh:230-305`) are not modelled.
- Retransmission of lost sources, which the library does not do, and therefore liveness: nothing here says that a lost source is eventually rebuilt.
- When reading throws, the counters that were incremented just before (`encoder.hh:299`, `decoder.hh:101-110`) stay so; the model has no state after an exception.
- C bindings, dispatch over handler types, statistics other than the counters named above, packet dumps, tools and examples.
