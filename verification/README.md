# Models and proofs

A robot's video link and the part of dlib it carries: what the code promises, stated on a model of
the code and proved. The model is in the code's own form: arrays and records are changed in place,
objects are classes, loops are loops; each is proved against a specification, and the promises are
lemmas about the specifications.

| subject | modules |
|---|---|
| Join-tree inference (`bayes_utils.h`) | `Tables`, `Trees`, `Schedule`, `Messages`, `Joint`, `CliqueMarginals`, `LeafRemoval`, `Subtrees`, `JoinTrees`, `Counters`, `CliqueTables`, `InitialJoint`, `ConditionalSums`, `NoSaturation`, `Inference`, `InferenceExample` |
| Facts shared by several parts | `Basics` |
| Multi-precision integers (`bigint_kernel_1`, `bigint_kernel_2`) | `Digits`, `Records`, `LongHelpers`, `LongArithmetic`, `Complex`, `FftSpec`, `FftLoops`, `FftMultiply`, `Handles`, `HandleRuns`, `Decimal` |
| Sliding window (`Server.java`, `sliding_window.py`) | `Windows`, `WindowRuns`, `WindowLimits`, `PythonWindows`, `PythonRuns`, `PythonReceivers`, `PythonReceiverRuns` |
| Sorting (`sort.h`) | `Sorting`, `HeapSorting`, `QuickSorting` |
| Base64 (`base64_kernel_1.cpp`) | `Base64`, `Base64Lines`, `Base64Format`, `Base64Codec` |
| Serialization (`serialize.h`, `float_details.h`) | `PackedIntegers`, `PackedFormat`, `Serialization`, `SerializationFormat`, `FloatDetails` |

The main results, hardest first:

- **Inference is exact.** `Inference.Posterior`: the program's answer for a node is its posterior
  distribution. The proof runs through the whole program: the clique tables multiply to the joint
  distribution (`InitialJoint`); the schedule cannot get stuck and sends 2(n-1) messages
  (`Schedule`, `JoinTrees`); every message keeps the quotient of clique and separator tables, zero
  entries included, and calibrates its edge (`Messages`, `Joint`); a calibrated tree holds marginals
  (`LeafRemoval`); and the addition that saturates at one does so exactly if the initial tables say
  so, and never when no row of a conditional table sums to more than one (`Subtrees`, `JoinTrees`,
  `ConditionalSums`, `NoSaturation`).
- **The fast product is the slow one.** The in-place FFT of kernel 2 and the carry loop behind it
  give the same normal form as shift-and-add, which gives lhs * rhs.
- **Handles behave like numbers.** Any run of operators on shared records ends with the words of
  the numbers that an interpreter on naturals computes, and reference counts are exact. Numbers are
  printed and read, one to a line or in columns, as their decimal text (`Decimal`).
- **The window protocol** keeps its promises in every run over a network that may lose, repeat,
  reorder and hold packets back for any time if and only if no event is harmful, which is said in
  terms of numbers and slots; nothing within the age bound is. Runs from the start show that the
  harm happens: a packet delivered twice, a packet lost for good, a window that is too large
  (`WindowLimits`). The Python receiver loses packets on a network that merely reorders: its runs
  keep the promises if and only if every packet is passed on exactly when it is new, which is said
  in terms of numbers and slots, and within the age bound of true numbers alone
  (`PythonReceiverRuns`).
- **Introsort** sorts under any strict weak order within logarithmically many quicksort levels.
- **Base64, integers and containers** read back what was written. The text is pinned from the
  alphabet and the order of the bits up (`Base64Format`), the bytes of integers and containers one
  by one (`PackedFormat`, `SerializationFormat`); what was cut short is refused, and whatever is
  read from any bytes is a value of its type.

`dafny verify dfyconfig.toml` checks everything.

## Model

| member | source | states |
|---|---|---|
| Inference.Posterior | python_ffmpeg_interface/dlib/bayes_utils/bayes_utils.h:1224-1272 | For every Bayesian network (acyclic, conditional tables filled out with probabilities) and every join tree of it in which each family lies in a clique: if the initial tables and the joint distribution say that no sum will be capped at one, the vector returned for a node holds, value by value, the sum of the joint distribution over all assignments with that value and the evidence, over the sum over all assignments with the evidence, and is undefined if and only if that is zero. They say so whenever the rows of the conditional tables do not sum to more than one; capped or not, the vector is defined when the evidence is possible, its entries are not negative and sum to one. With nothing capped, a node that is evidence gets one for its value and zero for all others |
| InitialJoint.DistributionIs | python_ffmpeg_interface/dlib/bayes_utils/bayes_utils.h:1430-1469 | What the joint distribution is, in terms of the conditional tables: zero for an assignment that contradicts the evidence, and for every other the product of one entry for each node, at its value and those of its parents |
| Inference.EvidenceIsCertain | python_ffmpeg_interface/dlib/bayes_utils/bayes_utils.h:1428-1444 | The distribution of an evidence node is one for its value and zero for all others |
| Inference.NormalisedSum | python_ffmpeg_interface/dlib/bayes_utils/bayes_utils.h:442-455 | The entries of a normalised table, in order, are not negative and sum to one |
| InferenceExample.CoinWithoutEvidence | python_ffmpeg_interface/dlib/bayes_utils/bayes_utils.h:1224-1272 | For a network of one node with two values the distribution is its own row |
| InferenceExample.CoinThatShowsHeads | python_ffmpeg_interface/dlib/bayes_utils/bayes_utils.h:1224-1272 | With evidence it is all on that value, and not defined if the value has probability zero |
| Inference.CreateJoinTree | python_ffmpeg_interface/dlib/bayes_utils/bayes_utils.h:1363-1572 | No sum is capped at one if and only if, in terms of the initial tables alone, those below each edge and all of them together sum to at most one over the edge; then every clique's table ends as the exact marginal of the joint distribution (cut down to the evidence) on its clique. It is so if no row sums to more than one. Exactly 2(n-1) messages were sent; no table is zero everywhere when the evidence is possible, capped or not |
| Inference.InitialTablesUnique | python_ffmpeg_interface/dlib/bayes_utils/bayes_utils.h:1383-1493 | The initialisation can leave only one list of tables, so a condition on it can be checked on the network and its join tree before the call |
| Inference.AllSaySomething | python_ffmpeg_interface/dlib/bayes_utils/bayes_utils.h:1303-1356 | As long as the joint distribution is not zero everywhere no clique table is, at any point of the message passing, even if sums were capped |
| Inference.EveryJoinTreeHasParents | python_ffmpeg_interface/dlib/graph_utils/graph_utils.h:1156-1219 | Any connected graph without cycles, with the path condition, all nodes and every family in a clique, is a join tree in the sense of the other results |
| LeafRemoval.CliqueTablesAreMarginals | python_ffmpeg_interface/dlib/bayes_utils/bayes_utils.h:1363-1378 | In any calibrated tree with the path condition whose tables still multiply to the joint function, every clique table is the marginal of the joint function on its clique (proved by removing leaves; zero separators included) |
| NoSaturation.NetworkIsBounded | python_ffmpeg_interface/dlib/bayes_utils/bayes_utils.h:320-345 | The initial tables of any Bayesian network whose rows sum to at most one bound every message sum by one, whatever clique a conditional table was assigned to: the capped addition of add_probability never fires |
| Subtrees.FirstMessageBounded | python_ffmpeg_interface/dlib/bayes_utils/bayes_utils.h:1527-1545 | The first message of a node sums up exactly the initial tables below it: as long as nothing was capped it is at most one if and only if their sums are |
| Subtrees.AnswerBounded | python_ffmpeg_interface/dlib/bayes_utils/bayes_utils.h:1546-1567 | A later message is a marginal of the whole joint function: as long as nothing was capped it is at most one if and only if the sums of the joint function over the edge are |
| Subtrees.RootSumsUp | python_ffmpeg_interface/dlib/bayes_utils/bayes_utils.h:1527-1567 | When everything on one side has been heard, the table of the node is the marginal of what the tables on that side said at the start |
| ConditionalSums.EliminateAll | python_ffmpeg_interface/dlib/bayes_utils/bayes_utils.h:1067-1105 | Over any set of nodes whose parents are in the set or fixed, the products of conditional probabilities sum to at most one (rows sum to at most one, parents ordered) |
| NoSaturation.OwnNode | python_ffmpeg_interface/dlib/bayes_utils/bayes_utils.h:1449-1468 | A node that occurs only below an edge has its conditional table in a clique below that edge |
| JoinTrees.JoinTree.Propagate | python_ffmpeg_interface/dlib/bayes_utils/bayes_utils.h:1496-1570 | On every tree and for every choice of remove_any the message loop ends, sends every directed edge exactly one message (2(n-1) in all), leaves every edge calibrated unless a sum was above one, and keeps the joint function at every full assignment. On a join tree over all variables none is above one if and only if the start tables say so |
| JoinTrees.JoinTree.PassMessage | python_ffmpeg_interface/dlib/bayes_utils/bayes_utils.h:1303-1356 | One message: the edge gets the capped marginal of the sender; the receiver is multiplied by new over old; both written in place |
| JoinTrees.JoinTree.SendFirst | python_ffmpeg_interface/dlib/bayes_utils/bayes_utils.h:1529-1545 | The first message of a node keeps the whole invariant; every destroy is called on a member |
| JoinTrees.JoinTree.SendOn | python_ffmpeg_interface/dlib/bayes_utils/bayes_utils.h:1546-1567 | A later message (also of the root) keeps the whole invariant; every destroy is called on a member |
| JoinTrees.Finished | python_ffmpeg_interface/dlib/bayes_utils/bayes_utils.h:1520-1570 | With nothing left to send every edge is calibrated and every directed edge is in the log once; that no sum was above one is then a condition on the start tables |
| JoinTrees.MessageSum | python_ffmpeg_interface/dlib/bayes_utils/bayes_utils.h:1527-1567 | As long as no sum was above one, that of the next message is what the start tables say |
| Messages.MessageKeepsEdges | python_ffmpeg_interface/dlib/bayes_utils/bayes_utils.h:1303-1356 | A message keeps the state of every edge: empty before any message, the capped marginal of the only sender, a marginal of both ends after both; entries stay in [0, 1] |
| Messages.Calibrates | python_ffmpeg_interface/dlib/bayes_utils/bayes_utils.h:1320-1349 | After the answer over an edge both ends have the stored table as their marginal, zero entries included |
| Messages.ReceiverProbabilities | python_ffmpeg_interface/dlib/bayes_utils/bayes_utils.h:1322-1349 | Multiplying by new over old keeps every entry of the receiver in [0, 1] |
| Joint.MessageKeepsJoint | python_ffmpeg_interface/dlib/bayes_utils/bayes_utils.h:1322-1353 | At every full assignment a message keeps (product of clique tables) = (joint function)(product of separator tables), and a separator entry is zero only where the joint function is |
| Tables.Marginalize | python_ffmpeg_interface/dlib/bayes_utils/bayes_utils.h:391-415 | marginalize: for entries in [0, 1] the result is the sum over each fibre, capped at one |
| Tables.AddProbability | python_ffmpeg_interface/dlib/bayes_utils/bayes_utils.h:320-345 | add_probability: the entry plus p, capped at one; a new entry takes p as it is |
| Schedule.MessageAllowed | python_ffmpeg_interface/dlib/bayes_utils/bayes_utils.h:1527-1567 | Whenever a node may send to a neighbour it has heard from all others, the receiver has sent to nobody else, and both bookkeeping records of the message are there to be struck out |
| Schedule.MessageKeeps | python_ffmpeg_interface/dlib/bayes_utils/bayes_utils.h:1527-1567 | A message keeps the bookkeeping invariant of both arrays of sets |
| Schedule.FirstGoesUp | python_ffmpeg_interface/dlib/bayes_utils/bayes_utils.h:1529-1534 | The one neighbour a node has not heard from, when it sends first, is its parent |
| Schedule.SomeoneCanSend | python_ffmpeg_interface/dlib/bayes_utils/bayes_utils.h:1520-1570 | No deadlock: while any message is unsent some node can send |
| Trees.EveryTreeHasParents | python_ffmpeg_interface/dlib/graph_utils/graph_utils.h:1176-1181 | Every connected undirected graph without cycles, which is what is_join_tree asks for, is a tree with root 0, parents and depths as the schedule's invariant uses them |
| Trees.TreesAreGraphs | python_ffmpeg_interface/dlib/graph_utils/graph_utils.h:1176-1181 | And the other way round: every such tree is undirected, connected and without cycles, so the two notions are one |
| Schedule.LogInTree | python_ffmpeg_interface/dlib/bayes_utils/bayes_utils.h:1520-1570 | Messages without repetition number at most 2(n-1), and exactly that when all are sent |
| CliqueTables.FillCliques | python_ffmpeg_interface/dlib/bayes_utils/bayes_utils.h:1383-1493 | After initialisation every node is assigned to the first clique that holds it and its parents, and every clique table is complete with each entry the product of the conditionals assigned to it, or zero against the evidence |
| CliqueTables.FillClique | python_ffmpeg_interface/dlib/bayes_utils/bayes_utils.h:1410-1490 | One clique: all assignments of its nodes visited, entries and assignments as specified |
| CliqueTables.CheckEvidence | python_ffmpeg_interface/dlib/bayes_utils/bayes_utils.h:1428-1444 | The evidence loop for one assignment: 0 if a node of the clique has a value other than the evidence says, 1 if none has |
| InitialJoint.CliquesMultiplyToDistribution | python_ffmpeg_interface/dlib/bayes_utils/bayes_utils.h:1386-1493 | With every family in some clique, the product of the clique tables at a full assignment is the product of all conditionals if it agrees with the evidence, and 0 otherwise |
| InitialJoint.AllCovered | python_ffmpeg_interface/dlib/bayes_utils/bayes_utils.h:1449-1456 | Then each node is assigned to exactly one clique, the first with its family |
| Inference.InitialTablesOk | python_ffmpeg_interface/dlib/bayes_utils/bayes_utils.h:1425-1468 | Initial tables are complete and hold probabilities |
| Counters.First | python_ffmpeg_interface/dlib/bayes_utils/bayes_utils.h:973-991 | node_first_parent_assignment: the first assignment of the count |
| Counters.Next | python_ffmpeg_interface/dlib/bayes_utils/bayes_utils.h:997-1061 | node_next_parent_assignment: true with the next assignment of the count while there is one; false, back at the first, after the last |
| Counters.FirstFastest | python_ffmpeg_interface/dlib/bayes_utils/bayes_utils.h:1040-1061 | The first variable counts fastest: one more of it, if it has one, is the next place |
| Counters.Agree | python_ffmpeg_interface/dlib/bayes_utils/bayes_utils.h:1040-1061 | Different assignments have different places in the count: none is visited twice |
| Counters.AtRankCounts | python_ffmpeg_interface/dlib/bayes_utils/bayes_utils.h:1040-1061 | Every place below the product of the radices is the place of an assignment: none is left out |
| CliqueTables.CptFilledOut | python_ffmpeg_interface/dlib/bayes_utils/bayes_utils.h:1067-1105 | node_cpt_filled_out answers true if and only if, for every assignment of the parents, there is an entry for every value, none is negative, and they sum to no less than 0.99999 and no more than 1.00001 |
| Inference.SmallestClique | python_ffmpeg_interface/dlib/bayes_utils/bayes_utils.h:1231-1250 | The first of the smallest cliques that hold a node |
| Inference.Probability | python_ffmpeg_interface/dlib/bayes_utils/bayes_utils.h:1253-1272 | probability: with cliques that are marginals of the joint function, and no sum above one, the normalised marginal of one clique is the distribution of the node under it, undefined if and only if the joint function is zero |
| Inference.Normalize | python_ffmpeg_interface/dlib/bayes_utils/bayes_utils.h:442-455 | normalize: every entry over the sum of all, undefined if and only if that is zero |
| FftSpec.ConvolutionTheorem | python_ffmpeg_interface/dlib/bigint/bigint_kernel_2.cpp:1836-1885 | For every power-of-two length the transform turns cyclic convolution into pointwise product, in its own output order |
| FftSpec.ForwardEvaluates | python_ffmpeg_interface/dlib/bigint/bigint_kernel_2.cpp:1836-1885 | Output p is the polynomial of the input at the root whose exponent is the bit reversal of p |
| FftSpec.BitReversalInjective | python_ffmpeg_interface/dlib/bigint/bigint_kernel_2.cpp:1836-1885 | The output order is a permutation: no two places share a point |
| FftSpec.PointIsPower | python_ffmpeg_interface/dlib/bigint/bigint_kernel_2.cpp:1836-1885 | The points are the powers of the root at bit-reversed exponents |
| FftSpec.FirstRoots | python_ffmpeg_interface/dlib/bigint/bigint_kernel_2.cpp:1849-1851 | The roots for lengths 2 and 4 are exactly -1 and the imaginary unit or its opposite |
| FftMultiply.ConjugateInverts | python_ffmpeg_interface/dlib/bigint/bigint_kernel_2.cpp:1902-1904 | The conjugate of a root is its inverse exactly on the unit circle |
| FftSpec.StageUndone | python_ffmpeg_interface/dlib/bigint/bigint_kernel_2.cpp:1889-1939 | One inverse stage undoes the matching forward stage up to a factor 2 |
| FftSpec.InverseOfForward | python_ffmpeg_interface/dlib/bigint/bigint_kernel_2.cpp:1889-1939 | ifft after fft gives the input times the length |
| FftSpec.FftMultiplies | python_ffmpeg_interface/dlib/bigint/bigint_kernel_2.cpp:1504-1520 | ifft(fft(a) fft(b)) / len is the cyclic convolution of a and b |
| FftLoops.Fft | python_ffmpeg_interface/dlib/bigint/bigint_kernel_2.cpp:1836-1885 | The in-place butterfly loops compute the transform, for every power-of-two length |
| FftLoops.Ifft | python_ffmpeg_interface/dlib/bigint/bigint_kernel_2.cpp:1889-1939 | The in-place inverse loops compute the inverse transform without the scale |
| FftLoops.ForwardPassRefines | python_ffmpeg_interface/dlib/bigint/bigint_kernel_2.cpp:1867-1884 | A pass leaves blocks of half the length to be transformed with the square of the root |
| FftLoops.InversePassRefines | python_ffmpeg_interface/dlib/bigint/bigint_kernel_2.cpp:1920-1938 | An inverse pass joins transformed blocks in pairs |
| FftMultiply.PaddedProduct | python_ffmpeg_interface/dlib/bigint/bigint_kernel_2.cpp:1468-1502 | With padding to the chosen size the cyclic convolution never wraps and carries the value of the product |
| FftMultiply.TransformSize | python_ffmpeg_interface/dlib/bigint/bigint_kernel_2.cpp:1468-1472 | size is the least power of two that is at least 2(l + r), and the 32-bit doubling does not wrap on the way |
| FftMultiply.SizeFitsExactly | python_ffmpeg_interface/dlib/bigint/bigint_kernel_2.cpp:1468-1472 | The 32-bit loop for size ends with room for the product if and only if l + r <= 2^30; between that and 2^31 it never ends, beyond it ends too early |
| FftMultiply.PropagateCarries | python_ffmpeg_interface/dlib/bigint/bigint_kernel_2.cpp:1523-1572 | From exact coefficients the carry loop writes the normalised words of their value; the final carry is 0; the 64-bit sums do not wrap |
| FftMultiply.FftMul | python_ffmpeg_interface/dlib/bigint/bigint_kernel_2.cpp:1464-1571 | The FFT branch computes lhs * rhs in normal form |
| FftMultiply.LongMul2 | python_ffmpeg_interface/dlib/bigint/bigint_kernel_2.cpp:1405-1571 | long_mul of kernel 2, both branches: lhs * rhs in normal form |
| Digits.NormalUnique | python_ffmpeg_interface/dlib/bigint/bigint_kernel_1.cpp:1546-1614 | A number has one normal form |
| Digits.WordOf | python_ffmpeg_interface/dlib/bigint/bigint_kernel_1.cpp:1546-1614 | Word i is the digit of the number in base 65536, least significant first |
| Digits.LengthFromValue | python_ffmpeg_interface/dlib/bigint/bigint_kernel_1.cpp:973-1158 | A bound on a number bounds the words of its normal form |
| Records.DataRecord.Copy | python_ffmpeg_interface/dlib/bigint/bigint_kernel_1.h:71-89 | The copying constructor: same words, room for more, one reference |
| Records.ShortAdd | python_ffmpeg_interface/dlib/bigint/bigint_kernel_1.cpp:973-1011 | data + value in normal form, also in place |
| Records.ShortSub | python_ffmpeg_interface/dlib/bigint/bigint_kernel_1.cpp:1015-1060 | data - value in normal form, also in place; at most one word is lost |
| Records.LosesOneWord | python_ffmpeg_interface/dlib/bigint/bigint_kernel_1.cpp:1040-1060 | Taking one word off leaves at most one zero word at the top |
| Records.ShortMul | python_ffmpeg_interface/dlib/bigint/bigint_kernel_1.cpp:1064-1107 | data * value, also in place; in normal form if and only if value is not 0 or data has one word |
| Records.MulShortDone | python_ffmpeg_interface/dlib/bigint/bigint_kernel_1.cpp:1064-1107 | The words after the loop, and exactly when they are in normal form |
| Records.ShortDiv | python_ffmpeg_interface/dlib/bigint/bigint_kernel_1.cpp:1111-1158 | data / value and the remainder, in normal form, also in place |
| Records.DivShortDone | python_ffmpeg_interface/dlib/bigint/bigint_kernel_1.cpp:1111-1158 | A word is lost exactly when the top word is smaller than the divisor |
| LongHelpers.LongAdd | python_ffmpeg_interface/dlib/bigint/bigint_kernel_1.cpp:1162-1236 | lhs + rhs in normal form; the result may be either operand |
| Records.LongSub | python_ffmpeg_interface/dlib/bigint/bigint_kernel_1.cpp:1240-1295 | lhs - rhs in normal form; the result may be either operand |
| LongArithmetic.Normalise | python_ffmpeg_interface/dlib/bigint/bigint_kernel_1.cpp:1341-1359 | The normalising loops end with temp <= lhs < 2 temp, temp the divisor shifted by `shifts` bits; shifts never underflows |
| LongArithmetic.QuotientLoop | python_ffmpeg_interface/dlib/bigint/bigint_kernel_1.cpp:1363-1398 | Each round keeps lhs = result rhs 2^k + remainder with remainder < rhs 2^k |
| LongArithmetic.LongDiv | python_ffmpeg_interface/dlib/bigint/bigint_kernel_1.cpp:1299-1400 | lhs / rhs and lhs % rhs in normal form for every nonzero rhs; all loops end |
| LongArithmetic.ShiftAndAdd | python_ffmpeg_interface/dlib/bigint/bigint_kernel_1.cpp:1404-1460 | Shift-and-add with the shifts of b deferred: b is the larger operand times the power of two already applied; no write leaves a record |
| LongArithmetic.RoomToShift | python_ffmpeg_interface/dlib/bigint/bigint_kernel_1.cpp:1436-1450 | b never outgrows its record, and a zero b is never shifted by a whole word |
| LongArithmetic.LongMul | python_ffmpeg_interface/dlib/bigint/bigint_kernel_1.cpp:1404-1460 | lhs * rhs in normal form |
| LongHelpers.ShiftLeft | python_ffmpeg_interface/dlib/bigint/bigint_kernel_1.cpp:1463-1504 | data * 2^shift, also in place; in normal form if and only if data is not zero or the shift is below 16 |
| Records.ShiftRight | python_ffmpeg_interface/dlib/bigint/bigint_kernel_1.cpp:1508-1542 | data / 2 in normal form, also in place |
| Records.HalvedLosesOneWord | python_ffmpeg_interface/dlib/bigint/bigint_kernel_1.cpp:1508-1542 | Halving loses at most one word |
| LongHelpers.LessWordsIsLess | python_ffmpeg_interface/dlib/bigint/bigint_kernel_1.cpp:1546-1581 | On normal forms the comparison of words is the comparison of numbers |
| LongHelpers.IsLessThan | python_ffmpeg_interface/dlib/bigint/bigint_kernel_1.cpp:1546-1581 | is_less_than is < on normal forms |
| LongHelpers.IsEqualTo | python_ffmpeg_interface/dlib/bigint/bigint_kernel_1.cpp:1585-1614 | is_equal_to is = on normal forms |
| LongHelpers.ZeroProductMiscompares | python_ffmpeg_interface/dlib/bigint/bigint_kernel_1.cpp:1064-1107 | A number times zero is zero, but compares above zero, and unequal to it, if and only if the number has more than one word |
| LongHelpers.ZeroMiscompares | python_ffmpeg_interface/dlib/bigint/bigint_kernel_1.cpp:1546-1614 | Words that stand for zero compare above zero, and unequal to it, if and only if they are not in normal form |
| Records.Increment | python_ffmpeg_interface/dlib/bigint/bigint_kernel_1.cpp:1618-1663 | source + 1 in normal form, also in place |
| Records.Decrement | python_ffmpeg_interface/dlib/bigint/bigint_kernel_1.cpp:1667-1714 | source - 1 in normal form, also in place; at most one word is lost |
| Handles.Pool.CopyHandle | python_ffmpeg_interface/dlib/bigint/bigint_kernel_1.cpp:42-50 | A copy shares the record; all other handles keep their numbers |
| Handles.Pool.Destroy | python_ffmpeg_interface/dlib/bigint/bigint_kernel_1.cpp:54-66 | The record goes with its last handle; all other handles keep their numbers |
| Handles.Pool.Assign | python_ffmpeg_interface/dlib/bigint/bigint_kernel_1.cpp:310-333 | Assignment shares the record; assignment to itself does nothing |
| Handles.Pool.AddAssign | python_ffmpeg_interface/dlib/bigint/bigint_kernel_1.cpp:84-111 | Copy-on-write +=: the handle's number grows by the other's, no other handle changes |
| Handles.Pool.SubAssign | python_ffmpeg_interface/dlib/bigint/bigint_kernel_1.cpp:129-147 | Copy-on-write -= |
| Handles.Pool.MulAssign | python_ffmpeg_interface/dlib/bigint/bigint_kernel_1.cpp:165-185 | Copy-on-write *= |
| Handles.Pool.DivAssign | python_ffmpeg_interface/dlib/bigint/bigint_kernel_1.cpp:209-238 | Copy-on-write /= |
| Handles.Pool.ModAssign | python_ffmpeg_interface/dlib/bigint/bigint_kernel_1.cpp:260-286 | Copy-on-write %= |
| Handles.Pool.AddShort | python_ffmpeg_interface/dlib/bigint/bigint_kernel_1.cpp:546-573 | += with one word |
| Handles.Pool.SubShort | python_ffmpeg_interface/dlib/bigint/bigint_kernel_1.cpp:607-625 | -= with one word |
| Handles.Pool.TimesShort | python_ffmpeg_interface/dlib/bigint/bigint_kernel_1.cpp:659-685 | *= with one word: the number is right for every word; the handle's record is in normal form, and the pool's invariant holds, if and only if the word is not zero or the number had one word; no other handle changes |
| Handles.Pool.SumWord | python_ffmpeg_interface/dlib/bigint/bigint_kernel_1.cpp:516-543 | A number plus a word, and a word plus a number, into a new handle |
| Handles.Pool.DifferenceWord | python_ffmpeg_interface/dlib/bigint/bigint_kernel_1.cpp:592-604 | A number less a word into a new handle |
| Handles.Pool.ProductWord | python_ffmpeg_interface/dlib/bigint/bigint_kernel_1.cpp:629-656 | A number times a word, either way round, into a new handle, with the same exact condition for normal form |
| Handles.Pool.QuotientWord | python_ffmpeg_interface/dlib/bigint/bigint_kernel_1.cpp:708-720 | A number over a word into a new handle |
| Handles.Pool.RemainderWord | python_ffmpeg_interface/dlib/bigint/bigint_kernel_1.cpp:772-787 | A number modulo a word into a new handle |
| Handles.Pool.WordMinus | python_ffmpeg_interface/dlib/bigint/bigint_kernel_1.cpp:577-588 | A word less a number that is not larger: one word is enough to look at |
| Handles.Pool.WordOver | python_ffmpeg_interface/dlib/bigint/bigint_kernel_1.cpp:689-704 | A word over a number: zero unless the number has one word |
| Handles.Pool.WordModulo | python_ffmpeg_interface/dlib/bigint/bigint_kernel_1.cpp:747-767 | A word modulo a number: the word itself unless the number has one word |
| Handles.Pool.DivShort | python_ffmpeg_interface/dlib/bigint/bigint_kernel_1.cpp:724-743 | /= with one word |
| Handles.Pool.ModShort | python_ffmpeg_interface/dlib/bigint/bigint_kernel_1.cpp:790-812 | %= with one word |
| Handles.Pool.AssignShort | python_ffmpeg_interface/dlib/bigint/bigint_kernel_1.cpp:856-877 | = with one word, in place when the record is not shared |
| Handles.Pool.PreIncrement | python_ffmpeg_interface/dlib/bigint/bigint_kernel_1.cpp:881-907 | ++x |
| Handles.Pool.PostIncrement | python_ffmpeg_interface/dlib/bigint/bigint_kernel_1.cpp:911-925 | x++ gives the old number to a new handle |
| Handles.Pool.PreDecrement | python_ffmpeg_interface/dlib/bigint/bigint_kernel_1.cpp:929-947 | --x |
| Handles.Pool.PostDecrement | python_ffmpeg_interface/dlib/bigint/bigint_kernel_1.cpp:951-967 | x-- gives the old number to a new handle |
| HandleRuns.Run | python_ffmpeg_interface/dlib/bigint/bigint_kernel_1.cpp:42-967 | Any legal sequence of operators on handles with shared records ends with exactly the handles of an interpreter on natural numbers, and the words behind each handle are its number |
| HandleRuns.Do | python_ffmpeg_interface/dlib/bigint/bigint_kernel_1.cpp:42-967 | One command changes the number of the handle it names and no other, and keeps the pool's invariant |
| HandleRuns.OperatorsAre | python_ffmpeg_interface/dlib/bigint/bigint_kernel_1.cpp:84-296 | The interpreter's operators are those of arithmetic, defined where a difference is not negative and a divisor not zero |
| HandleRuns.OthersStay | python_ffmpeg_interface/dlib/bigint/bigint_kernel_1.cpp:42-967 | No handle changes its number but through a command that names it, however records are shared |
| HandleRuns.StepsAre | python_ffmpeg_interface/dlib/bigint/bigint_kernel_1.cpp:881-967 | The postfix operators give the number from before, the prefix operators that from after |
| HandleRuns.Undone | python_ffmpeg_interface/dlib/bigint/bigint_kernel_1.cpp:84-967 | Adding and subtracting, multiplying and dividing, stepping up and down, and swapping twice leave all numbers as they were |
| HandleRuns.WhenLegal | python_ffmpeg_interface/dlib/bigint/bigint_kernel_1.cpp:42-967 | Every command may be given when its handles are there and the result is a natural number; only a product of more than one word with a one-word zero is left out |
| HandleRuns.ReferencesCounted | python_ffmpeg_interface/dlib/bigint/bigint_kernel_1.cpp:42-66 | `references` of every record is the number of handles that point at it |
| Handles.LetGoCounts | python_ffmpeg_interface/dlib/bigint/bigint_kernel_1.cpp:54-66 | Letting go of a handle keeps every count exact; a record with one handle is left by all |
| Decimal.Print | python_ffmpeg_interface/dlib/bigint/bigint_kernel_1.cpp:337-419 | operator<<: the text of a record is the decimal text of its number; the buffer of five characters a word is never underrun; the loop ends |
| Decimal.BufferHasRoom | python_ffmpeg_interface/dlib/bigint/bigint_kernel_1.cpp:352-361 | While anything is left to print there is room for four more characters, because 65536 < 10^5 |
| Decimal.DecimalRoundTrip | python_ffmpeg_interface/dlib/bigint/bigint_kernel_1.cpp:337-419 | The decimal text of n has the value n and no leading zero but for "0" |
| Decimal.CanonicalUnique | python_ffmpeg_interface/dlib/bigint/bigint_kernel_1.cpp:400-409 | A number has one decimal text without leading zeros |
| Decimal.Parse | python_ffmpeg_interface/dlib/bigint/bigint_kernel_1.cpp:423-512 | operator>>: what Extracted says goes to the handle; without a digit the handle keeps its number and reading stops behind the blanks |
| Decimal.SkipsExactly | python_ffmpeg_interface/dlib/bigint/bigint_kernel_1.cpp:430-434 | Spaces, tabs and line feeds are skipped, and nothing else, up to the first character that is none of them |
| Decimal.DigitsExtracted | python_ffmpeg_interface/dlib/bigint/bigint_kernel_1.cpp:430-512 | A run of digits behind any spaces, tabs and line feeds is read to its end, leading zeros or not, whatever stands around it |
| Decimal.NumberExtracted | python_ffmpeg_interface/dlib/bigint/bigint_kernel_1.cpp:430-512 | The decimal text of any number behind any blanks is read as that number, and reading stops behind its last digit |
| Decimal.NothingExtracted | python_ffmpeg_interface/dlib/bigint/bigint_kernel_1.cpp:436-441 | Nothing is read if the first character that is not blank is no digit, or if there is none |
| Decimal.ColumnExtracted | python_ffmpeg_interface/dlib/bigint/bigint_kernel_1.cpp:430-512 | Any list of numbers with blanks between them, one to a line or in columns, is read one after another |
| Decimal.DigitsAre | python_ffmpeg_interface/dlib/bigint/bigint_kernel_1.cpp:448-505 | The digits are the ten characters '0' to '9' in their order |
| Decimal.Serialize | python_ffmpeg_interface/dlib/bigint/bigint_kernel_1.h:507-517 | The text and one space |
| Decimal.Deserialize | python_ffmpeg_interface/dlib/bigint/bigint_kernel_1.h:519-532 | A number and the one space behind it; anything else makes the item zero |
| Decimal.ReadsBack | python_ffmpeg_interface/dlib/bigint/bigint_kernel_1.h:507-532 | What was written is read back, whatever stands before and behind |
| Decimal.AllReadBack | python_ffmpeg_interface/dlib/bigint/bigint_kernel_1.h:507-532 | Any number of serialized bigints one behind another are read back one after another |
| WindowRuns.RunsKeepThePromises | javaServer/Server.java:70-160 | For every window of 1 to 127 slots, in every run over a network that loses, repeats and reorders, and delivers nothing more than 127 - size numbers late: bases satisfy S <= R <= S + size; acknowledged packets were delivered whole; nothing is delivered twice; free slots are a suffix; a waiting slot holds the packet stamped (stamp + i) % 128 |
| WindowLimits.PromisesKeptExactly | javaServer/Server.java:70-228 | On a network that holds packets back for any time, the promises hold at every point of a run if and only if no event of it is harmful: a packet taken for one of a slot that is not taken yet, or an acknowledgement taken for that of a waiting packet that has not arrived |
| WindowLimits.DataKeepsExactly | javaServer/Server.java:103-124 | A packet of any age keeps the promises if and only if it is not behind the base by 129 - size to 128 numbers, modulo 128, with the slot it is taken for not yet taken |
| WindowLimits.AckKeepsExactly | javaServer/Server.java:188-228 | An acknowledgement of any age keeps the promises if and only if it is not taken, modulo 128, for that of a waiting slot whose packet has not arrived |
| WindowLimits.DataOutcome | javaServer/Server.java:103-124 | What the receiver does with a packet of any age: delivered, ignored, or no such slot |
| WindowLimits.AckLoses | javaServer/Server.java:188-228 | An acknowledgement taken for that of a packet that has not arrived: the sender lets go of a packet that was never delivered |
| WindowLimits.FirstPacketAgain | javaServer/Server.java:103-124 | Reached from the start: after 128 packets sent, delivered and acknowledged, a copy of the first is delivered a second time, for every window size |
| WindowLimits.FirstAckAgain | javaServer/Server.java:188-228 | Reached from the start: after 128 packets and one more sent, a copy of the first acknowledgement releases the new packet, which was never delivered |
| WindowLimits.FirstPacketHasNoSlot | javaServer/Server.java:162-186 | Reached from the start: after 128 - size packets a copy of the first makes the receiver index a slot that does not exist |
| WindowLimits.ResentIsKnown | javaServer/Server.java:143-160 | With at most 64 slots a packet sent again is never taken for a new one, at whatever point of a run |
| WindowLimits.ResentIsDeliveredAgain | javaServer/Server.java:143-160 | With more it is, on a network that only loses acknowledgements: all slots are sent and arrive, and the first packet, sent again, is delivered a second time |
| WindowLimits.PossibleIsHarmless | javaServer/Server.java:70-228 | Nothing within the age bound is harmful |
| WindowLimits.FailsExactly | javaServer/Server.java:162-186 | A packet or an acknowledgement of any age makes a window index a slot that does not exist, which ends its thread, if and only if its number is right behind a window that reaches 128 |
| WindowLimits.RunningExactly | javaServer/Server.java:70-228 | The promises hold at every point of a run and no window fails if and only if no event is harmful or right behind a window that reaches 128 |
| WindowLimits.PossibleNeverStops | javaServer/Server.java:162-186 | No window fails within the age bound |
| WindowRuns.RunOk | javaServer/Server.java:70-228 | The invariant behind it holds in every world of every run |
| WindowRuns.KeptIs | javaServer/Server.java:36-228 | The promises spelled out: what was released or is held as acknowledged was delivered; nothing is delivered twice or other than it was sent; a waiting slot is in front of all free ones and holds the payload and number of its packet |
| WindowRuns.IsKept | javaServer/Server.java:36-228 | And no more than that is promised |
| WindowRuns.NewDataOk | javaServer/Server.java:104-141 | A new packet is delivered once and the invariant stays |
| WindowRuns.ReleasedArrived | javaServer/Server.java:188-228 | The sender never runs ahead of the receiver: what it lets go of has arrived |
| WindowRuns.RetransmissionArrives | javaServer/Server.java:143-160 | With 2 size <= 127 a packet sent again carries its number and always meets the age bound |
| Windows.ConfirmBorderExact | javaServer/Server.java:162-186 | confirmBorder on every stamp, size and number in range: the slot, or the size, or -1 |
| Windows.ConfirmBorderSafe | javaServer/Server.java:162-186 | The answer names a slot or is -1 if and only if d is not the number right behind a window that reaches 128 |
| Windows.ConfirmBorderOverruns | javaServer/Server.java:164-175 | Two windows of four slots, and the numbers behind them, that are answered with slot 4 |
| Windows.ConfirmBorderInRange | javaServer/Server.java:162-186 | For base + size - 128 < a < base + size both versions answer a - base, or -1 for a < base |
| Windows.VersionsAgree | python_ffmpeg_interface/python/sliding_window.py:40-58 | The Java and Python versions agree if and only if the window does not end exactly at 128 with d = 0 |
| Windows.Window.PktData | javaServer/Server.java:70-101 | pktData: the next free slot takes the payload with its number and the time; null when there is none. The caller's buffer changes in one byte, that of the number, if it has room, and not at all if it has none |
| Windows.WithNumber | javaServer/Server.java:83-93 | The numbered packet stands in the caller's own buffer if and only if that has room for the number; else in a copy |
| Windows.Window.UnpktData | javaServer/Server.java:104-141 | unpktData: always acknowledged, passed on when new, the window slides over what is complete |
| Windows.Window.RecvAtk | javaServer/Server.java:188-228 | recvATK: the slot ends; n finished slots leave the front with their packets and times, and the number of the first slot goes on by n; -1 frees all sending slots and restarts both numbers, and leaves the receiving slots as they are |
| Windows.Window.Update | javaServer/Server.java:143-160 | update: the packets of exactly those slots that wait, whose time is more than the timeout ago, and whose packet the socket takes, go out again, each once and in the order of the slots; exactly their times become what the clock says then |
| WindowRuns.UpdateIsRun | javaServer/Server.java:143-160 | What update does is a run of events of the protocol: the packets of its slots come to the network with their true numbers, and nothing else changes |
| Windows.Window.HaveIdle | javaServer/Server.java:59-68 | haveIdle: whether a slot is free |
| PythonWindows.SlidingWindow.Send | python_ffmpeg_interface/python/sliding_window.py:59-75 | send: same step as pktData, with the time of the slot; idle_count stays the number of free slots |
| PythonWindows.SlidingWindow.RecvAtk | python_ffmpeg_interface/python/sliding_window.py:139-166 | recvATK: same step with confirm_border; n slots leave the front with their data and times, and the number goes on by n; idle_count stays the number of free slots |
| PythonWindows.IdleCountSlid | python_ffmpeg_interface/python/sliding_window.py:152-163 | Sliding over n finished slots frees n |
| PythonRuns.SameStep | python_ffmpeg_interface/python/sliding_window.py:40-58 | A run cannot tell the two versions of the border test apart: every event of any age does the same to a sender with either |
| PythonRuns.PythonRunsKeepThePromises | python_ffmpeg_interface/python/sliding_window.py:59-166 | Every run with the Python sender within the age bound keeps the promises of the protocol |
| PythonRuns.PythonKeepsExactly | python_ffmpeg_interface/python/sliding_window.py:59-166 | Without the bound, exactly the harmful events break them |
| PythonReceivers.ReceivingWindow.Recv | python_ffmpeg_interface/python/sliding_window.py:84-110 | recv: what the receiving half of the Python version does with a packet, its slide loop included |
| PythonReceivers.SlideLoop | python_ffmpeg_interface/python/sliding_window.py:98-108 | The slide loop, which counts on while slots leave in front of it, takes off as many slots as there are finished ones at places 0, 2, 4, ...; a window of one slot never moves its number |
| PythonReceivers.DropsExactly | python_ffmpeg_interface/python/sliding_window.py:98-108 | It takes off a slot that has not arrived if and only if every other slot, up to twice as far as the finished ones reach, has arrived |
| PythonReceivers.LagsExactly | python_ffmpeg_interface/python/sliding_window.py:98-108 | It takes off too few if and only if one of the places 0, 2, ... below twice the number of finished slots has not arrived |
| PythonReceivers.PassedOnExactly | python_ffmpeg_interface/python/sliding_window.py:84-110 | A packet is passed on if and only if its number is that of a free slot; what happens to every other, for every window and number |
| PythonReceivers.DroppedIsLost | python_ffmpeg_interface/python/sliding_window.py:84-110 | A packet whose slot was taken off without it, at whatever place and in windows of 2 to 127 slots: when it comes next it is passed on if and only if its number has come round to the end of the window, that is if the slots and those taken off from its own on are more than 128 |
| PythonReceivers.ThreePacketsLoseOne | python_ffmpeg_interface/python/sliding_window.py:84-110 | Packets that arrive in the order 2, 0, 1 lose packet 1, for every window of 3 to 127 slots |
| PythonReceivers.LagLosesOne | python_ffmpeg_interface/python/sliding_window.py:84-110 | No slot is taken off too soon, and still: after packets 1 and 0 the window lags by one, and packet size + 1 is acknowledged and not passed on, for every window of 2 to 127 slots |
| PythonReceivers.InOrder | python_ffmpeg_interface/python/sliding_window.py:84-110 | The packet of the first slot is passed on, whatever waits behind it; the window moves on by at least one, and by one exactly if the slot after next is not finished; a window of one slot never moves its number |
| PythonReceiverRuns.HonestExactly | python_ffmpeg_interface/python/sliding_window.py:84-110 | Runs with the Python receiver and either sender, windows of 1 to 127 slots, packets of any age: what is acknowledged or released was delivered whole, and nothing twice, at every point if and only if no event is harmful: a packet that meets no free slot though it was never passed on, or meets one though it was, or an acknowledgement taken for that of a waiting packet that was not passed on |
| PythonReceiverRuns.StepKeepsHonest | python_ffmpeg_interface/python/sliding_window.py:84-110 | The same for one event; covers slots taken off too soon, windows that lag, windows of one slot, and old packets |
| PythonReceiverRuns.HonestWithinBound | python_ffmpeg_interface/python/sliding_window.py:84-110 | Within the age bound, with 2 to 64 slots: the promises hold at every point if and only if every packet that comes was passed on before or lies, by its true number, in the window it meets |
| PythonReceiverRuns.HarmsWithinBound | python_ffmpeg_interface/python/sliding_window.py:84-110 | Then exactly the packets that were not passed on and that the window is past, or not yet at, are harmful, and no acknowledgement is |
| PythonReceiverRuns.OneSlot | python_ffmpeg_interface/python/sliding_window.py:98-108 | A window of one slot passes on packets 0, 128, ... each time they come and no other, and stays where it is; exactly that is its harm |
| PythonReceiverRuns.OneSlotNeverMoves | python_ffmpeg_interface/python/sliding_window.py:98-108 | So in every run it never moves |
| PythonReceiverRuns.DropRun | python_ffmpeg_interface/python/sliding_window.py:84-110 | Reached from the start, within the age bound and without harm before: packet 1 of 2, 0, 1 is acknowledged and was never delivered, for every window of 3 to 126 slots |
| PythonReceiverRuns.LagRun | python_ffmpeg_interface/python/sliding_window.py:84-110 | Reached likewise: packets 1 and 0 arrive, both acknowledgements come back, and the last packet the sender may send by then is acknowledged and never delivered, for every window of 2 to 127 slots |
| PythonReceiverRuns.EitherSender | python_ffmpeg_interface/python/sliding_window.py:139-166 | It makes no difference to such a run which version the sender has |
| QuickSorting.QuickSort | python_ffmpeg_interface/dlib/sort.h:430-444 | The range sorted under any strict weak order, a permutation of what was there, nothing outside touched, at most Levels(right - left) quicksort levels nested |
| QuickSorting.QuickSortMain | python_ffmpeg_interface/dlib/sort.h:236-279 | The same for any budget, with the guard on partition element 0 and the fall back to heapsort |
| QuickSorting.LevelsLogarithmic | python_ffmpeg_interface/dlib/sort.h:265-268 | 32^(L-1) <= 17^(L-1) d for the number of levels L of a budget d: logarithmic |
| QuickSorting.BudgetLeft | python_ffmpeg_interface/dlib/sort.h:267-268 | Of 32 k levels and r more, 17 k and half of r are left for the next level |
| QuickSorting.Partition | python_ffmpeg_interface/dlib/sort.h:184-230 | Everything left of the returned place is less than the pivot there, nothing right of it is; a permutation of the range |
| QuickSorting.BothSides | python_ffmpeg_interface/dlib/sort.h:270-275 | Sorting both sides of a partitioned range sorts it |
| HeapSorting.Heapify | python_ffmpeg_interface/dlib/sort.h:282-336 | The heap condition extended to one more node, a permutation of the heap |
| HeapSorting.RootIsLargest | python_ffmpeg_interface/dlib/sort.h:469-483 | The first element of a heap may stand after all others |
| HeapSorting.HeapSort | python_ffmpeg_interface/dlib/sort.h:451-484 | hsort_array: no later element less than an earlier one, a permutation, nothing outside touched |
| Sorting.InsertionSort | python_ffmpeg_interface/dlib/sort.h:395-422 | isort_array: no later element less than an earlier one, a permutation, nothing outside touched |
| Base64.DecodeOfEncoded | python_ffmpeg_interface/dlib/base64/base64_kernel_1.cpp:162-396 | Decoding undoes encoding for all data and every line ending |
| Base64.DecodeOfConcatenation | python_ffmpeg_interface/dlib/base64/base64_kernel_1.cpp:309-396 | Concatenated encodings decode to the concatenated data, padding in the middle included |
| Base64.DecodeAppended | python_ffmpeg_interface/dlib/base64/base64_kernel_1.cpp:309-396 | What is encoded behind any complete text is decoded behind it |
| Base64.FillerInserted | python_ffmpeg_interface/dlib/base64/base64_kernel_1.cpp:320-383 | Filler inserted anywhere changes nothing that is counted if and only if it does not come in front of a text that begins with '=' |
| Base64.FillerDecoded | python_ffmpeg_interface/dlib/base64/base64_kernel_1.cpp:309-396 | So it changes neither the decoded bytes nor whether decoding fails; where it makes a '=' count, the two texts cannot both decode |
| Base64.QuadBits | python_ffmpeg_interface/dlib/base64/base64_kernel_1.cpp:214-240 | The masks and shifts of encode and decode keep all 24 bits |
| Base64Lines.LineLength | python_ffmpeg_interface/dlib/base64/base64_kernel_1.cpp:178-212 | No encoded line is longer than 76 characters (section 6.8 of RFC 2045) |
| Base64Lines.BreaksBetweenLines | python_ffmpeg_interface/dlib/base64/base64_kernel_1.cpp:178-212 | A break comes only behind a multiple of 76 characters, so between quads, and never at the end |
| Base64Format.LetterInAlphabet | python_ffmpeg_interface/dlib/base64/base64_kernel_1.cpp:56-131 | The encode table is the alphabet A-Z, a-z, 0-9, +, / in this order |
| Base64Format.ValueInAlphabet | python_ffmpeg_interface/dlib/base64/base64_kernel_1.cpp:139-147 | The value of a character is its place in the alphabet, and 100 for every character that is not in it |
| Base64Format.LettersAre | python_ffmpeg_interface/dlib/base64/base64_kernel_1.cpp:214-285 | The letters of any data: digit r in base 64 of the number that each three bytes make in base 256, most significant first, missing bytes zero; '=' stands exactly where a digit has no byte; four characters for every three bytes begun |
| Base64Format.TripleIs | python_ffmpeg_interface/dlib/base64/base64_kernel_1.cpp:336-369 | What four characters stand for: the bytes of their number, and one or two bytes less for one or two '=' at the end |
| Base64Format.PadElsewhere | python_ffmpeg_interface/dlib/base64/base64_kernel_1.cpp:352-369 | A '=' anywhere else counts as the value 100, whose bits run into those of its neighbours |
| Base64Format.EncodedIs | python_ffmpeg_interface/dlib/base64/base64_kernel_1.cpp:178-212 | Encoded text is the letters in lines of 76, with byte 13, byte 10 or bytes 13 and 10 between lines and none at the end |
| Base64Codec.Coder.Encode | python_ffmpeg_interface/dlib/base64/base64_kernel_1.cpp:162-305 | encode writes exactly the text that Base64Format describes, with the object's line ending |
| Base64Codec.Coder.DecodeStream | python_ffmpeg_interface/dlib/base64/base64_kernel_1.cpp:309-396 | decode writes the bytes of all complete groups of counted characters, and fails if and only if characters are left over; a byte 255 looks behind the table, and what was complete before it has been written |
| Base64Codec.DecodeFilledNext | python_ffmpeg_interface/dlib/base64/base64_kernel_1.cpp:139-147 | Filling the decode table from the encode table |
| PackedIntegers.PackInt | python_ffmpeg_interface/dlib/serialize.h:184-230 | pack_int, both signs and every width: the minimal code, the least value of the type included |
| PackedIntegers.UnpackInt | python_ffmpeg_interface/dlib/serialize.h:236-410 | unpack_int for signed and unsigned types: what Decoding says of the bytes, see PackedFormat.OutcomeOf and NumberOf |
| PackedFormat.OutcomeOf | python_ffmpeg_interface/dlib/serialize.h:250-290 | For any bytes: the low half of the control byte says how many follow; more than the type has, or a sign for an unsigned type, is an error, and so are fewer bytes than that; a number that is read ends exactly behind them |
| PackedFormat.NumberOf | python_ffmpeg_interface/dlib/serialize.h:291-303 | And which number: in the range of the type, equal to that of the bytes, or with a sign to its negative, up to one turn of the type |
| PackedFormat.CutShort | python_ffmpeg_interface/dlib/serialize.h:285-289 | A code cut short anywhere is refused by every reader: for lack of bytes, unless the type is too narrow for it or unsigned and it negative |
| PackedFormat.CodeOf | python_ffmpeg_interface/dlib/serialize.h:198-221 | The code byte by byte: length and sign, then the digits of the magnitude in base 256, least significant first, without a zero at the end |
| PackedFormat.Ranges | python_ffmpeg_interface/dlib/serialize.h:182-230 | The ranges of the signed and unsigned types of 1, 2, 4 and 8 bytes |
| PackedIntegers.ReadsBack | python_ffmpeg_interface/dlib/serialize.h:182-303 | Any reader whose range holds the value gets it back and takes exactly the bytes written, for any suffix |
| PackedIntegers.PrefixFree | python_ffmpeg_interface/dlib/serialize.h:184-230 | No code is the beginning of another |
| PackedIntegers.MinimalLength | python_ffmpeg_interface/dlib/serialize.h:182-303 | Whatever reads as x took at least as many bytes as the code of x |
| PackedIntegers.UnsignedRejectsNegatives | python_ffmpeg_interface/dlib/serialize.h:354-410 | Unsigned readers reject every negative number |
| PackedIntegers.NarrowReaderRejects | python_ffmpeg_interface/dlib/serialize.h:281-285 | A reader too narrow for the bytes rejects them |
| Serialization.ValueReadBack | python_ffmpeg_interface/dlib/serialize.h:780-980 | Every value of every type built from integers, strings, floats, pairs, vectors, sets and maps is read back, whatever stands before and behind |
| Serialization.Serialize | python_ffmpeg_interface/dlib/serialize.h:780-980 | The serialize loops write exactly those bytes |
| Serialization.Deserialize | python_ffmpeg_interface/dlib/serialize.h:780-980 | The deserialize loops read exactly what the specification reads; exceptions, the undefined control byte and floats in the old text format are told apart |
| SerializationFormat.ValueCutShort | python_ffmpeg_interface/dlib/serialize.h:780-980 | What was written for any value of any type and then cut short, wherever, is refused with an exception |
| SerializationFormat.ReadOn | python_ffmpeg_interface/dlib/serialize.h:780-980 | Whatever was read stays what it is when more bytes follow, and so does every refusal but an exception |
| SerializationFormat.NoPrefix | python_ffmpeg_interface/dlib/serialize.h:780-980 | No value is written as the beginning of another of its type |
| SerializationFormat.ReadHas | python_ffmpeg_interface/dlib/serialize.h:780-980 | Whatever is read from any bytes is a value of the type: in range, with distinct elements and keys, and at least two bytes long |
| SerializationFormat.HasExactly | python_ffmpeg_interface/dlib/serialize.h:780-980 | The values of a type are exactly those that can be read as one |
| SerializationFormat.IntegerOutcome | python_ffmpeg_interface/dlib/serialize.h:415-425 | An integer is read, is an exception, or begins with a control byte of length zero: exactly when |
| SerializationFormat.MapIs | python_ffmpeg_interface/dlib/serialize.h:836-857 | A map is read like the vector of its pairs, and a key is mapped to what its last pair says |
| SerializationFormat.SetIs | python_ffmpeg_interface/dlib/serialize.h:885-904 | A set is read like the vector of its elements, and has each of them once |
| SerializationFormat.PutIs | python_ffmpeg_interface/dlib/serialize.h:853-853 | item[d] = r replaces the entry of a key that is there and adds one for a key that is not |
| SerializationFormat.FloatIsPair | python_ffmpeg_interface/dlib/serialize.h:564-590 | A float is stored and read as mantissa and then exponent, unless the first byte has a bit of the old text format |
| SerializationFormat.Layout | python_ffmpeg_interface/dlib/serialize.h:780-980 | The bytes of some values, one by one: sizes before elements, first before second, mantissa before exponent |
| Serialization.IntReadBack | python_ffmpeg_interface/dlib/serialize.h:561-590 | An integer code never looks like the old text format of floats, so the dispatch on its first byte is right |
| FloatDetails.Compact | python_ffmpeg_interface/dlib/float_details.h:127-137 | The compaction loop keeps mantissa times 2^exponent, for either sign; a mantissa that is not zero ends with a byte that is not |
| FloatDetails.CompactedKeeps | python_ffmpeg_interface/dlib/float_details.h:127-137 | The same for any number of steps, with the ranges of mantissa and exponent |
| FloatDetails.FloatRoundTrip | python_ffmpeg_interface/dlib/float_details.h:104-152 | Every number, the infinities and NaN, converted, written, read and converted back, are what they were, in any surroundings, except that zero loses its sign; the exponent of a finite number stays below the mark of infinity |
| FloatDetails.Marks | python_ffmpeg_interface/dlib/float_details.h:144-152 | The exponents 32000, 32001 and those from 32002 on are infinity, minus infinity and NaN for any mantissa; below, the number is mantissa times 2^exponent |
| FloatDetails.MarksWritten | python_ffmpeg_interface/dlib/float_details.h:84-120 | The bytes of infinity, minus infinity and NaN in a file |
| FloatDetails.DoubleRoundTrip | python_ffmpeg_interface/dlib/float_details.h:104-152 | A number of a type with up to 63 bits and the exponents of a long double or fewer, so any float or double, is read back from what is written for it |
| FloatDetails.LongDoubleKept | python_ffmpeg_interface/dlib/float_details.h:104-125 | Of a mantissa of 64 bits 63 are kept: the number is kept if and only if the last bit is zero |

## Left out

Choices of the model:

- Trees come with a root at node 0, a parent for every other node and a number that grows away from the root (`Schedule.Tree`); `Trees.EveryTreeHasParents` and `Inference.EveryJoinTreeHasParents` find these for every connected graph without cycles. "Without cycles" is stated as: the only way between the ends of an edge is over the edge. The path condition is stated as: cliques that hold a variable are linked through cliques that hold it. Edges hold the intersection of their cliques, as `is_join_tree` demands.
- `is_join_tree` does not check that every node lies in a clique together with its parents; without it the node's conditional table is silently dropped, so it is a hypothesis (`InitialJoint.FamiliesCovered`).
- The tables of one separator are divided key by key, not by moving two enumerators side by side; that both have the same keys is proved. Enumerations of tables visit the keys in any order; sets of nodes are enumerated in ascending order. The clique counter of the initialisation is `Counters.Next`: its test for equality and the other's for "at least" agree on assignments in range.
- Inference.Posterior: probabilities are exact reals. `node_cpt_filled_out` lets rows sum to up to 1e-5 more than one; the capped addition may then fire, exactly when the initial tables say so, and all that is claimed of the answer then is that it is a probability distribution. The quotients 0 / 0 for impossible evidence are the outcome "not defined".
- The assertions of debug builds are not modelled; that every probability stays in [0, 1] is proved.
- `ct` is an exact pair of reals and the unit roots are any numbers with the properties of cos and sin; rounding of doubles is not modelled. The nearest integer is taken as floor(x + 0.5).
- 32-bit sizes and counters of bigint records do not wrap, but for the size of the transform. Words wrap at 16 bits and the signed trick of the subtractions is modelled.
- FftMultiply.FftMul: operands have at most 2^30 words together, because the 32-bit `size` wraps beyond, as FftMultiply.SizeFitsExactly says.
- FftMultiply.LongMul2: the same, when both operands have ten words or more.
- The bits that `|` joins in `shift_left` never overlap, so the model adds them. The base is 65536; the comment in bigint_kernel_1.h that says 65535 is not followed. `long_div` needs room for one word more in its result than its comment says, and `short_div` gives the quotient.
- HandleRuns.Run: a product with a one-word zero comes only with numbers of one word, because others leave words that are not in normal form; Handles.Pool.TimesShort, Records.ShortMul and LongHelpers.ZeroProductMiscompares say exactly when and what follows.
- HandleRuns.Do: the same.
- Bigint objects are the entries of a pool that maps names to records; `operator<` and `==` are the two comparisons of records; comparisons with a word, which look at the first word of a one-word number, are left out.
- Kernel 2 repeats the rest of kernel 1 and is modelled once.
- Text streams are strings with a position; a failed read does not move it back. `Parse` uses a handle that the caller names for the local bigint.
- Numbers on the network are 0 to 127; confirmBorder is also defined on the negative bytes of Java, where nothing is claimed. The index exception of a list is an outcome of its own.
- Windows.Window.PktData: the packet kept for sending again is a value. Where the caller's buffer has room the code keeps that buffer, as Windows.WithNumber shows, so bytes written there later would go out instead; the caller in Server.java takes a new buffer for every packet.
- Data of one byte is taken for an acknowledgement, so payloads are not empty; which of the two arrives is part of an event of a run.
- WindowLimits.PromisesKeptExactly: about what is delivered and released only; a window that fails keeps its promises. WindowLimits.RunningExactly counts failures too.
- Windows.Window.UnpktData: sending the acknowledgement is its last result; that the socket may fail is left out.
- Windows.Window.Update: the readings of the clock and the success of each send are parameters.
- Sort indices do not overflow; comparison functions are pure.
- Base64Codec.Coder.DecodeStream: reading stops at a byte 255, for which the code looks behind its table; what it finds there is left open. The look into the table after the end of the input is skipped, which the code does before it tests the end.
- The Base64 masks are grouped in one function for each six-bit value and each byte; 8-bit vectors are used as they are.
- PackedIntegers.UnpackInt: a control byte with length zero reads outside the buffer; that outcome is called Undefined and never comes from `pack_int`.
- Sets and maps in `Serialization` are sequences of distinct elements in the container's order.

What the repository does that is not modelled:

- The Gibbs sampler, and everything that draws random numbers.
- Finding a join tree (`create_join_tree`) and the check `is_join_tree`.
- Runs across a reset of a window (the byte -1), which does not clear the receiving half; all claims about runs are between resets.
- The relay loop in Server.java, which tests one window and sends through another.
- `check_timeout` of sliding_window.py, which sends overdue packets again as `update` does.
- FloatDetails.FloatRoundTrip: `frexp` and `ldexp` are taken for exact; what they return enters as a hypothesis. The text format of floats is not read.
- Allocation failure, stream error bits, threads, clocks, sockets and logging.
- The other containers of serialize.h (deque, list, queue, tree, matrix), `pack_int` of booleans and characters, and the text of error messages.
- Video, audio, face recognition, GPIO and the user interfaces.
