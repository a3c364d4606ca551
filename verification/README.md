# Verified model of the prefetching and transfer logic

The system moves data between coupled applications through data spaces. It predicts which
items will be read next, prefetches them, finds spatial neighbours along a Hilbert curve,
ships data over RDMA and protects chunks with XOR parity. This project models the parts of
it whose correctness is not visible from any single function, and proves it.

* **Hilbert curve.** `HilbertCurve` and `HilbertPoints` define the curve digit by digit, as a
  transducer whose state is a rotation, the last edge and a parity, and prove what the curve
  is: a bijection, continuous, self-similar. `Words`, `Digits`, `BitTricks`, `Transpose`,
  `TransposeFast` and `HilbertWords` model 64-bit words bit by bit. `Hilbert` holds the
  word-level conversions of `hilbert.c`, `HilbertOrder` its comparison and successor, which
  never compute an index, and `HilbertTable` the table automaton of `hilbert.py`; each is
  proved against the same curve.
* **Predictors.** `Tries` says what an LZ78 parse and an n-gram count are and what their
  trees contain. `ParseTree` is the mutable graph of `markov.h` with its cursor; between
  calls it is exactly the tree of the whole access history, whatever the keys.
  `Predictions` says what should be predicted, in terms of what followed what in the
  history, and when the visits predict it.
* **Prefetch buffer and directory.** `Caching` is the bounded FIFO cache with its counters,
  `Buffering` the buffer that follows each producer's steps, `Directories` the directory
  that replays registrations for data spaces that join late.
* **Spatial prefetch.** `Intervals` and `SpatialFetch` turn a box into Hilbert indexes, widen
  them, and bound the cells they stand for.
* **RDMA transfer.** `IbHeader` writes and reads headers, `IbEnds` holds client and server,
  `IbTransfer` runs them as a system of steps.
* **Parity.** `ParallelXor` XORs chunks in slices with one thread a slice.

`Basics` holds what several of these modules need.

Operations that change state in the original change state here: methods over arrays and
classes, each proved against a function of its inputs or of the old state; the lemmas then
prove what that function means. A machine word is a `nat` below 2^64 whose shifts drop what
leaves the word. A `Valid()` predicate is required and ensured by every public method of its
class, so it holds after every sequence of calls.

Where the code does not keep what one would expect of it, the model keeps the code and the
exact condition is proved; the members in brackets show inputs that fail it:

* `Directories.LateJoinersAgree`, `LateIsEarly`: data spaces that join at different times
  have equal registries if and only if, for each item, the producers on record at the two
  times agree; a late one agrees with an early one if and only if no item put before it
  joined had changed its producer (`LateDiffers`, `LateAgreeLate`).
* `Directories.MwaSpace.Query`: a query knows an item if and only if it was put as new data;
  one that was only put to a data space is listed there and unknown (`ListedUnknown`).
* `Directories.MwaSpace.Query`, `Directories.MwaSpace.Put`: 42, the number of `'*'`, is also a legal data
  space. A query names it for every known item, and a put to it is refused for every known
  item. The answer is exactly the holders if and only if 42 is not registered or holds the
  item; a refusal is right if and only if the data space is not 42, or 42 holds the item
  just when it is known (`WildcardBeside`, `WildcardCollision`).
* `Directories.MwaSpace.AddAccess`: looking up an application or an item that is not on
  record puts it there under 0, after which the application can no longer be registered.
* `Caching.Cache.Del`: the counts agree with the contents afterwards if and only if the
  accessor named is the one the item is held for, or the item is not cached.
* `Buffering.AnnouncedPlaced`: all items announced are held if and only if there is room for
  all that were chosen. With more than one item too many, the rest is neither announced nor
  held. All of them stay chosen and are never chosen again.
* `Tries.ParsesAgree`: the key -1 is also the marker's. The tree's parse is the LZ78 parse if
  and only if that key is accessed at the start of a phrase only.
* `ParseTree.ParseTree.GetKeyProbsLz`, `Predictions.LzRight`: the prediction should give the
  keys that followed the cursor's word, -1 like any other, or those that followed the empty
  word if none did. It does if and only if that word is no marker's and -1 never followed it:
  the word's marker has the one visit it started with, and the root has no child -1
  (`MarkerKeyMisleads`, `MarkerAccessed`). Without accesses of -1 it always does.
* `ParseTree.ParseTree.GetKeyProbsPpm`, `Predictions.PpmRight`: likewise, the PPM prediction
  is right if and only if -1 never followed the context (`PpmMarkerKeyMisleads`).
* `IbHeader.DataRoundTrip`: a data header is read back if and only if its id has no `#` and
  no NUL and is shorter than its field. The client accepts the others: where a NUL comes
  before any `#`, or the id fills the field without either, the server's search for the
  `#` finds none in the field; where a `#` comes first, it cuts the id (`IdsNotReadBack`).
* `IbTransfer.DeliveredIffIntact`: a message `EOF`, or a last chunk of the four bytes `EOF`
  and NUL, is taken for the end indicator, is not sent, and the transfer stops for good;
  nothing else can stop it (`EndIndicatorLost`).
* `Intervals.ExpansionExact`, `SpatialFetch.HsAlgo.GetToFetch`: widening is right, and the
  cells fetched are those near the request, if and only if the first interval's new end fits
  64 bits (`ExpansionOverflows`).
* `SpatialFetch.HsAlgo.constructor`: the grid has the size of the space but starts at the
  origin. Every box of the space lies on it if and only if no end of the space exceeds the
  grid's side (`SpaceOffGrid`).
* `HilbertOrder.Incr` on the last point of the curve flips coordinate 0.

## Model

| member | source | states |
|---|---|---|
| BitTricks.PrefixXor | dspaces_rel/sdm_control/prefetch/hilbert.c:235-236 | the doubling shifts undo x ^ (x >> 1) on n bits, for every n |
| BitTricks.AdjustRotation | dspaces_rel/sdm_control/prefetch/hilbert.c:30-38 | the new rotation is the old one moved past the lowest set bit (or the whole digit), modulo nDims, and stays below nDims |
| BitTricks.FieldMask | dspaces_rel/sdm_control/prefetch/hilbert.c:67-68 | shifting field ends and subtracting sets exactly the bits of each field, when the fields do not overlap and end inside the word |
| Words.OnesIsMask | dspaces_rel/sdm_control/prefetch/hilbert.c:40-40 | the macro that subtracts one from a shifted two sets the k lowest bits, all 64 of them included |
| Transpose.BitTransposePlain | dspaces_rel/sdm_control/prefetch/hilbert.c:104-121 | the double loop moves bit d*nBits+b to bit b*nDims+d and leaves nothing else |
| TransposeFast.BitTranspose | dspaces_rel/sdm_control/prefetch/hilbert.c:54-102 | the logarithmic transpose meets the same specification for all sizes, odd widths included |
| TransposeFast.OddRound | dspaces_rel/sdm_control/prefetch/hilbert.c:71-84 | a round on an odd width puts each field's top bit in place and halves the rest |
| TransposeFast.EvenRound | dspaces_rel/sdm_control/prefetch/hilbert.c:85-94 | a round on an even width halves every field |
| Transpose.TransposeUnique | dspaces_rel/sdm_control/prefetch/hilbert.c:50-122 | the specification has one solution, so both versions return the same word |
| Transpose.TransposeBack | dspaces_rel/sdm_control/prefetch/hilbert.c:168-168 | transposing with the arguments swapped gives the input back |
| HilbertWords.GrayWord | dspaces_rel/sdm_control/prefetch/hilbert.c:155-156 | one masked XOR and shift of the whole word Gray-codes every digit with its carry-in |
| HilbertWords.NthBits | dspaces_rel/sdm_control/prefetch/hilbert.c:155-155 | dividing the two masks sets the lowest bit of every digit |
| HilbertWords.DeltaWord | dspaces_rel/sdm_control/prefetch/hilbert.c:220-220 | coords ^ (coords >> nDims) is the XOR of neighbouring planes |
| HilbertWords.FoldedDeltas | dspaces_rel/sdm_control/prefetch/hilbert.c:166-167 | the stride-nDims doubling loop undoes it |
| HilbertCurve.EncodeDecode | dspaces_rel/sdm_control/prefetch/hilbert.c:222-230 | reading planes as digits undoes writing digits as planes |
| HilbertCurve.DecodeEncode | dspaces_rel/sdm_control/prefetch/hilbert.c:158-165 | and the other way round, from every state |
| Hilbert.I2C | dspaces_rel/sdm_control/prefetch/hilbert.c:138-181 | the words compute the point of the curve at index, in place, for one or more dimensions and bits |
| Hilbert.C2I | dspaces_rel/sdm_control/prefetch/hilbert.c:196-241 | the words compute the index of the point |
| Hilbert.Unravel | dspaces_rel/sdm_control/prefetch/hilbert.c:148-168 | the digit loop and the fold of i2c leave the planes of the point, the loop's rotation and flipBit being the curve's state |
| Hilbert.Ravel | dspaces_rel/sdm_control/prefetch/hilbert.c:211-237 | the digit loop of c2i tracks the same state and leaves the index |
| HilbertPoints.IndexOfPoint | dspaces_rel/sdm_control/prefetch/hilbert.c:138-241 | c2i(i2c(i)) = i, and i2c(i) is on the grid |
| HilbertPoints.PointOfIndex | dspaces_rel/sdm_control/prefetch/hilbert.c:138-241 | i2c(c2i(p)) = p, and c2i(p) is below 2^(nDims*nBits) |
| HilbertPoints.Continuity | dspaces_rel/sdm_control/prefetch/hilbert.c:138-181 | consecutive indexes are at points that differ by 1 in exactly one coordinate |
| HilbertPoints.FacingCorners | dspaces_rel/sdm_control/prefetch/hilbert.c:158-165 | the exit of each subcube faces the entry of the next across one axis |
| HilbertPoints.EndPoints | dspaces_rel/sdm_control/prefetch/hilbert.c:138-181 | the curve enters and leaves every cube at the corners its state names |
| HilbertPoints.Scale | dspaces_rel/sdm_control/prefetch/hilbert.c:196-241 | the index shifted right by nDims*j is the index of the point shifted right by j |
| HilbertPoints.CubeIsRun | dspaces_rel/sdm_control/prefetch/hilbert.c:196-241 | two points share an aligned cube of side 2^j exactly when their indexes share an aligned range of length 2^(nDims*j) |
| HilbertOrder.GetIntBits | dspaces_rel/sdm_control/prefetch/hilbert.c:267-281 | the bits read from the bytes are plane y of the coordinates the bytes hold |
| HilbertOrder.ByteCoordsAre | dspaces_rel/sdm_control/prefetch/hilbert.c:267-281 | a coordinate is the number whose bytes follow each other in memory, the lowest first |
| HilbertOrder.CompareDecides | dspaces_rel/sdm_control/prefetch/hilbert.c:545-556 | at the first plane that differs, the parity and the three folds order the two digits |
| HilbertOrder.Cmp | dspaces_rel/sdm_control/prefetch/hilbert.c:528-574 | returns -1, 0 or 1 exactly as the first index is less, equal or greater, for all pairs of points |
| HilbertOrder.FindStep | dspaces_rel/sdm_control/prefetch/hilbert.c:1061-1084 | the loop ends with the last plane whose digit is not all ones and the axis the curve takes there |
| HilbertOrder.AdvanceDigit | dspaces_rel/sdm_control/prefetch/hilbert.c:1085-1086 | flipping the low bits of that one coordinate gives the next point of the curve |
| HilbertOrder.Incr | dspaces_rel/sdm_control/prefetch/hilbert.c:1048-1087 | turns p into i2c(c2i(p)+1) in place; on the last point it flips coordinate 0 |
| HilbertTable.PointToHilbert | dspaces_rel/sdm_control/prefetch/hilbert.py:8-17 | the loop over the table computes the number whose digits the automaton's path spells, for all non-negative integers |
| HilbertTable.TableIsCurve | dspaces_rel/sdm_control/prefetch/hilbert.py:1-17 | started in any of its four states the automaton computes the curve from the matching state |
| HilbertTable.TablesAgree | dspaces_rel/sdm_control/prefetch/hilbert.py:1-17 | mfa_hilbert_c2i(2, n, {x, y}) equals point_to_hilbert(y, x, n) |
| HilbertTable.TableBijection | dspaces_rel/sdm_control/prefetch/hilbert.py:1-17 | for every state and order the automaton is a bijection from the square to its range |
| HilbertTable.TableContinuity | dspaces_rel/sdm_control/prefetch/hilbert.py:1-17 | consecutive positions are grid neighbours |
| HilbertTable.TableCorners | dspaces_rel/sdm_control/prefetch/hilbert.py:1-17 | each state enters and leaves its square at fixed corners, for every order |
| Tries.LzFaithful | dspaces_rel/sdm_control/prefetch/include/markov.h:518-545 | the history is its phrases, pairwise distinct, and a rest; each phrase is a word seen earlier and one key, and the rest is a word seen: for the LZ78 parse and for the parse that takes markers for words seen |
| Tries.ParsesAgree | dspaces_rel/sdm_control/prefetch/include/markov.h:518-545 | the tree's parse is the LZ78 parse if and only if the marker's key is accessed at the start of a phrase only |
| Tries.LzCounts | dspaces_rel/sdm_control/prefetch/include/markov.h:518-545 | for every history the tree's vertices are the root, the phrases of its parse and a marker below each; a vertex's visits are the walks through it, and one more for a marker |
| Tries.LzConservation | dspaces_rel/sdm_control/prefetch/include/markov.h:436-466 | in every reachable LZ tree the children's visits are the walks that went on and the marker's own, which is the vertex's visits but for the one the cursor holds and the one a marker starts with: the -1, unadjusted and +1 corrections |
| Tries.MarkerAccessed | dspaces_rel/sdm_control/prefetch/include/markov.h:436-447 | six accesses after which the divisor is 2 and the children's visits are 1 |
| Tries.PpmCounts | dspaces_rel/sdm_control/prefetch/include/markov.h:652-675 | a word is in the tree if and only if a window of the history starts with it, and its visits are the number of those windows |
| Tries.PpmShape | dspaces_rel/sdm_control/prefetch/include/markov.h:652-675 | the root's visits are max(0, n-k) and no word is longer than k+1 |
| Tries.PpmConservation | dspaces_rel/sdm_control/prefetch/include/markov.h:436-466 | in every reachable PPM tree a vertex above the leaves has the visits of its children together |
| Tries.SumOfExtensions | dspaces_rel/sdm_control/prefetch/include/markov.h:444-447 | of any list of words, those that begin with w and go on are counted once by w's one-key extensions |
| ParseTree.ParseTree.constructor | dspaces_rel/sdm_control/prefetch/include/markov.h:313-329 | the tree of the empty history |
| ParseTree.ParseTree.FindChild | dspaces_rel/sdm_control/prefetch/include/markov.h:358-369 | finds the vertex one key below v if and only if there is one |
| ParseTree.ParseTree.MoveCur | dspaces_rel/sdm_control/prefetch/include/markov.h:633-639 | moves the cursor and counts at most one visit; the graph stays a tree |
| ParseTree.ParseTree.CreateConnectLeaf | dspaces_rel/sdm_control/prefetch/include/markov.h:608-631 | adds exactly one vertex, with one visit |
| ParseTree.ParseTree.MoveCurOnContext | dspaces_rel/sdm_control/prefetch/include/markov.h:713-730 | walks as far down the context as the tree goes and counts the prefixes passed |
| ParseTree.ParseTree.CreateMoveCurOnContext | dspaces_rel/sdm_control/prefetch/include/markov.h:684-711 | makes the rest of the context, so that every prefix is counted once |
| ParseTree.ParseTree.AddAccessLz | dspaces_rel/sdm_control/prefetch/include/markov.h:518-545 | for any key, graph and cursor are afterwards the LZ tree of the longer history |
| ParseTree.ParseTree.AddAccessPpm | dspaces_rel/sdm_control/prefetch/include/markov.h:652-672 | for any key, the graph is afterwards the PPM tree of the longer history, the cursor is at the root and the context is its last keys |
| ParseTree.ParseTree.AddAccess | dspaces_rel/sdm_control/prefetch/include/markov.h:410-417 | so it is for either predictor, after every sequence of accesses |
| ParseTree.ParseTree.GetKeyProbsLz | dspaces_rel/sdm_control/prefetch/include/markov.h:436-466 | what the visits predict; it is each key's share of what followed the cursor's word, or the empty word if nothing did, if and only if that word is no marker's and -1 never followed it; without accesses of -1 always, by the LZ78 parse |
| ParseTree.ParseTree.GetKeyProbsPpm | dspaces_rel/sdm_control/prefetch/include/markov.h:642-650 | what the visits predict; each key's share is the fraction of the windows through the longest known stretch of the last keys that it follows, if and only if -1 never followed it, and always without accesses of -1; the tree is as before |
| Predictions.LzRight | dspaces_rel/sdm_control/prefetch/include/markov.h:436-466 | for every history and whatever is computed from its tree: right if and only if the context is no marker's and the marker's key never followed it |
| Predictions.LzRightWithoutMarkerKey | dspaces_rel/sdm_control/prefetch/include/markov.h:436-466 | always right for a history without -1, and then what the LZ78 parse says |
| Predictions.MarkerKeyMisleads | dspaces_rel/sdm_control/prefetch/include/markov.h:449-463 | three histories with a wrong prediction: -1 struck out at the root, -1 the only key that followed, and a marker with children |
| Predictions.PpmRight | dspaces_rel/sdm_control/prefetch/include/markov.h:436-466 | for every history and stretch: right if and only if the marker's key never followed it |
| Predictions.PpmRightWithoutMarkerKey | dspaces_rel/sdm_control/prefetch/include/markov.h:436-466 | always right for a history without -1 |
| Predictions.PpmMarkerKeyMisleads | dspaces_rel/sdm_control/prefetch/include/markov.h:449-463 | a history after which the PPM prediction is wrong |
| Predictions.LzNormalised | dspaces_rel/sdm_control/prefetch/include/markov.h:444-447 | the shares of a right LZ prediction, that of stopping included, add up to one |
| Predictions.PpmNormalised | dspaces_rel/sdm_control/prefetch/include/markov.h:444-447 | and those of a right PPM prediction |
| Caching.Cache.Push | dspaces_rel/sdm_control/prefetch/include/prefetch.h:83-107 | refuses an item that is there, gives up the oldest of a full cache, keeps the counts |
| Caching.Cache.Pop | dspaces_rel/sdm_control/prefetch/include/prefetch.h:109-132 | removes the oldest item and tells the callback |
| Caching.Cache.Del | dspaces_rel/sdm_control/prefetch/include/prefetch.h:134-155 | removes exactly the item: what was before it and after it stays in order; the counts agree with the contents afterwards if and only if the accessor is the item's own, or the item is not there |
| Caching.Cache.Contains | dspaces_rel/sdm_control/prefetch/include/prefetch.h:157-160 | whether the item is cached |
| Caching.Cache.GetCachedAccs | dspaces_rel/sdm_control/prefetch/include/prefetch.h:186-195 | lists, ascending, exactly the accessors that some cached item is held for |
| Caching.CountedPush | dspaces_rel/sdm_control/prefetch/include/prefetch.h:93-98 | the per-accessor counts agree with the contents after an insertion |
| Caching.CountedDel | dspaces_rel/sdm_control/prefetch/include/prefetch.h:145-151 | and after a removal, if and only if the item was held for the accessor that is counted down |
| Caching.HeldIs | dspaces_rel/sdm_control/prefetch/include/prefetch.h:93-98 | the count of an accessor is the number of cached items held for it |
| Buffering.MpBuffer.RegKeyVer | dspaces_rel/sdm_control/prefetch/prefetch.cpp:68-86 | an item's first registration is recorded at the end of its producer's order, any other refused |
| Buffering.MpBuffer.NextOf | dspaces_rel/sdm_control/prefetch/prefetch.cpp:181-216 | an item is chosen for p if and only if p's registered item number last_acced+1 exists and was never chosen, and it is that item |
| Buffering.MpBuffer.GetToPrefetch | dspaces_rel/sdm_control/prefetch/prefetch.cpp:165-218 | one pass chooses exactly the picked producers' items number last_acced+1 that were never chosen, each once, in the order of the first mentions, and sets the last cached steps |
| Buffering.ChosenIs | dspaces_rel/sdm_control/prefetch/prefetch.cpp:180-217 | what the pass collects is that: membership, order and no repetition |
| Buffering.NothingAgain | dspaces_rel/sdm_control/prefetch/prefetch.cpp:187-190 | a producer that had its turn yields nothing again before its next access |
| Buffering.MpBuffer.AddAccess | dspaces_rel/sdm_control/prefetch/prefetch.cpp:89-163 | the whole new state: what is deleted, chosen, announced and held, and in what order; nothing is chosen twice, the cache stays in its bound, evicts nothing and no push fails |
| Buffering.MpBuffer.PrefetchAll | dspaces_rel/sdm_control/prefetch/prefetch.cpp:145-160 | announces one item more than there is room for, if there are as many, and holds those with room |
| Buffering.AnnouncedPlaced | dspaces_rel/sdm_control/prefetch/prefetch.cpp:145-160 | the first chosen items are held, as many as there is room for, and one more is announced: all items announced are held if and only if there is room for all that were chosen, and all chosen are announced if and only if they are at most one too many |
| Buffering.MpBuffer.Del | dspaces_rel/sdm_control/prefetch/prefetch.cpp:220-249 | removes a registered cached item, keeps the order of the others and announces the deletion once |
| Directories.LateJoinersAgree | dspaces_rel/sdm_control/prefetch/prefetch.cpp:397-417 | the registries of any two joiners are equal if and only if each item has the same producer on record at both times |
| Directories.LateIsEarly | dspaces_rel/sdm_control/prefetch/prefetch.cpp:410-412 | a late joiner's registry equals an early one's if and only if each earlier item's first putter is its last |
| Directories.PutOnce | dspaces_rel/sdm_control/prefetch/prefetch.cpp:397-483 | with each item put once, all registries are equal whenever the data spaces joined |
| Directories.LateDiffers | dspaces_rel/sdm_control/prefetch/prefetch.cpp:461-465 | two puts of one item by different applications make them differ |
| Directories.LateAgreeLate | dspaces_rel/sdm_control/prefetch/prefetch.cpp:397-417 | two late joiners that agree with each other and not with an early one |
| Directories.MwaSpace.RegApp | dspaces_rel/sdm_control/prefetch/prefetch.cpp:309-319 | an application's first data space is kept |
| Directories.MwaSpace.RegDs | dspaces_rel/sdm_control/prefetch/prefetch.cpp:397-417 | a new data space gets an empty list and an empty buffer that has caught up; the others keep theirs |
| Directories.MwaSpace.LateBuffer | dspaces_rel/sdm_control/prefetch/prefetch.cpp:408-412 | replaying the items under their recorded producers |
| Directories.MwaSpace.Broadcast | dspaces_rel/sdm_control/prefetch/prefetch.cpp:461-463 | every buffer registers the item and nothing else of it changes |
| Directories.MwaSpace.Put | dspaces_rel/sdm_control/prefetch/prefetch.cpp:438-483 | new data is listed at the data space of its application and recorded under it, data put to a data space is listed there, and every buffer stays in step with all new data; a put to a data space is refused just when that holds the item, if and only if it is not 42, or 42 holds the item just when it is known |
| Directories.MwaSpace.Contains | dspaces_rel/sdm_control/prefetch/prefetch.cpp:512-518 | listed, cached, or known at all for the wildcard |
| Directories.MwaSpace.Query | dspaces_rel/sdm_control/prefetch/prefetch.cpp:497-510 | succeeds if and only if the item was put as new data, and then yields, in order, all data spaces that list or cache it, at least one, and no other if and only if 42 is not registered or holds it |
| Directories.MwaSpace.AnswersAre | dspaces_rel/sdm_control/prefetch/prefetch.cpp:500-509 | the data spaces that contains answers for are the holders, but for 42 |
| Directories.WildcardCollision | dspaces_rel/sdm_control/prefetch/prefetch.cpp:512-518 | a run in which a put to data space 42 is refused although it does not hold the item |
| Directories.ListedUnknown | dspaces_rel/sdm_control/prefetch/prefetch.cpp:497-501 | a run in which a data space lists an item that a query does not know |
| Directories.MwaSpace.AddAccess | dspaces_rel/sdm_control/prefetch/prefetch.cpp:485-495 | the data spaces of the item's producer and of the consumer are those on record, or 0; an access from another locality reaches exactly the consumer's buffer; lookups of what is not on record leave entries under 0 |
| Directories.MwaSpace.Reach | dspaces_rel/sdm_control/prefetch/prefetch.cpp:494-494 | every buffer knows every item put, so only an item never put is an error there |
| Directories.KnownEverywhere | dspaces_rel/sdm_control/prefetch/prefetch.cpp:397-483 | whatever was put is registered in every buffer |
| Intervals.InsertFacts | dspaces_rel/sdm_control/prefetch/sfc.cpp:40-40 | inserting an interval adds exactly its indexes and keeps the intervals apart |
| Intervals.ExpansionExact | dspaces_rel/sdm_control/prefetch/sfc.cpp:65-76 | widening yields exactly the indexes within length of the set, clamped, if and only if the first interval's end does not overflow |
| Intervals.ExpansionOverflows | dspaces_rel/sdm_control/prefetch/sfc.cpp:65-76 | with the greatest length an index drops out of its own neighbourhood |
| SpatialFetch.HsAlgo.constructor | dspaces_rel/sdm_control/prefetch/sfc.cpp:4-17 | wherever the space starts, the grid is the smallest whose sides are as long as its longest, and its last index fits an int; all boxes of the space lie on it if and only if no end of the space exceeds its side |
| SpatialFetch.SpaceOffGrid | dspaces_rel/sdm_control/prefetch/sfc.cpp:4-17 | a space away from the origin whose boxes do not lie on its grid |
| SpatialFetch.NumBits | dspaces_rel/sdm_control/prefetch/sfc.cpp:13-13 | the least number of bits that counts n cells |
| SpatialFetch.HsAlgo.BoxToIntervals | dspaces_rel/sdm_control/prefetch/sfc.cpp:33-44 | the set is exactly the indexes of the box's cells |
| SpatialFetch.HsAlgo.Expand | dspaces_rel/sdm_control/prefetch/sfc.cpp:65-76 | the loop computes the widened set, in 64-bit arithmetic |
| SpatialFetch.HsAlgo.IntervalsToCells | dspaces_rel/sdm_control/prefetch/sfc.cpp:46-62 | lists exactly the set's cells, each once, in the order of the curve |
| SpatialFetch.HsAlgo.Bounds | dspaces_rel/sdm_control/prefetch/sfc.cpp:131-146 | the smallest box around the cells |
| SpatialFetch.HsAlgo.GetToFetch | dspaces_rel/sdm_control/prefetch/sfc.cpp:119-148 | the cells fetched are those near the request on the curve if and only if the first new end fits 64 bits; then the box contains the request and every such cell, and each face touches one |
| SpatialFetch.CellsNear | dspaces_rel/sdm_control/prefetch/sfc.cpp:126-134 | a cell is within the length of a requested cell on the curve just when its index is near the request's set |
| SpatialFetch.NearExactly | dspaces_rel/sdm_control/prefetch/sfc.cpp:126-134 | the cells fetched are exactly those, if and only if the first new end fits 64 bits |
| SpatialFetch.Fetched | dspaces_rel/sdm_control/prefetch/sfc.cpp:131-146 | the smallest box around the cells near a request contains the request and touches such cells |
| IbHeader.ThereAndBack | dspaces_rel/trans/ib_trans/ib_client.cpp:183-187 | the sizes that %d and back preserve are those below 2^31 or from 2^64-2^31 on |
| IbHeader.AtoiPrinted | dspaces_rel/trans/ib_trans/ib_client.cpp:183-184 | atoi undoes printing for every number |
| IbHeader.DataRoundTrip | dspaces_rel/trans/ib_trans/ib_server.cpp:206-231 | proc_header undoes make_header for data if and only if the id is shorter than its field and has no delimiter and no NUL; it finds no delimiter exactly when a NUL comes first or the id fills the field without one; else the id is cut at the delimiter |
| IbHeader.IdsNotReadBack | dspaces_rel/trans/ib_trans/ib_server.cpp:214-216 | an id with a NUL, one of twenty bytes and one with a delimiter, none of which is read back |
| IbHeader.MsgRoundTrip | dspaces_rel/trans/ib_trans/ib_server.cpp:219-228 | and for messages always, with no id |
| IbHeader.DataHeaderBytes | dspaces_rel/trans/ib_trans/ib_client.cpp:165-195 | the 37 bytes: D, the id, delimiters up to byte 20, the size in decimal digits without leading zeros, delimiters up to byte 35, NUL |
| IbHeader.MsgHeaderBytes | dspaces_rel/trans/ib_trans/ib_client.cpp:165-195 | likewise the 17 bytes of a message header, and the two of an init header |
| IbEnds.IbClient.MakeHeader | dspaces_rel/trans/ib_trans/ib_client.cpp:149-198 | fails exactly for an unknown kind, a long id or a size that does not survive; else fills the memory with the header, within its bounds |
| IbEnds.IbClient.SendInit | dspaces_rel/trans/ib_trans/ib_client.cpp:76-85 | queues the init header |
| IbEnds.IbClient.SendMsg | dspaces_rel/trans/ib_trans/ib_client.cpp:87-103 | queues a header and the text with its NUL, or nothing on error |
| IbEnds.IbClient.SendData | dspaces_rel/trans/ib_trans/ib_client.cpp:105-147 | queues header, chunks and end indicator in order, or nothing on error; with an id and data the header is fully written |
| IbEnds.IbClient.QueueChunks | dspaces_rel/trans/ib_trans/ib_client.cpp:114-126 | the loop queues the data cut at the buffer size |
| IbEnds.ChunksSpell | dspaces_rel/trans/ib_trans/ib_client.cpp:119-126 | the chunks spell out the data and are never empty; all but the last have 100 MB, and the last no more |
| IbEnds.IbClient.SendNext | dspaces_rel/trans/ib_trans/ib_client.cpp:200-233 | takes the oldest item and copies it to the buffer unless it looks like the end indicator |
| IbEnds.IbServer.AnnounceHeader | dspaces_rel/trans/ib_trans/ib_server.cpp:206-231 | the header's fields become the server's state |
| IbEnds.IbServer.OnCompletion | dspaces_rel/trans/ib_trans/ib_server.cpp:119-204 | in every case the new fields, the reply and the callbacks; every store lies within the memory allotted |
| IbTransfer.OneOutstanding | dspaces_rel/trans/ib_trans/ib_client.cpp:322-328 | in every state of every run at most one credit exists, so no write is read or waiting when the client fills its buffer |
| IbTransfer.NothingAstray | dspaces_rel/trans/ib_trans/ib_server.cpp:142-196 | in every state of every run the next item fits the buffers, and what arrived can be read and stored |
| IbTransfer.ExactCallbacks | dspaces_rel/trans/ib_trans/ib_server.cpp:147-165 | in every state of every run the callbacks so far are the first of: each message in turn, then the data once with its id and bytes |
| IbTransfer.RunsEnd | dspaces_rel/trans/ib_trans/ib_client.cpp:200-221 | every run has boundedly many steps |
| IbTransfer.DeliveredIffIntact | dspaces_rel/trans/ib_trans/ib_client.cpp:207-217 | a run that cannot go on has delivered everything if and only if no item but the last looks like the end indicator |
| IbTransfer.NeverDelivered | dspaces_rel/trans/ib_trans/ib_client.cpp:207-217 | otherwise no run delivers everything |
| IbTransfer.CarryOn | dspaces_rel/trans/ib_trans/ib_client.cpp:200-221 | every run can be carried on until nothing can move |
| IbTransfer.EndIndicatorLost | dspaces_rel/trans/ib_trans/ib_client.cpp:207-217 | the message EOF, and data of the end indicator's four bytes, have runs that end short |
| IbTransfer.EndOnlyLast | dspaces_rel/trans/ib_trans/ib_client.cpp:207-207 | which is when no message is EOF and the data does not end in a chunk of the end indicator's four bytes |
| IbTransfer.Handled | dspaces_rel/trans/ib_trans/ib_server.cpp:142-187 | the server handles each item as the transfer's phase expects |
| ParallelXor.XorWords | resilience/xor.cpp:69-85 | the two loops leave the XOR of the words at each byte and touch no other byte |
| ParallelXor.XorIsParity | resilience/xor.cpp:69-85 | a bit of the XOR is set when an odd number of the chunks have it |
| ParallelXor.DealOut | resilience/xor.cpp:98-114 | the slices follow each other; all but the last have the same size, size / threads rounded down, and the last has what is left, less than a byte a thread more |
| ParallelXor.SlicesTile | resilience/xor.cpp:98-114 | every byte lies in exactly one slice, for every number of threads and every size |
| ParallelXor.ParallelIsPlain | resilience/xor.cpp:87-120 | after the join every byte is the XOR of all chunks, however the threads' steps alternated |
| ParallelXor.NoneStuck | resilience/xor.cpp:116-117 | until all threads are done some thread can step |
| ParallelXor.Recovery | resilience/xor.cpp:69-120 | the parity and all chunks but one give the missing chunk |

## Left out

- Hilbert.I2C: requires nDims*nBits <= 64, as the source does, and so does Hilbert.C2I; `unsigned long` is taken to be as wide as `unsigned long long`, 64 bits.
- HilbertOrder.Cmp: requires nDims <= 31, because the reader shifts an `int` by the axis; bytes are in little-endian order.
- HilbertOrder.Incr: requires nBits <= 30, because of the shift of an `int` at the end, and nDims below 64.
- TransposeFast.BitTranspose: requires fields of fewer than 64 bits, which its callers always pass.
- `mfa_hilbert_box_vtx`, `box_pt`, `nextinbox` and the variants for IEEE doubles: not used by the rest of the system.
- ParseTree.ParseTree.GetKeyProbsLz: probabilities are reals and the random jitter added to each is left out.
- ParseTree.ParseTree.AddAccess: counts are unbounded; names, levels, edge keys, the longest phrase and `reset` are not modelled; of a vertex's status only whether it is the root's is stated, since nothing else depends on it.
- The ALZ and Poisson predictors, and the weighting of several predictors: floats, clocks and unfinished code.
- Buffering.MpBuffer.AddAccess: the predictor's reply is a parameter, any list of producers that were accessed; its locks and log are left out, so calls are atomic.
- Directories.MwaSpace.Put: bounding coordinates and the data callback of the directory are left out; a data space that is named, or that the application has, must be registered, since the source would dereference null.
- Directories.MwaSpace.AddAccess: the data space whose buffer is reached must be registered, for the same reason.
- `MWASpace::del` and the spatial directory's accesses: incomplete or disabled in the source. The directory starts without data spaces, and each is registered.
- SpatialFetch.HsAlgo.constructor: one side needs at least one bit and all at most ten, so that the last index fits an int; coordinates are not negative; the logarithm is exact.
- SpatialFetch.HsAlgo.GetToFetch: the R-tree is replaced by the bounding box it is asked for; requests lie within the grid, since the index of a cell beyond it mixes the bits of its coordinates. The success code is 0, where the source returns nothing.
- SpatialFetch.HsAlgo.BoxToIntervals: boxes lie within the grid, for the same reason.
- Buffering.MpBuffer.RegKeyVer: the success code is 0, where the source returns nothing.
- IbEnds.IbClient.MakeHeader: requires that what its unchecked loops write fits the memory the header is given, which it always does for the calls in the source.
- IbEnds.IbClient.SendData: queued chunks are values, not pointers into the caller's data, which must stay unchanged until sent.
- IbEnds.IbServer.OnCompletion: requires a header whose fields have delimiters and whose size is below 2^31: for others the source dereferences null or asks for memory by a negative number. The transfer proves that it only meets such headers.
- IbTransfer.ExactCallbacks: for messages of at least one byte that fit the buffer with their NUL, then one piece of non-empty data under an id that is read back, since the server ends its loop after it; verbs, connection set-up and threads are reduced to the steps they cause.
- ParallelXor.ParallelIsPlain: the XOR of two words of different lengths and the MPI set-up are left out; a thread's step is one byte.
- TCP and GridFTP transfer, the control plane, MPI, logging and option parsing: input and output, or code behind libraries.
