# Cuckoo filter with adaptive fingerprints (CF / CB-CF), modelled in Dafny

This project models the `CF` class of `CF.cpp`. The class implements a cuckoo filter, with the CB-CF
variant selected by `mode == 1`:

- The table has `cf_size` buckets of `cf_cells` cells each. An empty cell holds `-1`.
- A key is stored as a large fingerprint `hash(key, 1, fp_bsize)`.
- The fingerprint goes into one of two buckets, `hash(key, 2, cf_size)` and that bucket XOR
  `hash(fp, 2, cf_size)`.
- `insert_scrub` is a cuckoo walk of at most 1000 rounds. It ends with a victim when no cell is found.
- `scrub` moves one fingerprint out of every full bucket and walks it back in, with a threshold
  on how full the target may be.
- `random_remove` deletes a cell and compacts its bucket.
- `query` compares with the large fingerprint in buckets that are not full. In full buckets it
  compares with the small one, `fp_size = 1 << f`.

The project has two layers.

- **The value model** (`model.dfy`, module `CuckooModel`) describes every operation as a function
  from the old state to the new one. The walk of `insert_scrub` is three mutually recursive
  functions: `Walk` dispatches a round, `Scan` handles one cell index, and `Evict` ends a round.
  `walk.dfy`, `scrub.dfy` and `query.dfy` prove what the filter promises about these functions.
  `table.dfy` holds the bookkeeping facts about bucket contents that those proofs share.
- **The class** (`filter.dfy`, `Filter.CuckooFilter`) keeps the source's state in place:
  - an `array2<int>` table for `int**`;
  - an `array<int>` for `fp_count`;
  - fields for `cf_num_items` and the victim pair.

  Each method carries the source's loops and is proved to compute exactly the model function
  that describes it.

Arithmetic follows the C++ types:

- A 32-bit `int` is its two's-complement bit pattern, an integer in [0, 2^32). Sums and
  products wrap modulo 2^32.
- `>> 2` on a signed `int` is an arithmetic shift.
- The key's bytes are read as signed `char`s and sign-extended.
- `fp_count` is an `unsigned char`, so `++` and `--` wrap modulo 256.
- `%` on a possibly negative `int` truncates toward zero (`Bits.CRem`). This matters in `query`,
  where an empty cell `-1 % w` is `-1` and never matches.

Randomness and choices are supplied from outside:

- Every `rand()` of `insert_scrub` is read from a stream `rnd: nat -> nat` at a cursor that each
  operation takes and returns.
- The cell that `scrub` takes out of a full bucket `p` is `picks(p) % cf_cells`.
- `random_remove` takes the non-empty cell it would have drawn.

The class requires a configuration the code can run with (`CuckooModel.ValidConfig`):

- `cf_size` is a power of two. Otherwise `p ^ hash(fp, 2, cf_size)`, which `insert_scrub` uses
  unreduced on coin 1, can index past the table.
- `1 <= cf_cells <= 255`, so that `fp_count` can count a full bucket.
- `1 <= f`, so that `fp_size >= 2`. Then an empty cell reduces to `-1 % fp_size == -1` and never
  matches a fingerprint (`Bits.CRem`, `TableFacts.WidthFacts`). With `f == 0` every cell of a full
  bucket, empty or not, would match every key.
- `(4 f) / 3 <= 30`, so that `1 << ((f * 4) / 3)` fits an `int`.

On coin 1, `insert_scrub` (lines 114-117) moves `p` to its partner and then computes `p1` from
the moved `p`. Both candidates are therefore the same bucket, and the second probe repeats the
first. The model keeps this as written (`CuckooModel.Candidates` states it). It does not break
any property proved here; the walk still only probes the key's two buckets.

## Model

| member | source | states |
|---|---|---|
| Hashing.Hash | CF.cpp:396-404 | the result is below `s`; for `i == 1` it is JSHash modulo `s`, for `i == 2` RSHash modulo `s` |
| Hashing.KeyBytesRoundTrip | CF.cpp:416 | the bytes `memcpy` takes out of a key reassemble into the key, so no key information is dropped before hashing |
| Hashing.SignExtend | CF.cpp:414-420 | a key byte widened as a signed `char` keeps the byte as its low 8 bits and fills the upper 24 with its top bit |
| Hashing.SignExtendKeepsValue | CF.cpp:414-420 | the widened byte's signed value is the byte for bytes below 0x80 and the byte minus 256 otherwise |
| Hashing.ShiftRight2 | CF.cpp:439 | `hash >> 2` keeps `hash / 4` in the low 30 bits and copies the sign bit into the top two |
| Hashing.ShiftRight2Divides | CF.cpp:439 | the arithmetic shift is signed division by 4 rounded toward minus infinity |
| Hashing.RSLoopWraps | CF.cpp:408-425 | RSHash's loop, wrapping every step to 32 bits, equals the same loop on unbounded integers wrapped once at the end |
| Hashing.RSLoop | CF.cpp:418-422 | no contract of its own: the loop `hash = hash * a + k[i]; a = a * b` on 32-bit patterns; `Hashing.RSLoopWraps` states what it computes |
| Hashing.RSHash | CF.cpp:408-425 | the hash of a key is the exact polynomial of its eight chars with multipliers 63689, 63689 * 378551, ..., wrapped once to 32 bits |
| Hashing.JSStep | CF.cpp:439 | one step XORs into the hash the sum `32 * hash + k[i] + floor(hash / 4)` taken over the signed C++ values and wrapped to 32 bits |
| Hashing.MixSigned | CF.cpp:439 | the sum mixed in by a step, computed on bit patterns, agrees modulo 2^32 with the same sum over signed values |
| Hashing.JSLoop | CF.cpp:437-440 | no contract of its own: the step of `Hashing.JSStep` applied to the eight chars in order |
| Hashing.JSHash | CF.cpp:429-443 | no contract of its own: `Hashing.JSLoop` over the key's chars from 1315423911; `Hashing.JSStep` states each step |
| Hashing.ToUint64 | CF.cpp:112 | the `int` fingerprint converted to `uint64_t` for `hash(fingerprint, 2, cf_size)` (lines 112, 115, 212, 339) is its value modulo 2^64, which leaves a non-negative fingerprint unchanged |
| Hashing.KeyBytes | CF.cpp:416 | `n` little-endian bytes, each in `[0, 256)`; `Hashing.KeyBytesRoundTrip` shows they reassemble into the key |
| Hashing.KeyChars | CF.cpp:414-416 | eight chars whose low byte is the key's byte at that position and whose signed value lies in `[-128, 128)` |
| Bits.CRem | CF.cpp:350 | C++ `%` keeps the dividend's sign: non-negative values reduce as usual, negatives give a remainder in (-n, 0], and `-1 % n` is `-1` |
| Bits.Xor | CF.cpp:112 | no contract of its own: the `^` of lines 112, 115, 212 and 339 on non-negative integers; `Bits.XorDigits`, `Bits.XorSelfInverse` and `Bits.XorBelow` state its properties |
| Bits.XorSelfInverse | CF.cpp:112 | XOR with the same hash twice gives back the bucket, so the two buckets of a pair lead to each other |
| Bits.XorBelow | CF.cpp:112 | with a power-of-two table, a bucket XOR a hash below `cf_size` is again a bucket |
| CuckooModel.FpSize | CF.cpp:25 | no contract of its own: `fp_size = 1 << f`; `TableFacts.WidthFacts` states `2 <= fp_size <= fp_bsize` |
| CuckooModel.FpBSize | CF.cpp:26 | no contract of its own: `fp_bsize = 1 << ((f * 4) / 3)`; `TableFacts.WidthFacts` states it is a multiple of `fp_size` |
| CuckooModel.Put | CF.cpp:219 | no contract of its own: the bare cell write of line 219 (and of lines 127 and 277); `TableFacts.PutStored` and `TableFacts.SwapStored` state how it changes the stored fingerprints |
| CuckooModel.Fill | CF.cpp:127-129 | no contract of its own: a placement, the write with `fp_count[p]++` and `cf_num_items++` (also lines 137-139, 156-158, 168-170, 183-185, 195-197, and 219 with 224-225); `TableFacts.FillStored` and `TableFacts.FillKeepsCounts` state that it adds exactly that fingerprint and keeps exact counters exact |
| CuckooModel.Init | CF.cpp:20-53 | the constructed state has `cf_size` buckets of `cf_cells` cells and counters in range |
| CuckooModel.Inc8 | CF.cpp:128 | `fp_count[p]++` on an `unsigned char` wraps 255 to 0 |
| CuckooModel.Dec8 | CF.cpp:278 | `fp_count[p]--` wraps 0 to 255 |
| CuckooModel.Candidates | CF.cpp:110-117 | both probed buckets are the current bucket or its partner; on coin 0 they are the bucket and its partner; on coin 1 both are the partner |
| CuckooModel.EvictionBucket | CF.cpp:211-213 | the eviction writes into the current bucket when the coin is 0 and into its partner when the coin is 1 |
| CuckooModel.Walk | CF.cpp:95-240 | the walk keeps the table shaped, returns -1 or a round in `[t, 1000]`, and consumes random values only forward |
| CuckooModel.Compact | CF.cpp:305-312 | after removing cell `c`, the earlier cells stay, the later ones move one place forward, and the last cell is empty |
| CuckooModel.Lost | CF.cpp:281 | a reinsertion loses one fingerprint exactly when it returns -1 |
| CuckooModel.ScrubFrom | CF.cpp:248-284 | a scrub keeps the table shaped and consumes random values only forward |
| CuckooModel.Primary | CF.cpp:81 | no contract of its own: the key's first bucket `hash(key, 2, cf_size)`; `QueryProofs.ProbeBuckets` shows probe 0 reads it |
| CuckooModel.Fingerprint | CF.cpp:79 | no contract of its own: the stored fingerprint `hash(key, 1, fp_bsize)`; `QueryProofs.FingerprintMatchesBothWidths` relates it to both query widths |
| CuckooModel.Partner | CF.cpp:112 | the other bucket of a pair is a bucket; `TableFacts.PairClosed` and `Bits.XorSelfInverse` show the pair is closed |
| CuckooModel.Admits | CF.cpp:122-203 | no contract of its own: the admission tier by `scrub_iterations` and round; `WalkProofs.WalkRespectsTiers` states that every cell-scan placement meets it |
| CuckooModel.Scan | CF.cpp:106-205 | one cell index keeps the table shaped and returns -1 or a round in `[t, 1000]`; its conservation, counter, tier and key properties are `WalkProofs.ScanConserves`, `ScanKeepsCounts`, `ScanRespectsTiers`, `ScanKeepsKey` |
| CuckooModel.Evict | CF.cpp:209-231 | the eviction keeps the table shaped and returns -1 or a round in `[t, 1000]`; its properties are `WalkProofs.EvictConserves`, `EvictKeepsCounts`, `EvictRespectsTiers`, `EvictKeepsKey` |
| CuckooModel.Insert | CF.cpp:75-85 | no contract of its own: the walk of the key's fingerprint from its first bucket; `WalkProofs.InsertKeepsKeys` and `QueryProofs.NoFalseNegatives` state what it promises |
| CuckooModel.Clear | CF.cpp:275-279 | no contract of its own: the cleared cell and the two decrements; `TableFacts.ClearKeepsCounts` shows it removes exactly that fingerprint and keeps exact counters exact |
| CuckooModel.Reinsert | CF.cpp:275-281 | the clear-and-walk of one scrubbed bucket keeps the table shaped; `ScrubProofs.ScrubStep` states what it conserves |
| CuckooModel.RemoveAt | CF.cpp:291-313 | no contract of its own: the compacted bucket and the two decrements; `ScrubProofs.RemoveConserves` states what it conserves |
| CuckooModel.Width | CF.cpp:328 | no contract of its own: `fp_bsize` below `cf_cells`, else `fp_size`, as lines 328 and 344 choose it; `QueryProofs.FingerprintMatchesBothWidths` shows a stored fingerprint matches at both |
| CuckooModel.Probe | CF.cpp:335-353 | no contract of its own: a cell of the probed bucket matches under that bucket's width; `QueryProofs.ProbeBuckets` names the bucket probed |
| CuckooModel.Lookup | CF.cpp:320-356 | no contract of its own: the victim pair or one of the probes; `QueryProofs.LookupFindsStored` and `QueryProofs.LookupNeedsMatch` state both directions |
| TableFacts.WidthFacts | CF.cpp:25-26 | `2 <= fp_size <= fp_bsize`, and `fp_bsize` is a multiple of `fp_size` |
| TableFacts.FullBucket | CF.cpp:257 | with exact counters, a bucket whose `fp_count` is `cf_cells` has no empty cell, so scrub always takes out a fingerprint |
| TableFacts.PairClosed | CF.cpp:112 | the partner of a bucket of the key's pair is again in the pair |
| WalkProofs.WalkConserves | CF.cpp:95-240 | on success the table holds the old fingerprints plus `fp`, and only the filled bucket's counter and `cf_num_items` went up by one; on -1 the table plus the victim hold the old fingerprints plus `fp`, the victim is non-empty and sits in the final bucket, and no counter moved |
| WalkProofs.PushConserves | CF.cpp:217-231 | an eviction that displaces a fingerprint conserves the table's contents through the rest of the walk |
| WalkProofs.WalkKeepsRange | CF.cpp:95-240 | when every stored fingerprint and `fp` lie in `[0, fp_bsize)`, so do all of them after the walk, and the victim too |
| WalkProofs.WalkKeepsCounts | CF.cpp:128-129 | in adaptive mode the walk keeps every `fp_count` equal to its bucket's fingerprints and `cf_num_items` equal to their total |
| WalkProofs.WalkRespectsTiers | CF.cpp:122-203 | a fingerprint placed by the cell scan went into a bucket whose counter its tier admitted: any empty cell when `scrub_iterations == 0`, a count below `cf_cells - 1` before round `si`, below `cf_cells` from then on |
| WalkProofs.WalkKeepsKey | CF.cpp:95-240 | a key whose fingerprint was stored in, or carried from, one of its two buckets is afterwards stored in one of them or is the victim recorded in one of them |
| WalkProofs.InsertKeepsKeys | CF.cpp:75-85 | a successful insert makes the new key findable in its buckets and keeps every previously stored key there |
| WalkProofs.InsertAllKeepsKeys | CF.cpp:75-85 | after a sequence of successful inserts every inserted key and every key stored before is in one of its buckets |
| QueryProofs.FingerprintMatchesBothWidths | CF.cpp:328-350 | a stored large fingerprint reduced to either width equals the key's fingerprint at that width, so the width switch never hides a stored key |
| QueryProofs.ProbeBuckets | CF.cpp:335-340 | probe 0 reads the key's first bucket and probe 1 its partner under the stored fingerprint |
| QueryProofs.LookupFindsStored | CF.cpp:320-356 | a key whose fingerprint is stored in one of its two buckets is reported present |
| QueryProofs.LookupNeedsMatch | CF.cpp:320-356 | a key reported present is the victim pair, or a non-empty cell of one of its buckets matches its fingerprint under that bucket's width; it assumes stored fingerprints lie in `[0, fp_bsize)`, which holds initially and is kept by `WalkProofs.WalkKeepsRange`, `ScrubProofs.RemoveKeepsRange` and `ScrubProofs.ScrubKeepsRange` |
| QueryProofs.InitFacts | CF.cpp:20-53 | a new filter stores nothing and reports no key present; its counters are exact exactly in adaptive mode; in standard mode every bucket is queried at the small width |
| QueryProofs.VictimCheckAtSmallWidth | CF.cpp:328-333 | when the key's first bucket counts as full, a key that is the victim recorded there passes the victim check exactly when its large fingerprint is below `fp_size` |
| QueryProofs.NoFalseNegatives | CF.cpp:75-85 | after successful inserts into a new filter, query reports every inserted key present |
| ScrubProofs.LiveCompact | CF.cpp:301-312 | compacting a bucket around cell `c` keeps every fingerprint but the one in `c` |
| ScrubProofs.RemoveConserves | CF.cpp:291-313 | random_remove loses exactly the chosen fingerprint and keeps exact counters exact |
| ScrubProofs.ScrubStep | CF.cpp:275-281 | taking a fingerprint out of a full bucket and reinserting it keeps counters exact and loses at most that fingerprint, exactly when the reinsertion fails |
| ScrubProofs.ScrubConserves | CF.cpp:248-284 | in adaptive mode a scrub keeps counters exact; the table plus the fingerprints lost equals the old table, and `cf_num_items` drops by their number |
| ScrubProofs.ScrubKeepsRange | CF.cpp:248-284 | in adaptive mode a scrub keeps every stored fingerprint, and every lost one, in `[0, fp_bsize)` |
| ScrubProofs.RemoveKeepsRange | CF.cpp:291-313 | random_remove keeps every stored fingerprint in `[0, fp_bsize)` |
| ScrubProofs.ScrubIdle | CF.cpp:257 | a scrub over buckets none of which is full changes nothing and draws nothing |
| ScrubProofs.ScrubKeepsKey | CF.cpp:248-284 | a scrub in which no reinsertion fails keeps a stored key in one of its buckets |
| ScrubProofs.ScrubKeepsKeys | CF.cpp:248-284 | the same for every key of a set, over the whole table |
| Filter.CuckooFilter.constructor | CF.cpp:20-53 | builds the table and counters of `CuckooModel.Init` in fresh arrays |
| Filter.CuckooFilter.Write | CF.cpp:127 | writes one cell of the table, as lines 127, 219 and 277 do, and leaves the rest of the state as it was |
| Filter.CuckooFilter.CountIn | CF.cpp:128-129 | `fp_count[b]++` with 8-bit wrap-around and `cf_num_items++`, nothing else |
| Filter.CuckooFilter.CountOut | CF.cpp:278-279 | `fp_count[b]--` with 8-bit wrap-around and `cf_num_items--`, nothing else |
| Filter.CuckooFilter.Place | CF.cpp:127-129 | the write and both increments together leave the state of `CuckooModel.Fill` |
| Filter.CuckooFilter.TryCell | CF.cpp:126-131 | writes the fingerprint exactly when the cell is empty, with its counter and `cf_num_items` |
| Filter.CuckooFilter.Probes | CF.cpp:110-117 | computes `CuckooModel.Candidates` for the drawn coin |
| Filter.CuckooFilter.Admitted | CF.cpp:122-203 | decides `CuckooModel.Admits` from the bucket's `fp_count` |
| Filter.CuckooFilter.ScanCell | CF.cpp:106-205 | one cell index: fills a candidate as `CuckooModel.Scan` does, or leaves the table unchanged and continues the walk from the moved bucket |
| Filter.CuckooFilter.ScanRound | CF.cpp:106-207 | the cell loop of a round: a placement as the walk makes it, or an unchanged table and the eviction that the walk continues with |
| Filter.CuckooFilter.EvictCell | CF.cpp:209-231 | the eviction as `CuckooModel.Evict` makes it: a fill into an empty cell ends the walk, otherwise the displaced fingerprint is carried on |
| Filter.CuckooFilter.Strand | CF.cpp:236-237 | records the carried fingerprint and its bucket as the victim and changes nothing else |
| Filter.CuckooFilter.InsertScrub | CF.cpp:95-240 | leaves the state, return value and random cursor of `CuckooModel.Walk` from round 1 |
| Filter.CuckooFilter.Insert | CF.cpp:75-85 | leaves the state, return value and random cursor of `CuckooModel.Insert` |
| Filter.CuckooFilter.Scrub | CF.cpp:248-284 | leaves the state and random cursor of `CuckooModel.ScrubFrom` over all buckets |
| Filter.CuckooFilter.ScrubBucket | CF.cpp:255-282 | one bucket of the scrub loop, matching `CuckooModel.ScrubFrom` from `p` to `p + 1` |
| Filter.CuckooFilter.RandomRemove | CF.cpp:291-313 | leaves the state of `CuckooModel.RemoveAt` for the chosen cell |
| Filter.CuckooFilter.ShiftDown | CF.cpp:305-312 | the shifting loop turns the bucket into `CuckooModel.Compact` of it and touches nothing else |
| Filter.CuckooFilter.Query | CF.cpp:320-356 | returns exactly `CuckooModel.Lookup` of the current state and changes nothing |
| Filter.CuckooFilter.GetFingerprints | CF.cpp:379-389 | counts the table's non-empty cells, which equals `cf_num_items` whenever the counters are exact |
| Filter.CuckooFilter.BucketFingerprints | CF.cpp:384-386 | counts one bucket's non-empty cells |

## Left out

- get_bucket_occupancy (lines 363-372) is not modelled: it only computes floating-point averages for reporting.
- The destructor and the `new`/`delete` of the table are not modelled; the arrays are garbage-collected.
- `rand()` and its distribution are not modelled. Every draw is a value of an injected stream, so the proofs hold for every sequence of draws.
- random_remove's loop that draws cells until it hits a non-empty one (lines 295-299) is replaced by the cell it ends on, required to be non-empty. The loop does not terminate on an empty table, and the model does not capture that.
- scrub's permutation draws (lines 259-271) are replaced by `picks`, the value of `fp_pos[0]`, the only one used. In the source these draws share the `rand()` stream with the reinsertion walks; the model takes them from a separate stream.
- That a failed key stays findable is not claimed. The victim fingerprint stored at line 237 is a large fingerprint, but the victim check at line 333 reduces the key to the width of its first bucket. When that bucket is counted full at query time, the check passes only if the large fingerprint is already below `fp_size` (`QueryProofs.VictimCheckAtSmallWidth`). In standard mode every bucket is counted full from construction (`QueryProofs.InitFacts`). The victim check also looks only at the key's first bucket, while the victim may have been recorded in its partner. The two probes at lines 335-353 can still match such a key.
- The hashes are modelled for a little-endian host on which `char` is signed, the layout `memcpy` at line 416 then produces. On a big-endian host, or where `char` is unsigned, RSHash and JSHash give other values.
- WalkProofs.WalkKeepsCounts and ScrubProofs.ScrubConserves: the exact-counter properties are stated for adaptive mode (`mode == 1`) only. In standard mode the counters start at `cf_cells` and are not fingerprint counts.
- `cf_num_items` is an unbounded integer; an `int` overflow after 2^31 insertions is not modelled.
- Signed-overflow undefined behaviour in RSHash and JSHash is modelled as two's-complement wrap-around, the behaviour of the usual compilers.
- The claim that the walk always finds a place, or always finds a victim to displace, is not stated. It depends on the draws and the load.
