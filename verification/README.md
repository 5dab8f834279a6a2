# Rail-fence transposition of a flat item list

This project models the cipher engine of an image rail-fence tool. The tool flattens an
image's pixel array into one list. It shuffles the list with the rail-fence transposition
and reshapes it back. The engine is two Python functions in `cipher.py`:

- `rail_fence_encrypt` walks the items in a zig-zag over `rails` rails. The walk goes down
  rail 0, 1, …, `rails - 1`, then back up, and so on. Each item is appended to the rail the
  walk is on. The output is the rails read out in order.
- `rail_fence_decrypt` rebuilds the same zig-zag pattern and counts how many positions fall
  on each rail. It cuts its input into one slice per rail of those sizes. It then replays
  the pattern, taking the next unread item of the visited rail at each step.

The model is generic in the item type. Pixels are one instance; the engine never looks at
an item's value.

Files and modules:

- `sequences.dfy` (`Sequences`): counting occurrences (`list.count`), sums, flattening a
  list of lists, and cutting a sequence into consecutive slices of given sizes.
- `zigzag.dfy` (`ZigZag`): the walk state `(rail, direction)` and one step of it. Also the
  state after `i` steps, the pattern of the first `n` positions, and the closed form of the
  walk (period `2R - 2`).
- `railfence.dfy` (`RailFence`): encryption and decryption as pure functions. It also holds
  the placement of every item, both round trips, and the permutation facts.
- `cipher.dfy` (`Cipher`): the two Python functions written as the loops they are. Each is
  proved to compute the functional definition.

The rail count is a precondition `rails >= 2`. The only caller checks it before calling the
engine (main.py:44-45), and the engine itself has no check for it. A hardened engine that
returns an `InvalidRailCount` error for fewer than two rails would differ from this code.
The model follows the code, which has no such error.

## Model

| member | source | states |
|---|---|---|
| ZigZag.StateAt | cipher.py:4-14 | after any number of steps the walk stays on a rail in `0 .. rails-1`, moves by ±1, heads down on rail 0 and up on the last rail; so `fence[rail]` is always in bounds |
| ZigZag.Pattern | cipher.py:24-31 | the recorded pattern has one entry per item, every entry is a valid rail, and it starts on rail 0 |
| ZigZag.PatternAdjacent | cipher.py:10-14 | consecutive positions of the walk are on neighbouring rails |
| ZigZag.PatternAt | cipher.py:24-31 | entry `i` of the recorded pattern is the rail of the walk after `i` steps, the same walk encryption follows |
| ZigZag.PatternPrefix | cipher.py:24-31 | the pattern of a shorter input is a prefix of the pattern of a longer one |
| ZigZag.StateAtIsClassic | cipher.py:4-14 | the step-by-step walk equals the classical closed form: position `i` is on rail `i mod (2R-2)` on the way down and `2R-2 - (i mod (2R-2))` on the way up |
| ZigZag.PatternIsClassic | cipher.py:24-31 | every pattern entry is the closed-form rail of its position |
| ZigZag.ShortPattern | cipher.py:24-31 | with no more items than rails the walk never turns: position `i` is on rail `i` |
| RailFence.Encrypt | cipher.py:1-17 | the ciphertext has the same length as the input (so an empty input gives an empty output) and holds exactly the same items (a permutation) |
| RailFence.FenceIsOnRail | cipher.py:8-9 | bucket `r` holds exactly the items whose walk position is on rail `r`, in their original order, as an independent front-to-back filter defines them |
| RailFence.EncryptByRail | cipher.py:1-17 | the ciphertext is the textbook reading: the items on rail 0 in input order, then rail 1, and so on to the last rail |
| RailFence.FenceKeepsItems | cipher.py:8-17 | bucketing into rails and reading them out loses and invents no item |
| RailFence.FenceSizes | cipher.py:8-9 | each rail bucket holds as many items as the walk visits that rail, which is the `pattern.count(r)` decryption computes |
| RailFence.FenceLengths | cipher.py:34 | the bucket sizes of encryption are exactly decryption's `rail_counts` |
| RailFence.FenceAt | cipher.py:8-9 | item `i` lands in bucket `pattern[i]` at the index given by the number of earlier items on that rail |
| RailFence.FencePlaces | cipher.py:8-17 | after read-out, item `i` sits at the start of its rail's block plus its rank within that rail |
| RailFence.EncryptPlaces | cipher.py:1-17 | encryption moves item `i` to that position and nowhere else |
| RailFence.EncryptKeepsRailOrder | cipher.py:8-9 | two items on the same rail keep their relative order in the ciphertext |
| RailFence.SumCounts | cipher.py:33-34 | the per-rail counts add up to the input length, so the slices use up the whole ciphertext |
| RailFence.SplitFits | cipher.py:34-41 | slicing the ciphertext by the counts gives one slice per rail, each exactly as long as that rail's count |
| RailFence.ReplayAt | cipher.py:44-49 | output item `i` is read from rail `pattern[i]` at that rail's cursor, and the read is in bounds |
| RailFence.ReplaySnoc | cipher.py:47-49 | one more reconstruction step reads the next unread item of its rail, which exists, and keeps every cursor within its slice |
| RailFence.ReplayReads | cipher.py:36-49 | slicing then replaying reads output item `i` from the same position encryption moves item `i` to |
| RailFence.Decrypt | cipher.py:20-51 | the plaintext has the same length as the ciphertext, so an empty input gives an empty output |
| RailFence.DecryptReads | cipher.py:20-51 | decryption reads item `i` from the position encryption puts it at: the inverse placement |
| RailFence.FenceOfReplay | cipher.py:44-49 | bucketing the reconstructed list by the same walk gives back the read part of every slice |
| RailFence.FenceOfSplitReplay | cipher.py:36-49 | bucketing the reconstruction and reading the buckets out gives the ciphertext back |
| RailFence.DecryptEncrypt | cipher.py:1-51 | decrypting an encryption with the same rail count gives the original list back |
| RailFence.EncryptDecrypt | cipher.py:1-51 | encrypting a decryption with the same rail count gives the ciphertext back, so both operations are bijections on lists of a given length |
| RailFence.DecryptKeepsItems | cipher.py:20-51 | decryption is a permutation of its input |
| RailFence.ShortIsIdentity | cipher.py:1-51 | with no more items than rails, encryption and decryption both return the input unchanged |
| Sequences.CountIsMultiplicity | cipher.py:34 | `pattern.count(r)` as modelled is the number of times `r` occurs, the multiplicity of `r` in the pattern's multiset |
| Sequences.FlattenAt | cipher.py:17 | in the read-out, item `k` of rail `r` follows every item of the rails before `r` |
| Sequences.SplitCovers | cipher.py:37-41 | the slices are contiguous, in order, and together cover the first `sum(counts)` items |
| Sequences.SplitChunk | cipher.py:39-41 | slice `k` is `data[idx:idx + counts[k]]` with `idx` the sum of the earlier counts |
| Sequences.SplitAt | cipher.py:39-41 | item `k` of slice `r` is the input item at the slice's start plus `k` |
| Sequences.SplitFlatten | cipher.py:37-41 | slicing a read-out at the bucket sizes recovers the buckets |
| Sequences.CountBefore | cipher.py:48 | a rail's cursor before a visit is below that rail's count, so `rails_data[r][rail_indices[r]]` is in bounds |
| Sequences.CountRankIncreasing | cipher.py:8-9 | later visits to the same rail get strictly larger ranks |
| Cipher.BucketRails | cipher.py:3-14 | the bucketing loop produces the functional fence, with the walk state equal to the walk after `i` steps at every iteration |
| Cipher.ConcatRails | cipher.py:17 | the comprehension concatenates the rails from first to last |
| Cipher.RailFenceEncrypt | cipher.py:1-17 | the loop program computes the functional encryption |
| Cipher.BuildPattern | cipher.py:24-31 | the pattern loop records exactly the walk of the functional model |
| Cipher.CountOf | cipher.py:34 | the counting loop computes the number of occurrences of `r` |
| Cipher.CountRails | cipher.py:34 | `rail_counts` is the per-rail count list |
| Cipher.SliceRails | cipher.py:37-41 | the slicing loop computes the functional slices, and no slice is cut short by the end of the input |
| Cipher.ReconstructStep | cipher.py:47-49 | one turn of the reconstruction loop reads in bounds and advances exactly the visited rail's cursor |
| Cipher.Reconstruct | cipher.py:44-49 | the reconstruction loop computes the functional replay, and afterwards every cursor stands at the end of its slice |
| Cipher.RailFenceDecrypt | cipher.py:20-51 | the loop program computes the functional decryption |

## Left out

- `main.py`: the Tkinter GUI, file dialogs, message boxes and image preview are user interface, with no logic of the engine.
- `main.py`'s `img.flatten().tolist()` and `reshape(img.shape)` around the engine calls: the model works on the flat list. Reshaping a list of the same length is a fixed relabelling, outside the engine.
- `img_util.py`: loading and saving images through OpenCV is file I/O.
- Rail counts below 2. The model requires `rails >= 2`, which the caller guarantees (main.py:44-45). The Python engine does not reject smaller counts. With one rail it raises an `IndexError` once the input has two items. With zero or negative rails it raises one on the first item. The model does not describe these crashes.
- Python's slice clamping in `data[idx:idx + count]`. `SliceRails` requires that the counts fit in the input, and `SumCounts` proves they always do, so a clamped slice never occurs.
- No claim is made about the cipher's security; it is a fixed, key-less permutation apart from the rail count.
