# SmartMe video keyframe extractor — a Dafny model

SmartMe's `video_process.py` does the following:
- it reads a video one frame at a time;
- it crops each frame vertically and hashes it with one of three perceptual hashes: OpenCV's average hash, OpenCV's pHash, or a hand-written difference hash (dhash);
- it keeps *key frames*, using a greedy windowed deduplication;
- it reports how many frames lie within the distance threshold of some key frame (the "hits").

This project models that core in Dafny and proves properties about it.

`Hashes` (`hashes.dfy`) holds the pure helpers of the `Video` class:
- the Hamming distance between two integer hashes (`Xor`, `PopCount`, `Hamming`);
- the bit packing of the dhash comparisons (`Pack`, `RowDiff`, `GridDiff`, `DHash`) over an image already resized to `hashSize` rows of `hashSize + 1` cells with `channels` values each;
- the big-endian reading of the 8 pHash bytes (`FromBytesBigEndian`);
- the dispatch of `distance` on the method name (`Distance`).

`VideoProcess` (`video_process.dfy`) models the imperative part of the `Video` class:
- The class `Video` has the fields `frames` and `keyFrames`, which its methods update. `LoadVideo`, `ProcessVideo` and `CheckHits` keep the loops of `load_video`, `process_video` and `check_hits`.
- `ProcessVideo` is proved against the recursive selection function `KeyIndices`/`Select`. `CheckHits` is proved against `CoveredCount`.
- Lemmas relate these specifications to what the selector promises:
  - an anchor is emitted exactly when a later frame is far enough from it;
  - key frames come in increasing order, and the last frame is never one;
  - with a threshold of at most 0, every frame but the last is kept;
  - when no two frames are far apart, nothing is kept;
  - when every frame is within the threshold of itself, there are at least as many hits as key frames.
- `Run` models `main` up to the coverage check.

Frames are a type parameter `H`: the record that `load_video` builds (the cropped image and its hash). The distance is a total function on `H`.

`Arguments` (`arguments.dfy`) holds the one argument rule with logic in it: the clamp on the cropping percentage.

## Model

| member | source | states |
|---|---|---|
| Hashes.Xor | video_process.py:67 | the bitwise exclusive or `int(a) ^ int(b)`, taken bit by bit from the least significant; it is 0 exactly when a and b are equal |
| Hashes.XorBit | video_process.py:67 | bit i of a ^ b is set exactly when bit i of a and bit i of b differ |
| Hashes.PopCount | video_process.py:67 | the number of one bits, which `bin(n).count('1')` counts; it is at most n and 0 exactly for n = 0 |
| Hashes.Hamming | video_process.py:62-67 | `Video.hamming`: the popcount of the bitwise xor of the two hashes; it is never negative and is 0 exactly when the hashes are equal |
| Hashes.HammingSymmetric | video_process.py:62-67 | the Hamming distance of a and b equals that of b and a |
| Hashes.HammingCountsDifferingBits | video_process.py:62-67 | for hashes below 2^k, the Hamming distance equals the number of the k low bit positions where they differ, so it is at most k |
| Hashes.Pack | video_process.py:53 | the sum of 2^i over the indices i of the set comparisons; for n comparisons it is below 2^n |
| Hashes.PackBits | video_process.py:53 | bit i of the packed sum is comparison i |
| Hashes.UnpackPack | video_process.py:53 | reading back the n low bits of a packed hash gives the comparisons it was packed from |
| Hashes.PackZeroIff | video_process.py:53 | a packed hash is 0 exactly when no comparison is set |
| Hashes.RowDiffAt | video_process.py:52 | `RowDiff`, one row of `resized[:, 1:] > resized[:, :-1]` flattened cell by cell: its entry c*channels + k says whether channel k of cell c+1 is greater than that of cell c |
| Hashes.RowDiffLength | video_process.py:52 | a row of m+1 cells gives m*channels comparisons |
| Hashes.GridDiffRow | video_process.py:52 | `GridDiff`, the flattened comparison array: row r's comparisons follow those of the r rows before it |
| Hashes.GridDiffLength | video_process.py:52 | the flattened array has rows * width * channels entries |
| Hashes.GridDiffAt | video_process.py:52 | comparison (r, c, k) sits at (r*width + c)*channels + k of the flattened array |
| Hashes.DHash | video_process.py:50-53 | `Video.dhash` from the resized grid on: the comparisons packed as a sum of powers of two; it is below 2 to the number of comparisons |
| Hashes.DHashBit | video_process.py:50-53 | bit (r*hashSize + c)*channels + k of the dhash (the row-major flattening position) is set exactly when channel k of cell c+1 of row r is greater than that of cell c |
| Hashes.DHashBound | video_process.py:50-53 | the dhash is below 2^(hashSize*hashSize*channels): one bit per comparison |
| Hashes.DHashZeroIff | video_process.py:50-53 | the dhash is 0 exactly when no channel of any row grows from one cell to the next |
| Hashes.ConstantImageHashesToZero | video_process.py:50-53 | an image whose values are all equal has dhash 0 |
| Hashes.FromBytesBigEndian | video_process.py:59 | `int.from_bytes(..., byteorder='big', signed=False)`: each byte shifts the value so far up by 256; the value of n bytes is below 256^n |
| Hashes.PHashBound | video_process.py:58-59 | the 8-byte pHash read as an integer is below 2^64 |
| Hashes.FromToBytes | video_process.py:59 | converting a value below 256^n to n big-endian bytes and back gives the value |
| Hashes.ToFromBytes | video_process.py:59 | converting bytes to their big-endian value and back to that many bytes gives the bytes |
| Hashes.FirstByteMostSignificant | video_process.py:59 | in the big-endian reading, the first byte is weighted by 256^(n-1) and the rest are read the same way |
| Hashes.Distance | video_process.py:70-76 | the distance has a value exactly for the methods "phash", "dhash" and "average"; any other method yields no value |
| Hashes.DistanceIsHamming | video_process.py:70-72 | for "phash" and "dhash" the distance is the Hamming distance of the integer hashes; it is symmetric and is 0 exactly when the integer hashes are equal |
| VideoProcess.Pick | video_process.py:126 | the frames at the given indices, in that order: the list that the appends of line 126 build |
| VideoProcess.Select | video_process.py:113-136 | the key frames `process_video` appends, `Pick` of `KeyIndices` from anchor 0; there are fewer of them than frames, and none when there are no frames |
| VideoProcess.CoveredCount | video_process.py:161-167 | the final value of the `hits` counter: the number of frames with some key frame within dist; it is at most the number of frames |
| VideoProcess.FirstFar | video_process.py:121-130 | the inner scan stops at the first frame whose distance from the anchor is >= dist, and every frame it passes is closer than dist; it stops at the frame count when there is no such frame |
| VideoProcess.KeyIndices | video_process.py:113-136 | every selected index is at or after the anchor and before the last frame |
| VideoProcess.KeyIndicesIncreasing | video_process.py:113-136 | selected indices are strictly increasing, so from anchor a at most n-1-a frames are selected |
| VideoProcess.AnchorEmitted | video_process.py:121-130 | an anchor with a far frame j after it, and only close frames in between, is selected, and j becomes the next anchor |
| VideoProcess.AnchorDropped | video_process.py:116-121 | an anchor with no far frame after it is not selected, and the frame right after it becomes the anchor |
| VideoProcess.AnchorEmittedIff | video_process.py:121-130 | an anchor is selected exactly when some later frame is at distance >= dist from it |
| VideoProcess.KeyFramesHaveFarSuccessor | video_process.py:123-126 | every key frame has a later frame at distance >= dist from it |
| VideoProcess.AllFarKeepsAllButLast | video_process.py:113-136 | when every distance is >= dist, the selected indices are exactly a, a+1, ..., n-2 |
| VideoProcess.HammingNonPositiveThreshold | video_process.py:113-136 | with the Hamming distance and dist <= 0, the key frames are all the frames but the last |
| VideoProcess.NoFarPairNoKeyFrames | video_process.py:113-136 | when no frame is at distance >= dist from an earlier one, no key frame is selected |
| VideoProcess.Video.constructor | video_process.py:26-27 | a new video has no frames and no key frames |
| VideoProcess.Video.LoadVideo | video_process.py:79-98 | appends the first `length` frames of the stream, or all of them when the stream ends first |
| VideoProcess.Video.ProcessVideo | video_process.py:113-136 | appends exactly the selected key frames, `Select(frames, length, dist, distance)`, in order |
| VideoProcess.Video.CheckHits | video_process.py:161-168 | returns the number of frames within dist of some key frame (each frame counted once), which is at most the number of frames |
| VideoProcess.CoveredCountAtLeast | video_process.py:161-167 | the hit count is at least the size of any increasing list of covered frame indices |
| VideoProcess.HitsAtLeastKeyFrames | video_process.py:161-167 | when every frame is within dist of itself, the hit count is at least the number of key frames |
| VideoProcess.HammingHitsAtLeastKeyFrames | video_process.py:161-167 | with the Hamming distance and dist >= 0, the hit count is at least the number of key frames |
| VideoProcess.Run | video_process.py:188-193 | loading, selecting and checking give the selection and coverage count of the first `length` frames; there are fewer key frames than frames; hits are at most `length`, and at least the number of key frames when every frame is within dist of itself |
| VideoProcess.ZeroThresholdExample | video_process.py:113-136 | hashes 1,1,2,2,3 with the Hamming distance and threshold 0 keep 1,1,2,2 |
| VideoProcess.FewDifferingBitsExample | video_process.py:113-136 | hashes 10,10,10,50,50 with the Hamming distance and threshold 5 keep nothing |
| VideoProcess.DroppedThenKeptExample | video_process.py:116-130 | hashes 1,0,3 with the Hamming distance and threshold 2: anchor 0 is dropped (both later frames are one bit away), anchor 1 is kept because frame 2 is two bits away, and the trailing anchor 2 is not kept; the key frames are [0] |
| VideoProcess.TenFiftyHamming | video_process.py:67 | 10 and 50 differ in three bits |
| Arguments.ClampCropping | video_process.py:182-183 | the result is in [0, 50); a value in [0, 50) is kept, and any other value becomes 33 |
| Arguments.ClampIdempotent | video_process.py:182-183 | clamping twice gives the same result as clamping once |

## Left out

- Video capture and OpenCV: opening the capture, the frame count, width, height and fps (`__init__`), `cap.read`, `cv2.resize`, `cv2.cvtColor` and `img_hash` are not modelled. The model starts from the stream of loaded frames, from the resized image grid (dhash) and from the 8 hash bytes (pHash).
- The average hash: `AverageHash.compute` and `compare` are library calls. `Distance` takes `compare` as a parameter, and the selector takes any total distance.
- The crop slice in `load_video` (video_process.py:85) and `cropping_val` (video_process.py:28) are floating-point arithmetic and are not modelled. The stream elements are frames already cropped and hashed.
- The `q` key break in `process_video` and `show_video`, the display (`imshow`, `waitKey`), the progress bars and their `incr` bookkeeping, and the prints are user interaction and output. `show_video` is left out.
- `save_key_frames` and `write_key_frames_hashes` write files. `write_key_frames_hashes` also reads the undefined name `name` (video_process.py:149), so `main` stops with an error right after `check_hits`. That is why `Run` ends at the coverage check.
- `__del__`: releasing the capture and closing windows.
- `video_hit.py` is not part of this model.
- The argument parser itself (`argparse`, the required options, the `choices` restriction) is not modelled; only the cropping clamp is.
- VideoProcess.Video.ProcessVideo and VideoProcess.Run: require `length <= |frames|` (`length <= |stream|` for `Run`). When the capture reports more frames than it delivers, `load_video` stops early, and `process_video` then always reads `frames[length - 1]` in its last outer iteration (video_process.py:117, 122). So `main` always stops with `IndexError` in that case. The model does not represent this failure.
- VideoProcess.Video: the distance is a total function. The `None` that `distance` returns for an unknown method is modelled only in `Hashes.Distance`; the parser never lets such a method through.
- Hashes.Distance: `toInt` stands for Python's `int(...)` of a hash, and `compare` is an integer. OpenCV's `compare` returns a floating-point value.
- Hashes.DHash: the width of the dhash is not fixed at 64 bits. A BGR frame has 3 channels, so the default `hash_size=8` gives 8*8*3 = 192 comparisons. The model keeps `channels` as a parameter.
- Frames are compared only through their hashes. Key frames are the frame records themselves, in the order they are appended.

## Behaviour notes

With the pHash and dhash methods, the distance between two hashes is the Hamming distance. Hashes 10 and 50 are three bits apart, so with hashes 10, 10, 10, 50, 50 and threshold 5 no frame closes an anchor's window, and no key frame is selected (`VideoProcess.FewDifferingBitsExample`). The last anchor is never kept as a key frame (`VideoProcess.DroppedThenKeptExample`).
