# Frame overlap search and natural file-name ordering, in Dafny

This project models two pieces of a tool that compares images and videos.

1. **The video overlap search** (`VideoComparison`, `video_comparison.dfy`).
   `find_video_overlap` looks for the longest run of frames that the two
   videos share, frame for frame, in 1:1 stride. It tries every start pair
   `(i1, i2)`, ascending in `i1` and then in `i2`. From each start it walks both
   videos in lock-step while the fingerprints match. A walk becomes the new
   best only when it is strictly longer than the best so far and at least
   `threshold` long. The result is `(start1, start2, length)`, or
   `(None, None, 0)` when no walk qualifies.
   - Two fingerprints match when their distance is at most the tolerance
     (`compare_hashes`, default 5). The search always uses the default.
   - Fingerprints are an abstract type `H`. The fingerprint library's distance
     is the parameter `dist: (H, H) -> nat`.
   - The method `FindVideoOverlap` keeps the source's nested loops and its
     running best state. It is proved against the recursive specification
     `RunLen`, the length of the greedy walk from one start pair.
   - Its postcondition `IsBestOverlap` states the whole promise. The starts are
     `None` exactly when the length is 0, and that happens exactly when no start
     pair has a qualifying walk. Otherwise the length is the maximum walk over
     all start pairs and it qualifies. Its start pair is the first one in scan
     order whose walk has that length.
   - `BestOverlapUnique` shows that this promise fixes the result.
     `VideoOverlapScenarios` uses it to derive the outcomes of the repository's
     two tests from the postcondition alone.
2. **The natural sort key** (`ImagesToVideo`, `images_to_video.dfy`).
   `natural_sort_key` orders image file names "numerically" before they are
   written into a video.
   - It splits the name around its maximal digit runs, keeping the runs, as
     `re.split(r'(\d+)', s)` does. Digit runs become numbers and text runs are
     lower-cased.
   - `SplitDigits` models the split. `IsRunSplit` is an independent description
     of the split: alternating text and digit pieces, digit runs maximal, and
     the pieces spell the name. `SplitUnique` proves that description has
     exactly one solution.
   - `KeyLess` models Python's `<` on the resulting lists. It gives `None`
     where Python would raise because a string is compared with an int.

`Wrappers` (`wrappers.dfy`) holds the `Option` type that stands for Python's
`None`.

## Model

| member | source | states |
|---|---|---|
| VideoComparison.CompareHashes | src/video_comparison.py:20-21 | two fingerprints match iff dist(hash1, hash2) <= maxDistance; since distances are non-negative, a negative tolerance matches nothing |
| VideoComparison.CompareHashesReflexive | src/video_comparison.py:20-21 | a fingerprint at distance 0 from itself matches itself at any tolerance >= 0 |
| VideoComparison.RunLen | src/video_comparison.py:48-58 | a non-empty greedy walk from (i1, i2) stays inside both sequences: i1 + n <= len1 and i2 + n <= len2 |
| VideoComparison.RunLenMatches | src/video_comparison.py:52-58 | every pair covered by the greedy walk matches at the default tolerance |
| VideoComparison.RunLenMaximal | src/video_comparison.py:52-58 | no run of matching pairs from (i1, i2) is longer than the greedy walk, so the walk stops only at the first mismatch or at the end of either sequence |
| VideoComparison.BestSoFarStep | src/video_comparison.py:60-63 | trying one start pair keeps the running best state: it is replaced only for a strictly longer walk of at least threshold frames, and every earlier pair's walk stays covered |
| VideoComparison.BestSoFarNextRow | src/video_comparison.py:46-47 | finishing the inner loop for i1 is the same state as starting the row i1 + 1 |
| VideoComparison.BestSoFarDone | src/video_comparison.py:65-68 | after all start pairs, returning (None, None, 0) when the best length is 0, and the recorded triple otherwise, meets the search's promise |
| VideoComparison.FindVideoOverlap | src/video_comparison.py:35-68 | the result meets IsBestOverlap: starts and length change together; the result is (None, None, 0) exactly when no start pair has a walk >= max(threshold, 1); otherwise the length is the maximum walk over all start pairs, at least threshold, and its start pair is the first in (i1, i2) order whose walk has that length; an empty input gives (None, None, 0) |
| VideoComparison.BestOverlapUnique | src/video_comparison.py:46-68 | two results that both meet the promise are equal, so the search is deterministic |
| VideoComparison.BestOverlapWindow | src/video_comparison.py:52-63 | a reported window of length L has L >= threshold, s1 + L <= len1, s2 + L <= len2, and matching pairs at each offset k < L |
| VideoComparison.SelfOverlap | src/video_comparison.py:35-68 | a non-empty sequence whose fingerprints are at distance 0 from themselves overlaps itself as (0, 0, len) when threshold <= len |
| VideoOverlapScenarios.NoRunFromRedOrGreen | tests/test_find_videos_overlap.py:9-30 | in the first test, no walk starts at the red or green frame |
| VideoOverlapScenarios.ScenarioOverlapFound | tests/test_find_videos_overlap.py:9-30 | [Red, Green, Blue, Yellow, Cyan] against [Blue, Yellow, Cyan] at threshold 3 meets the promise as (2, 0, 3) |
| VideoOverlapScenarios.TestOverlapFound | tests/test_find_videos_overlap.py:9-30 | the search returns (2, 0, 3) for the first test |
| VideoOverlapScenarios.ScenarioNoOverlap | tests/test_find_videos_overlap.py:32-51 | two videos without a common colour meet the promise as (None, None, 0) |
| VideoOverlapScenarios.TestNoOverlap | tests/test_find_videos_overlap.py:32-51 | the search returns (None, None, 0) for the second test |
| VideoOverlapScenarios.MiddleRunIsLongest | src/video_comparison.py:46-63 | for [Red, Green, Blue, Yellow, Cyan] against [White, Black, Green, Blue, Yellow, Gray], only the start pair (1, 2) has a walk of 3 frames and no walk is longer |
| VideoOverlapScenarios.TestMiddleOverlap | src/video_comparison.py:46-63 | the search returns (1, 2, 3) for that pair of videos at threshold 2 |
| ImagesToVideo.IsDigitString | src/images_to_video.py:7 | `str.isdigit`: a non-empty string of digits only, which is then one whole digit run |
| ImagesToVideo.LowerChar | src/images_to_video.py:7 | `str.lower` on one ASCII character: the result is never an upper-case letter and is a digit exactly when the input is |
| ImagesToVideo.Lower | src/images_to_video.py:7 | `str.lower` on ASCII text: same length, no upper-case letter left, digits exactly where the input has them |
| ImagesToVideo.DecimalValue | src/images_to_video.py:7 | `int` on a digit string: the value of k digits is below 10^k |
| ImagesToVideo.DecimalRoundTrip | src/images_to_video.py:7 | `int` reads back every natural number written in decimal without leading zeros |
| ImagesToVideo.DecimalLeadingZero | src/images_to_video.py:7 | for a non-empty digit string d, a leading zero does not change the value `int` gives, as int("007") == 7 |
| ImagesToVideo.KeyPart | src/images_to_video.py:7 | a piece becomes a number exactly when it is a digit string, the number being below 10^k for k digits; otherwise it becomes text of the same length (its lower-cased self) |
| ImagesToVideo.TextRunLength | src/images_to_video.py:7 | the result is the length of the longest digit-free prefix: that prefix has no digit, and the next character, if any, is a digit |
| ImagesToVideo.DigitRunLength | src/images_to_video.py:7 | the result is the length of the longest all-digit prefix: that prefix is all digits, and the next character, if any, is not a digit |
| ImagesToVideo.SplitSingle | src/images_to_video.py:7 | a name without digits splits into itself alone |
| ImagesToVideo.SplitCons | src/images_to_video.py:7 | a text run, then a digit run, then a split of the rest that starts with a non-empty text run, is a split of the whole name |
| ImagesToVideo.SplitDigits | src/images_to_video.py:7 | the split has odd length; even pieces hold no digit; odd pieces are non-empty digit strings; interior text pieces are non-empty; the pieces concatenate back to the name (lossless); a name starting with a non-digit has a non-empty first piece |
| ImagesToVideo.TextRunLengthOf | src/images_to_video.py:7 | a digit-free prefix followed by a digit or by the end is exactly the first text run |
| ImagesToVideo.DigitRunLengthOf | src/images_to_video.py:7 | an all-digit prefix followed by a non-digit or by the end is exactly the digit run |
| ImagesToVideo.SplitTail | src/images_to_video.py:7 | dropping the first text and digit pieces of a split leaves a split of the remaining text, and that text is empty or starts with a non-digit |
| ImagesToVideo.SplitUnique | src/images_to_video.py:7 | every split into maximal runs of a name is the one SplitDigits computes |
| ImagesToVideo.NaturalSortKey | src/images_to_video.py:6-7 | the key has odd length; text parts are exactly at even positions and number parts at odd positions; text parts hold no digit |
| ImagesToVideo.DigitRunCountText | src/images_to_video.py:7 | a digit-free prefix adds no digit run |
| ImagesToVideo.DigitRunCountDigits | src/images_to_video.py:7 | a digit run followed by a non-digit or by the end adds exactly one digit run |
| ImagesToVideo.NaturalSortKeyLength | src/images_to_video.py:7 | the key has length 2k + 1, where k is the number of maximal digit runs of the name |
| ImagesToVideo.NaturalSortKeyPieces | src/images_to_video.py:7 | for the split of a name into maximal runs, the key holds the lower-cased text runs at even positions, and at odd positions the decimal values of the digit runs, in order |
| ImagesToVideo.NaturalSortKeyNoDigits | src/images_to_video.py:7 | a name without digits has the key [Text(lower(name))] |
| ImagesToVideo.NaturalSortKeyEmpty | src/images_to_video.py:7 | the empty name has the key [Text("")] |
| ImagesToVideo.LowerPieces | src/images_to_video.py:7 | lower-casing each piece keeps the number of pieces and lower-cases each one |
| ImagesToVideo.LowerConcat | src/images_to_video.py:7 | lower-casing the pieces and then concatenating them gives the lower-cased concatenation |
| ImagesToVideo.LowerKeepsDigits | src/images_to_video.py:7 | lower-casing keeps text digit-free, leaves digit strings unchanged, and is idempotent |
| ImagesToVideo.LowerPiecesSplit | src/images_to_video.py:7 | the lower-cased pieces of a split are a split of the lower-cased name |
| ImagesToVideo.NaturalSortKeyCaseInsensitive | src/images_to_video.py:7 | key(lower(s)) == key(s) |
| ImagesToVideo.AlternatingComparable | src/images_to_video.py:7 | two part lists whose text parts sit at positions of the same parity compare without mixing a string and an int |
| ImagesToVideo.NaturalSortKeysComparable | src/images_to_video.py:14-15 | comparing the keys of any two names never compares a string with an int, so for ASCII names the sort cannot raise |
| ImagesToVideo.StringLess | src/images_to_video.py:15 | Python's `<` on strings, lexicographic by code point with a proper prefix first; never true of a string and itself |
| ImagesToVideo.PartLess | src/images_to_video.py:15 | Python's `<` on two key parts; it raises (None) exactly when a string meets an int, and it is never true of a part and itself |
| ImagesToVideo.KeyLess | src/images_to_video.py:15 | Python's `<` on two keys, as list comparison at the first differing position; a key is never below itself, and comparing a key with itself gives False without raising |
| ImagesToVideo.StringLessAsymmetric | src/images_to_video.py:14-15 | string < is asymmetric |
| ImagesToVideo.KeyLessAsymmetric | src/images_to_video.py:14-15 | if key a < key b then b < a is False: the key order is asymmetric |
| ImagesToVideo.KeyImage2 | src/images_to_video.py:5-7 | key("image_2.png") is [Text("image_"), Num(2), Text(".png")] |
| ImagesToVideo.KeyImage10 | src/images_to_video.py:5-7 | key("image_10.png") is [Text("image_"), Num(10), Text(".png")] |
| ImagesToVideo.SplitAroundNumber | src/images_to_video.py:7 | a digit-free prefix p, a digit run d and a rest q that does not start with a digit split as [p, d] followed by the split of q |
| ImagesToVideo.KeyAroundNumber | src/images_to_video.py:7 | the key of p + d + q is Text(lower(p)), then Num(int(d)), then the parts of q's pieces |
| ImagesToVideo.NumericOrder | src/images_to_video.py:5-15 | for a digit-free prefix p and a rest q that does not start with a digit, key(p + str(m) + q) < key(p + str(n) + q) is True exactly when m < n and False otherwise, never raising: names sort by the value of their number |
| ImagesToVideo.NumericOrdering | src/images_to_video.py:5-15 | key("image_2.png") < key("image_10.png"), an instance of NumericOrder |

## Left out

- Fingerprinting (`get_frame_hash`, `cv2_to_pil_image`, src/video_comparison.py:13-18) calls OpenCV, PIL and imagehash. The model takes the hashes as input, and the distance `dist` stands for imagehash's Hamming-distance subtraction.
- FindVideoOverlap: takes the two hash sequences rather than the frames. Hashing every frame (src/video_comparison.py:43-44) is done by the caller.
- The `hash_size` parameter of `find_video_overlap` is not used by the source and is not modelled.
- The fingerprint library is not part of this model. Its distance is a total function into the naturals. The search and its proofs assume no law of it. Only SelfOverlap and CompareHashesReflexive require dist(h, h) == 0 of the fingerprints they are about. No other law, such as symmetry, is assumed anywhere.
- Frame decoding (`get_video_frames`), the tqdm progress bars, colorama's initialisation and the printed report (`generate_video_report`) are I/O. The inclusive end index `start + length - 1` appears only in that report.
- `find_video_overlap` calls `compare_hashes` without a tolerance (src/video_comparison.py:53), so the search always uses the default 5. The tolerance is therefore not a parameter of FindVideoOverlap. The default `threshold=3` (src/video_comparison.py:35) is the constant DefaultThreshold, which the test scenarios pass. The threshold itself stays a parameter.
- FindVideoOverlap: `threshold` is any integer, as in Python, with no precondition that rejects a negative value. For a threshold of 1 or less, any non-empty walk qualifies.
- The test scenarios use real perceptual hashes of solid-colour frames. The model restates them with an abstract `Colour` fingerprint whose distance is 0 between equal colours and 64 otherwise.
- NaturalSortKey: covers ASCII only. Python's `\d` and `str.isdigit` also accept other Unicode digits, and `str.lower` maps non-ASCII letters. In the model the digits are '0'..'9' and lower-casing changes only 'A'..'Z'. So the model does not cover a text piece made only of non-ASCII digit characters, such as "²", which makes Python's `int` raise.
- NaturalSortKey: DecimalValue gives the value of a digit run of any length. Python 3.10.7 and later make `int` raise ValueError on a string of more than 4300 digits. A file name from `os.listdir` is at most 255 bytes long, so it cannot reach that limit.
- The sort itself (`images.sort`, src/images_to_video.py:15) is Python's built-in list sort. The model gives the key and Python's `<` on keys (KeyLess), and proves that any two keys compare without error and that `<` is asymmetric. Transitivity of that order is not proved.
- The rest of `images_to_video` (directory listing, image reads, resizing, VideoWriter) and `main` (interactive input) are I/O.
- The SSIM-based comparisons (src/image_comparison.py, src/app.py) produce floating-point scores from foreign libraries and are not part of this model.
