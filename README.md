# Video dehazing: atmospheric light and frame orchestration

This project models the integer core of a video dehazing tool
(`Video_fog_removal-main/model/predict.py`), which has two parts.

The first part is `estimate_atmospheric_light`, which picks a three-value "atmospheric light" from one 8-bit BGR frame. It works in four steps:

1. It sizes a sample as `num_pixels = int(H * W * p)`.
2. It takes every channel's maximum.
3. It ranks the channels by that maximum, brightest first (`np.argsort(...)[::-1]`).
4. For output slot `c`, it reads position `-num_pixels` of the ascending sort of the channel ranked `c`-th.

The second part is `process_video`, which runs the pipeline over a video. It estimates the light once, from the first frame. It opens the writer at that frame's size. It then restores and writes every later frame, in order, until a read fails.

Modules:

- `Results`: `Option` and `Result`.
- `Frames`: 8-bit pixels and frames, with the pixels in `ravel` order. Also the percentile as an exact fraction, `int()` truncation, and the error kinds.
- `Sorting`: `np.max`, and `np.sort` as an insertion sort. Also counts of values at or above a threshold, and which order statistic a sorted index reads.
- `ArgSort`: `np.argsort(keys)[::-1]` as a stable insertion argsort, reversed.
- `AtmosphericLight`: the estimator, both as a function and as the method that fills a three-slot array in a loop, with its properties.
- `VideoProcessing`: the orchestration loop over a frame sequence. `fast_visibility_restoration` is an opaque function `restore(frame, light)`.

Behaviour of the code that the model keeps as written:

- **A sample of size 0.** Index `-0` is index 0, so a sample size of 0 silently returns each ranked channel's minimum instead of raising an error (`ZeroPixelCountTakesMinimum`).
- **Slots follow brightness.** The comment at line 18 says "highest pixel values from each channel", but line 21 stores in slot `c` the value of the channel ranked `c`-th, not of channel `c`. A frame of one colour therefore yields the colour's components in non-increasing order. It comes back unchanged only when it is already non-increasing, such as grey or white (`UniformFrameLight`, `NonIncreasingColourIsKept`, `RisingColourIsReversed`).
- **The first frame.** The first frame is read at line 58 for estimation only and is never written, so the output holds `n - 1` frames (`ProcessVideo`).
- **An empty video.** An empty video hands `None` to the estimator, which fails at line 10; the model reports it as `NoFrame`.
- **Other errors.** The code raises an error on a frame without pixels (`np.max` of an empty array, `EmptyFrame`). It also raises one when `-num_pixels` is not a valid index, that is when `int(H·W·p)` is greater than H·W or at most -(H·W) (`IndexOutOfRange`).
- **Negative sample sizes.** For -(H·W) < `num_pixels` < 0, index `-num_pixels` is non-negative and reads position `-num_pixels` from the bottom of the ascending sort (`NegativeCountReadsFromBottom`).

## Model

| member | source | states |
|---|---|---|
| Frames.ChannelValues | Video_fog_removal-main/model/predict.py:21 | `img[:, :, c].ravel()` has one value per pixel, and value i is channel c of pixel i |
| Frames.TruncDivBounds | Video_fog_removal-main/model/predict.py:10 | `int()` of a quotient rounds toward zero: down for a non-negative dividend, up for a negative one |
| Frames.PixelCountTruncates | Video_fog_removal-main/model/predict.py:10 | `num_pixels` is H·W·p truncated toward zero: the floor when H·W·p ≥ 0, the ceiling otherwise |
| Frames.PixelCountWithinFrame | Video_fog_removal-main/model/predict.py:10 | for a percentile in [0, 1], 0 ≤ `num_pixels` ≤ H·W |
| Sorting.Max | Video_fog_removal-main/model/predict.py:13 | a channel maximum is one of the channel's values, and no value exceeds it |
| Sorting.SortAsc | Video_fog_removal-main/model/predict.py:21 | `np.sort` returns an ascending sequence of the same length |
| Sorting.SortAscPermutes | Video_fog_removal-main/model/predict.py:21 | `np.sort` is a permutation: the same values, each as often |
| Sorting.CountSort | Video_fog_removal-main/model/predict.py:21 | sorting keeps, for every threshold, the number of values at or above it |
| Sorting.SortedIndexIsKthLargest | Video_fog_removal-main/model/predict.py:21 | index `len - k` of the ascending sort is the k-th largest value: it occurs, at least k values reach it, and fewer than k exceed it |
| Sorting.KthLargestUnique | Video_fog_removal-main/model/predict.py:21 | only one value is the k-th largest, so the slot value is determined by the channel's values alone |
| Sorting.SortedFirstIsMinimum | Video_fog_removal-main/model/predict.py:21 | index 0 of the ascending sort is the smallest value |
| ArgSort.ArgSortPrefix | Video_fog_removal-main/model/predict.py:16 | the ascending argsort lists each index once, in stable ascending key order |
| ArgSort.Ranking | Video_fog_removal-main/model/predict.py:16 | `argsort(keys)[::-1]` lists each index exactly once, from the largest key down; among equal keys the higher index comes first |
| ArgSort.RankingDistinct | Video_fog_removal-main/model/predict.py:16 | no channel is ranked twice |
| AtmosphericLight.PyIndex | Video_fog_removal-main/model/predict.py:21 | `a[i]` is defined exactly when -n ≤ i < n; a negative i reads position n + i |
| AtmosphericLight.ChannelMaxima | Video_fog_removal-main/model/predict.py:13 | `max_channel_vals[c]` is the maximum of channel c |
| AtmosphericLight.ChannelOrder | Video_fog_removal-main/model/predict.py:13-16 | `sorted_vals` is a permutation of the channels, with non-increasing maxima; ties put the higher channel first |
| AtmosphericLight.SlotValue | Video_fog_removal-main/model/predict.py:21 | the value stored in slot c is a value of channel `sorted_vals[c]` |
| AtmosphericLight.LightForCount | Video_fog_removal-main/model/predict.py:13-23 | for a given `num_pixels`: success iff the frame has pixels and -(H·W) < `num_pixels` ≤ H·W; otherwise `EmptyFrame` or `IndexOutOfRange` |
| AtmosphericLight.EstimateLight | Video_fog_removal-main/model/predict.py:8-23 | success iff the frame has pixels and -(H·W) < int(H·W·p) ≤ H·W; the error otherwise, as above |
| AtmosphericLight.EstimateAtmosphericLight | Video_fog_removal-main/model/predict.py:19-23 | the slot-by-slot loop over a zeroed three-slot array returns exactly the light (or error) EstimateLight describes |
| AtmosphericLight.LightIsKthLargest | Video_fog_removal-main/model/predict.py:19-21 | for 1 ≤ `num_pixels` ≤ H·W, slot c is the `num_pixels`-th largest value of channel `sorted_vals[c]` |
| AtmosphericLight.LightWithinRankedChannel | Video_fog_removal-main/model/predict.py:21 | every slot is an actual pixel value of its ranked channel, hence at most that channel's maximum |
| AtmosphericLight.NegativeCountReadsFromBottom | Video_fog_removal-main/model/predict.py:21 | for -(H·W) < `num_pixels` < 0 the read succeeds, and slot c is the value at ascending position `-num_pixels` of channel `sorted_vals[c]` |
| AtmosphericLight.ZeroPixelCountTakesMinimum | Video_fog_removal-main/model/predict.py:21 | with `num_pixels` = 0 the read does not fail, and each slot is the minimum of its ranked channel |
| AtmosphericLight.DefaultPercentileFailsOnlyWhenEmpty | Video_fog_removal-main/model/predict.py:8-10 | with the default 0.1, the estimate succeeds exactly on frames with pixels |
| AtmosphericLight.UniformSlots | Video_fog_removal-main/model/predict.py:13-21 | on a one-colour frame, slot c is the colour's component in channel `sorted_vals[c]` |
| AtmosphericLight.UniformFrameLight | Video_fog_removal-main/model/predict.py:13-21 | on a one-colour frame the light is the colour's components, rearranged into non-increasing order; it equals the colour iff the components are non-increasing |
| AtmosphericLight.NonIncreasingColourIsKept | Video_fog_removal-main/model/predict.py:8-21 | a grey, white or other non-increasing colour is estimated as itself for every percentile in [0, 1] |
| AtmosphericLight.RisingColourIsReversed | Video_fog_removal-main/model/predict.py:16-21 | a colour rising from blue to red, e.g. (10, 20, 30), is estimated as (30, 20, 10): slots follow brightness, not BGR |
| VideoProcessing.ReadFrame | Video_fog_removal-main/model/predict.py:65-67 | `video.read()` yields the frame at the capture position, or nothing once the input is exhausted |
| VideoProcessing.WriteRemaining | Video_fog_removal-main/model/predict.py:64-70 | with the capture past the first frame, the loop writes `restore(frame, light)` for each remaining frame, in input order, so n - 1 frames; the writer's size is unchanged |
| VideoProcessing.ProcessVideo | Video_fog_removal-main/model/predict.py:54-73 | empty input fails (`NoFrame`); otherwise the run succeeds iff the first frame's estimate does. The light is that estimate. The writer has the first frame's size. It holds exactly `restore(frame_i, light)` for frames 2..n, in order, so n - 1 frames |

## Left out

- `fast_visibility_restoration` (lines 25-52) is not modelled. It is float32 arithmetic plus OpenCV's guided filter, whose source is not available. It appears only as the opaque parameter `restore`.
- Video input and output (`cv2.VideoCapture`, `cv2.VideoWriter`, the `mp4v` codec, the 20 fps rate, `release`) are left out. Reading is modelled as indexing into a frame sequence and writing as appending to a value.
  - The capture and the writer are values here, not objects updated in place; nothing else holds references to them.
- The Streamlit page, the temporary files, `uuid` names and the `ffmpeg` call (lines 76-158) are user interface and process I/O, and are left out.
- Frames are three-channel `uint8` arrays, as the capture produces them. Other shapes and dtypes are not modelled.
- The light is a three-value sequence rather than a `(1, 1, 3)` array.
- EstimateLight models the percentile as an exact fraction `num / den`. It does not model floating-point rounding of `H * W * p` before the truncation.
- Sorting.SortAsc models `np.sort` as an insertion sort rather than NumPy's introsort. The two give the same result, because an ascending sort of a sequence is unique.
- ArgSort.Ranking assumes a stable ascending argsort. NumPy's default sort does not promise stability in general; for three keys it runs an insertion sort, which is stable.
- ProcessVideo returns errors as values instead of raising exceptions. An empty video, which crashes the code with `AttributeError` on `None`, is reported as `NoFrame`.
