# Insulator defect detection: a verified model of its core logic

The system finds defective insulators in photographs. An edge device runs a
YOLO detector on every image in its input directory. It then applies greedy
non-maximum suppression (NMS) to the raw candidates and keeps the boxes of
the defect class, rescaled to original-image pixels. From these it builds a
report with the header `insulator_error`. When an operator's desktop sends
the token `START_DETECTION`, the device runs this pass and answers with the
frame `INSULATOR_REPORT:<decimal length>|<JSON payload>`. The desktop
receiver reads a connection to its end under a 10 MiB cap, checks the frame
and the header, then shows and logs the report. A busy flag on the desktop
keeps a second request from going out while one is pending. An offline
script splits the training data 8:1:1 into train, valid and test.

The Dafny modules follow this structure:

| file | module | what it models |
|---|---|---|
| wrappers.dfy | `Wrappers` | `Option` and `Result`, for `None` answers and caught exceptions |
| nms.dfy | `Nms` | `EdgeDetectionServer.nms`: confidence mask, sort, suppression loop |
| report.dfy | `EdgeReport` | `detect_defects`: class filter, coordinate remap, report accumulation |
| framing.dfy | `Framing` | the byte frame: the sender's header and the receiver's split and length check |
| sender.dfy | `EdgeServer` | one connection of `start_server`: trigger, 5 MiB cap, send or local fallback |
| receiver.dfy | `Receiver` | `DetectionThread.run`: receive loop, parse, header check, accept loop |
| link.dfy | `Link` | sender and receiver together: a sent report arrives intact |
| operator.dfy | `Operator` | the `detection_in_progress` flag and the start button |
| dataset_split.dfy | `DatasetSplit` | `train_val_spllit.py`: zip, shuffle, bounds, dispatch |

These parts of the system are abstract parameters of the model:

- **Inference.** Image reading, preprocessing and inference together are a
  function `Inference` from a file name to `Failed` or to the candidate rows
  plus the original width and height.
- **The sort.** `np.argsort(-conf)` is a function `Sorter`. The model
  assumes only that it returns a permutation of its input in non-increasing
  confidence (`AdmissibleSort`). Ties may come out in any order, because
  the default argsort is not stable.
- **JSON.** Encoding and decoding are functions `Encoder` and `Decoder`.
- **Sockets.** The trigger is the bytes returned by the first `recv`. A
  receiver connection is its sequence of `recv` results, followed by a
  timeout or a broken stream. Whether the operator can be reached is a
  boolean.
- **The directory listing.** `os.listdir(input_dir)` is an input to the
  server: the file names in listing order, or `None` when the call raises.
- **The shuffle.** `random.shuffle` is CPython's Fisher-Yates from the back.
  The RNG's draws are an input, each with `draws[i] <= i`.

Numbers are exact `real`s. A zero IoU denominator would give `inf` or `nan`
in floating point. Neither passes `iou <= iou_thres`, so the model
discards such a candidate (`Nms.Survives`). The file-name test
`EdgeReport.IsImageName` lower-cases only ASCII letters, while `str.lower()`
also folds other scripts. Both accept the same names: no non-ASCII character
lower-cases to text containing `.`, `p`, `n`, `g`, `j` or `e`.

The code is followed where the design description says otherwise:
- **Tie-breaking.** The description asks for stable tie-breaking among
  equal confidences. The code's `np.argsort` is unstable, so the model
  fixes no order among ties. Re-running suppression on its own output is
  therefore only proved to keep the same multiset of boxes
  (`Nms.NmsIdempotent`).
- **Box bounds.** The description promises `0 <= x1 < x2` and `0 <= y1 < y2`
  inside the image for every reported box. Nothing in the code enforces
  this. The model proves only that corner order is kept
  (`EdgeReport.RemapKeepsCornerOrder`). `EdgeReport.RemapCanCollapse`
  exhibits a reported box of width zero.

## Model

| member | source | states |
|---|---|---|
| Nms.SurvivesSymmetric | predict_photos.py:61-80 | the overlap test gives the same answer with the two boxes swapped |
| Nms.Survives | predict_photos.py:61-83 | definition of the IoU test a candidate must pass against a kept box: intersection over union at most the threshold, a zero denominator `union + 1e-16` failing it; covered by `Nms.SurvivesSymmetric`, `Nms.SurvivorsMembers` and `Nms.GreedyPairwise` |
| Nms.Above | predict_photos.py:42-47 | masked rows are no more than the input rows, and each has confidence strictly above the threshold |
| Nms.AboveMembers | predict_photos.py:42-47 | a row is in the mask iff it is an input row with confidence above the threshold |
| Nms.AboveSubMultiset | predict_photos.py:42-47 | masking drops rows and duplicates none |
| Nms.AboveAll | predict_photos.py:42-47 | the mask leaves a list unchanged when every row is above the threshold |
| Nms.Survivors | predict_photos.py:61-84 | the rows left after a head is kept number at most the rest, and each passes the IoU test against the head |
| Nms.SurvivorsMembers | predict_photos.py:80-84 | a row is left iff it is in the rest and its IoU with the head is at most the threshold |
| Nms.SurvivorsSubMultiset | predict_photos.py:83-84 | filtering after the head drops rows and duplicates none |
| Nms.SurvivorsAll | predict_photos.py:83-84 | filtering changes nothing when every row survives the head |
| Nms.SurvivorsNonIncreasing | predict_photos.py:50-84 | filtering a confidence-sorted list keeps it sorted |
| Nms.Greedy | predict_photos.py:54-84 | the keep list is no longer than the sorted input and starts with its head when the input is not empty |
| Nms.GreedyMembers | predict_photos.py:54-84 | every kept row is an input row |
| Nms.GreedySubMultiset | predict_photos.py:54-84 | no row is kept more often than it occurs in the input |
| Nms.GreedyNonIncreasing | predict_photos.py:50-56 | on a confidence-sorted input the keep list is confidence-sorted |
| Nms.GreedyPairwise | predict_photos.py:60-84 | every later kept box passed the IoU test against every earlier kept box |
| Nms.SubMultisetMutual | predict_photos.py:60-84 | pairwise survival carries over to every sub-multiset |
| Nms.GreedyMutual | predict_photos.py:60-84 | any two occurrences in the keep list survive each other, in either order |
| Nms.GreedyMaximal | predict_photos.py:54-84 | every sorted candidate is kept, or was discarded by a kept box of at least its confidence |
| Nms.GreedyFixpoint | predict_photos.py:54-84 | suppression returns its input unchanged when all its rows already survive each other |
| Nms.NonEmptyOrder | predict_photos.py:50-51 | helper for `Nms.Suppress`: sorting a non-empty list gives a non-empty list |
| Nms.SuppressionLoop | predict_photos.py:54-84 | the `while len(x) > 0` loop, with its early `break`, yields the keep list `Greedy` of its sorted input |
| Nms.Suppress | predict_photos.py:35-86 | `nms` returns `[None]` exactly when no row has confidence above the threshold, and otherwise at least one box |
| Nms.NmsSpec | predict_photos.py:35-86 | definition of `nms`'s return value: `None` for an empty mask, otherwise the keep list of the sorted mask; covered by `Nms.Suppress`, `Nms.NmsKeeps` and `Nms.NmsIdempotent` |
| Nms.NmsKeeps | predict_photos.py:42-86 | kept boxes come from the mask and are at most its size; they are confidence-sorted and the first has maximal confidence; they are pairwise within the IoU threshold; every masked row is kept or was suppressed by a kept box of at least its confidence |
| Nms.NmsIdempotent | predict_photos.py:50-86 | running `nms` on its own output keeps the same multiset of boxes, up to the order of ties |
| EdgeReport.Trunc | predict_photos.py:120-123 | `int()` of a float: the integer at most 1 away toward zero |
| EdgeReport.TruncMonotone | predict_photos.py:120-123 | truncation is monotone |
| EdgeReport.Scale | predict_photos.py:120-123 | definition of `int(v * orig / 640)`; covered by `EdgeReport.ScaleMonotone` |
| EdgeReport.Remap | predict_photos.py:120-127 | definition of a kept row's box in original-image pixels, with its confidence; covered by `EdgeReport.RemapKeepsCornerOrder`, `EdgeReport.RemapExample` and `EdgeReport.RemapCanCollapse` |
| EdgeReport.IsDefect | predict_photos.py:114 | definition of the class filter: class 0 and confidence at least 0.5; covered by `EdgeReport.DefectsOf` and `EdgeReport.DefectsComplete` |
| EdgeReport.MulMonotone | predict_photos.py:120-123 | helper for `EdgeReport.ScaleMonotone`: scaling by a non-negative image side keeps order |
| EdgeReport.ScaleMonotone | predict_photos.py:120-123 | `int(v * orig / 640)` is monotone in `v` for a non-negative side |
| EdgeReport.RemapKeepsCornerOrder | predict_photos.py:120-123 | `x1 <= x2` and `y1 <= y2` survive the remap |
| EdgeReport.RemapExample | predict_photos.py:120-123 | `[320, 320, 640, 640]` in a 1280x720 image becomes `[640, 360, 1280, 720]` |
| EdgeReport.RemapCanCollapse | predict_photos.py:120-123 | the remap can produce a box whose corners coincide |
| EdgeReport.DefectsOf | predict_photos.py:112-128 | the defect boxes number at most the kept rows; each has confidence at least 0.5; there are none iff no kept row is of class 0 with confidence at least 0.5. With `EdgeReport.DefectsOfAppend` and `EdgeReport.DefectsOfOne` it is the in-order filter-and-remap of the kept rows |
| EdgeReport.DefectsFromKept | predict_photos.py:113-128 | each defect box is the remap of a kept row of class 0 with confidence at least 0.5 |
| EdgeReport.DefectsOfAppend | predict_photos.py:112-128 | the boxes of two runs of kept rows are the two box lists concatenated, so boxes follow the keep order |
| EdgeReport.DefectsOfOne | predict_photos.py:113-128 | a single kept row yields its remapped box exactly when it is of class 0 with confidence at least 0.5, and nothing otherwise |
| EdgeReport.DefectsComplete | predict_photos.py:113-128 | every kept row of class 0 with confidence at least 0.5 has its remapped box in the list |
| EdgeReport.CollectDefects | predict_photos.py:112-128 | the `for det in pred_all` loop yields the defect boxes `DefectsOf` |
| EdgeReport.IsImageName | predict_photos.py:96 | definition of the name test: the lower-cased name ends in `.png`, `.jpg` or `.jpeg`; covered by `EdgeReport.DetailsInvariant` and `EdgeReport.NoRecord` |
| EdgeReport.RecordOf | predict_photos.py:96-139 | definition of the record one file adds, if any; covered by `EdgeReport.NoRecord` and `EdgeReport.RecordFromSuppression` |
| EdgeReport.Contribution | predict_photos.py:96-139 | definition of what one listed file adds to `defect_details`: nothing for a name that is not an image name, otherwise its record if any; covered by `EdgeReport.NoRecord`, `EdgeReport.FailureSkipped` and `EdgeReport.DetailsAppend` |
| EdgeReport.Details | predict_photos.py:95-142 | definition of `defect_details` over the listing, in listing order; covered by `EdgeReport.DetailsAppend`, `EdgeReport.FailureSkipped` and `EdgeReport.DetailsInvariant` |
| EdgeReport.BuildReport | predict_photos.py:88-144 | definition of `fault_data`; covered by `EdgeReport.DetectDefects` and `EdgeReport.ReportWellFormed` |
| EdgeReport.DetectDefects | predict_photos.py:88-144 | the file loop, with its per-file exception handler, yields the report `BuildReport` |
| EdgeReport.DetailsAppend | predict_photos.py:95-142 | the records of two runs of files, visited one after the other, are the two record lists concatenated in order |
| EdgeReport.NoRecord | predict_photos.py:96-142 | a file whose name is not an image name, or whose processing raised, contributes no record |
| EdgeReport.FailureSkipped | predict_photos.py:95-142 | a non-image name or a file whose processing raised adds nothing, and later files are still visited |
| EdgeReport.DetailsInvariant | predict_photos.py:95-139 | every record names a listed file ending `.png`, `.jpg` or `.jpeg` (any case), and has `defect_count == len(defects) >= 1` with every confidence at least 0.5 |
| EdgeReport.ReportWellFormed | predict_photos.py:89-139 | the report has header `insulator_error` and `count == len(defect_details)`, and every record satisfies the record invariant |
| EdgeReport.RecordFromSuppression | predict_photos.py:106-128 | each reported defect is the remap of a row that survived suppression and is of class 0 |
| Framing.Ascii | predict_photos.py:174 | `str.encode()` of an ASCII string keeps each character's code |
| Framing.MarkerIsAscii | receive_error.py:65 | the marker constant is the bytes of `INSULATOR_REPORT:` |
| Framing.Decimal | predict_photos.py:174 | `str(n)` is a non-empty run of digits with no leading zero, at most `1 + n / 10` long |
| Framing.ParseLength | receive_error.py:68 | the length field is accepted iff it is a non-empty run of decimal digits no longer than `int()`'s 4300-digit limit |
| Framing.DecimalRoundTrip | receive_error.py:68 | reading back the `str(n)` the sender writes (predict_photos.py line 174) gives `n`, whenever it has no more digits than `int()` accepts |
| Framing.DigitsValue | receive_error.py:68 | definition of the value `int()` gives a run of decimal digits, most significant first; covered by `Framing.DecimalRoundTrip` |
| Framing.DecimalLength | predict_photos.py:174 | a number below `10^k` is written with at most `k` digits, so a payload length within 5 MiB has at most 7 |
| Framing.Find | receive_error.py:67-68 | the index of the first occurrence of a byte, or the length when there is none |
| Framing.FindAfter | receive_error.py:67 | the first occurrence in `a + b`, when `a` lacks the byte, lies in `b` |
| Framing.FindWithin | receive_error.py:68 | the first occurrence in `a + b`, when `a` has the byte, is the one in `a` |
| Framing.LengthField | receive_error.py:68 | `header.split(b':')[1]` exists iff the header has a colon |
| Framing.ContainsPrefix | receive_error.py:65 | a buffer that starts with the marker contains it |
| Framing.Contains | receive_error.py:65 | definition of the `in` test on bytes; covered by `Framing.ContainsPrefix` and `Framing.SplitFrame` |
| Framing.SplitFrame | receive_error.py:65-70 | a buffer without the marker is rejected; an accepted payload is everything after the first `|`, and its length equals the number between the first two colons of the header |
| Framing.FramePipe | receive_error.py:67 | the first `|` of a frame is the one after the length |
| Framing.MarkerColon | receive_error.py:68 | the marker's only colon is its last byte |
| Framing.HeaderField | receive_error.py:68 | the length field of the sender's header is exactly the decimal length |
| Framing.FrameParts | receive_error.py:65-67 | the sender's frame contains the marker, and its first `|` ends exactly the marker and the decimal length, leaving the payload after it |
| Framing.FrameRoundTrip | receive_error.py:65-70 | splitting the frame the sender writes (predict_photos.py lines 174-176) gives back exactly its payload, which passes the length check whatever bytes it holds, whenever the length has no more digits than `int()` accepts |
| Framing.FrameLength | predict_photos.py:174-176 | a frame is at most 19 bytes plus 1.1 times its payload |
| Framing.Frame | predict_photos.py:174-176 | definition of the bytes the sender writes, header then payload; covered by `Framing.FrameRoundTrip` and `Framing.FrameLength` |
| EdgeServer.CappedFrameSendable | predict_photos.py:164-176 | the frame of a payload within 5 MiB fits the receiver's 10 MiB cap and splits back to the payload |
| EdgeServer.EdgeDetectionServer.constructor | predict_photos.py:12-20 | this server has sent no frame and written no fallback report |
| EdgeServer.EdgeDetectionServer.HandleConnection | predict_photos.py:156-191 | anything but the exact token changes nothing, and so does a listing of the input directory that raises. A payload over 5 MiB is refused, with nothing sent and the fallback untouched. Otherwise the header and payload are sent; a failed send overwrites the fallback file with the report. Every sent frame passes the receiver's check, and the fallback always holds a well-formed report |
| Receiver.UntilClose | receive_error.py:52-57 | the chunks read are the prefix before the first empty chunk |
| Receiver.ConcatAppend | receive_error.py:57 | concatenating two runs of chunks concatenates their bytes |
| Receiver.Concat | receive_error.py:57 | definition of `raw_data` as the chunks joined in order; covered by `Receiver.ConcatAppend` and `Receiver.Received` |
| Receiver.UntilCloseSplit | receive_error.py:52-57 | after `i` non-empty chunks, the chunks read are those `i` followed by the ones read from the rest |
| Receiver.Received | receive_error.py:51-63 | an accepted buffer is the in-order concatenation of the chunks read, at most 10 MiB; more than 10 MiB raises; within the cap, the connection fails with a broken stream exactly when the stream broke before the peer closed it |
| Receiver.ReceiveAll | receive_error.py:51-63 | the receive loop, with its size check and timeout, yields `Received` |
| Receiver.Parse | receive_error.py:65-75 | an accepted report has header `insulator_error` and decodes from a payload that passed the framing check; a framing failure is reported as such |
| Receiver.Accepted | receive_error.py:45-78 | a connection yields a report only if its bytes were received whole and parse; a receive error yields none |
| Receiver.AcceptedAll | receive_error.py:36-81 | the reports from a series of connections are at most one per connection, each with the right header |
| Receiver.AcceptedAllSnoc | receive_error.py:36-81 | one more connection adds exactly its accepted report, if any |
| Receiver.ReportReceiver.constructor | receive_error.py:23-26 | running, nothing received |
| Receiver.ReportReceiver.HandleConnection | receive_error.py:45-78 | a connection appends its accepted report exactly once, or nothing, and every failure stays inside the connection |
| Receiver.ReportReceiver.Serve | receive_error.py:36-81 | while running, each connection's report, if any, is appended in arrival order, and a failed connection does not stop later ones |
| Receiver.ReportReceiver.Stop | receive_error.py:266-272 | the thread is told to stop, nothing received is lost, and the header invariant is kept |
| Link.ReportArrives | receive_error.py:51-74 | a report within the cap, sent in any chunking and ended by a close or a timeout, is accepted unchanged when decoding inverts encoding on it |
| Link.TriggerIsExactText | predict_photos.py:158-159 | comparing the raw request bytes with the token accepts an ASCII request exactly when its text is `START_DETECTION`, the text the operator sends (receive_error.py line 204) |
| Operator.Step | receive_error.py:184-261 | a request is issued only from idle and leaves the window busy. A click from idle issues the request and disables the button when the request thread starts, and returns to idle when starting it raises. A click while busy changes nothing. A failed request or a shown report returns to idle. A successful request changes nothing |
| Operator.StepConsistent | receive_error.py:184-261 | every handler keeps the button enabled exactly when no detection is in progress |
| Operator.RunConsistent | receive_error.py:184-261 | that holds after any sequence of events |
| Operator.RunPrefix | receive_error.py:184-261 | helper for `Operator.BusyUntilCleared`: the state after `m` events is one step from the state after `m - 1` |
| Operator.BusyUntilCleared | receive_error.py:184-261 | after a request the window stays busy until a failed request or a shown report |
| Operator.OneRequestAtATime | receive_error.py:184-261 | between any two issued requests there is a failed request or a shown report |
| Operator.OperatorWindow.constructor | receive_error.py:182 | idle with the button enabled |
| Operator.OperatorWindow.StartDetection | receive_error.py:184-219 | `start_detection` follows `Step` on a click and keeps the button consistent |
| Operator.OperatorWindow.HandleRequestResult | receive_error.py:221-232 | `handle_request_result` follows `Step` and keeps the button consistent |
| Operator.OperatorWindow.DisplayReport | receive_error.py:234-261 | `display_report` follows `Step` on both its paths and keeps the button consistent |
| DatasetSplit.Zip | train_val_spllit.py:26 | there are `min(len(images), len(labels))` pairs, and the i-th pairs the i-th image with the i-th label |
| DatasetSplit.ZipUnzip | train_val_spllit.py:28-35 | unzipping the shuffled pairs and zipping them again gives the same pairs |
| DatasetSplit.UnzipZip | train_val_spllit.py:26-28 | unzipping the zipped listings gives them back, cut to the shorter one |
| DatasetSplit.Images | train_val_spllit.py:28 | definition of the first list of `zip(*pairs)`; covered by `DatasetSplit.ZipUnzip` and `DatasetSplit.UnzipZip` |
| DatasetSplit.Labels | train_val_spllit.py:28 | definition of the second list of `zip(*pairs)`; covered by `DatasetSplit.ZipUnzip` and `DatasetSplit.UnzipZip` |
| DatasetSplit.Swap | train_val_spllit.py:27 | definition of one exchange made by the shuffle; covered by `DatasetSplit.SwapPermutes` |
| DatasetSplit.SwapPermutes | train_val_spllit.py:27 | one swap of the shuffle is a permutation |
| DatasetSplit.ShuffleDown | train_val_spllit.py:27 | the shuffle's swaps keep the length |
| DatasetSplit.Shuffled | train_val_spllit.py:27 | the shuffled list has the input's length |
| DatasetSplit.ShuffleDownPermutes | train_val_spllit.py:27 | any run of the shuffle's swaps is a permutation |
| DatasetSplit.ShufflePermutes | train_val_spllit.py:27 | the shuffle adds and drops nothing, and every pair stays intact |
| DatasetSplit.ShuffleInPlace | train_val_spllit.py:27 | shuffling the array in place leaves it equal to `Shuffled` of its old contents |
| DatasetSplit.FloorOfFraction | train_val_spllit.py:31-32 | the floor of `p / d` is the integer quotient |
| DatasetSplit.TrainBound | train_val_spllit.py:31 | definition of `int(train_ratio * n)`; covered by `DatasetSplit.BoundsExact` |
| DatasetSplit.ValidBound | train_val_spllit.py:32 | definition of `int((train_ratio + valid_ratio) * n)`; covered by `DatasetSplit.BoundsExact` |
| DatasetSplit.BoundsExact | train_val_spllit.py:31-32 | `train_bound = floor(0.8 n) = 4n div 5` and `valid_bound = floor(0.9 n) = 9n div 10`, with `0 <= train_bound <= valid_bound <= n` |
| DatasetSplit.BoundsOrdered | train_val_spllit.py:31-32 | the two bounds are ordered and within the list |
| DatasetSplit.DistributeAt | train_val_spllit.py:35-44 | the dispatch loop sends index `i` to train iff `i < train_bound`, to valid iff `train_bound <= i < valid_bound`, and otherwise to test |
| DatasetSplit.Distribute | train_val_spllit.py:31-44 | the splits are the three slices cut at the two bounds |
| DatasetSplit.SplitsPartition | train_val_spllit.py:31-44 | the three slices put back together are the list; their sizes are `4n div 5`, `9n div 10 - 4n div 5` and `n - 9n div 10` |
| DatasetSplit.SplitDataset | train_val_spllit.py:22-44 | with no pairs the script fails at the unpack; otherwise the splits are the cuts of the shuffled pairs, and together they are a permutation of the zipped pairs |

## Left out

- Image decoding, colour conversion, resizing and the float16 tensor layout of `preprocess_image`, because they are foreign-library pixel arithmetic. The model folds them into `Inference`.
- The model load and the `infer` call, because the accelerator runtime is a black box; `Inference` supplies the rows.
- The second `cv2.imread` inside the defect loop, because it only supplies the original size. `Inference` gives the size once. A failed read is `Failed`, which the code's handler also turns into a skipped image.
- Floating point: float16 and float32 rounding of coordinates, confidences and IoU, because the model uses exact reals. For the split bounds the gap is nil for every file count below 2^40: the doubles `0.8` and `0.8 + 0.1` exceed 4/5 and 9/10 by less than 10^-16, and below 2^40 that excess plus the product's rounding stays under 1/10, so `int()` of the products gives `4n div 5` and `9n div 10`. Near 2^51 the rounding can carry the product past the next integer (for n = 2251799813685251 both bounds come out one higher); such counts are not modelled.
- The particular tie order of `np.argsort`, because only its promise of a confidence order is modelled (`Nms.AdmissibleSort`).
- Sockets: bind, listen, accept, connect, timeouts and the sender's `while True` loop, because they are I/O. Connections are given as chunk sequences, and reachability is a boolean.
- EdgeServer.EdgeDetectionServer.HandleConnection: a send that fails after writing part of the frame is modelled as sending nothing. The receiver then sees a truncated frame, which fails the length check.
- EdgeServer.EdgeDetectionServer.HandleConnection: does not model a trigger that is not valid UTF-8, or a write to the fallback file that fails. Both raise into the outer handler, and neither can equal the token or leave a report behind.
- JSON encoding and decoding with UTF-8, because they are library code. `Encoder` and `Decoder` are parameters, and `Link.ReportArrives` assumes only that decoding inverts encoding on the report sent.
- Framing.ParseLength: accepts only decimal digits, at most 4300 of them, leading zeros included, as CPython 3.11 and later (and the 2022 security releases of 3.8 to 3.10) limit `int()`; an older CPython without the limit is not modelled. Python's `int()` also accepts surrounding whitespace, a sign and underscores between digits. The sender never writes those, and its length field has at most 7 digits (`Framing.DecimalLength`), so the round trip is unaffected.
- Receiver.Parse: decoding is typed. The code accepts any JSON object whose `header` is `insulator_error`, whatever its other fields hold; a missing or mistyped `count` or `defect_details` only makes `save_report` and `display_report` fail later, inside their own handlers. `Decoder` must map such an object to some `Report`, so the model cannot tell it from a well-formed one. Undecodable UTF-8 or JSON raises inside the handler at receive_error.py line 75; a JSON value that is not an object makes `report.get` raise `AttributeError`, which reaches the connection handler at line 77. Both are `Decoder` returning `None`; the two handlers differ only in the status message.
- `save_report`: file names, timestamps, `os.makedirs` and log formatting, because they are file I/O. Each accepted report is recorded once in `received`, which stands for both the window signal and the save.
- Threads and Qt signals: `QThread`, `pyqtSignal`, `deleteLater` and the `running` flag being set from the GUI thread, because concurrency is not modelled. The busy flag is a sequential state machine over events, and `Stop` is a separate call.
- All PyQt layout and the text rendering of `display_report`, because they are presentation only.
- `random`'s generator, because it is a source of randomness. Its draws are an input.
- `shutil.copy` and the directory creation of the split script, because they are file I/O. The splits are modelled as the sequences of pairs copied to each directory.
- `train_v10.py` and `trans.py`, because they are thin wrappers over model training and ONNX export.
