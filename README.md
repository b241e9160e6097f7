# Race-bib sorter: a verified model of `run.py`

`run.py` is a command-line tool for sorting race photos by bib number. The `process` command works in five steps:

1. It scans a directory for JPEG, PNG and WebP files.
2. It sends every image, re-encoded as JPEG, to a vision model and asks for the bib numbers in it.
3. It reads the numbers out of each reply.
4. It keeps the numbers with 3 or 4 characters.
5. It copies every image into one sub-directory per number it showed.

This project models that sequential logic in Dafny and proves what it does. It has seven modules, one per part of the program:

| module | file | what it models |
|---|---|---|
| `Text` | `text.dfy` | digits, Python's whitespace set, ASCII lower-casing |
| `Response` | `response.dfy` | `strip()`, `lower()`, the `"none" in text` test, `re.findall(r'\d+', …)` |
| `Classify` | `classify.dfy` | `process_single_image`: one image's result, with every failure contained |
| `Encoder` | `encoder.dfy` | the JPEG quality loop of `image_to_base64_uri` |
| `Scan` | `scan.dfy` | `scan_directory`, with a model of POSIX `os.path.splitext` |
| `Aggregate` | `aggregate.dfy` | the results loop of `process`, i.e. `number_to_images`, the length filter and `set(images)` |
| `Pipeline` | `pipeline.dfy` | `process` end to end |

The model follows each piece of code in the code's own form:
- The reply parser is pure, so it is modelled with functions and lemmas.
- The loops that append to a list or a dictionary are `method`s with loop invariants:
  - the scan loop (`Scan.ScanDirectory`);
  - the results loop and its inner loop over one reply's numbers (`Aggregate.CollectDetections`, `Aggregate.RecordDetection`);
  - the whole command (`Pipeline.Process`).

  Each of these methods is proved equal to a specification function, and the lemmas state the program's promises about those functions.
- The quality loop, which lowers the JPEG quality until the encoding fits, is a `method` with a loop too (`Encoder.EncodeWithinLimit`). Its postconditions state the properties of the chosen quality directly.

Everything outside the program is a parameter:
- **Directory listing:** a sequence of entries, each with a name, a path and an is-file flag.
- **JPEG encoder:** a function from quality to bytes.
- **Vision model:** a function from an image path to its outcome. The outcome is a reply text, an `APIError` or any other exception.
- **Completion order of the thread pool:** any arrangement of the scanned paths.

Some facts about `run.py` that the model reflects:
- `run.py` has no retry or backoff. A failed request gives an empty result at once.
- The length bounds are hard-coded as `3 <= len(number) <= 4` at run.py line 175. They are not configurable.
- `BIB_NUMBER_LENGTHS` is never read.
- `WORKERS` sizes the thread pool and appears in a progress message (run.py line 154). It changes no result.
- PNG and WebP input is re-encoded as JPEG. Nothing downsamples the image.
- The prompt tells the model that bib numbers "are always 3 digits". The filter still accepts 4-digit numbers too, and the model follows the filter.

## Model

| member | source | states |
|---|---|---|
| Text.Lower | run.py:117 | `lower()` keeps the length, maps each ASCII capital to its lower-case letter and keeps every other character. |
| Response.Normalize | run.py:117 | `strip().lower()` is no longer than the reply. It is empty exactly when the reply is all whitespace. It has no whitespace at either end and no upper-case ASCII letter. |
| Response.NormalizeIdempotent | run.py:117 | Normalising an already normalised reply changes nothing. |
| Response.Contains | run.py:119 | `w in s` holds when `w` occurs at some index of `s`. The empty string is in every string, and nothing longer than `s` is in it. |
| Response.Strip | run.py:117 | `strip()` leaves the slice that remains once whitespace is removed from both ends. Everything removed is whitespace. The result neither starts nor ends with whitespace. It is empty exactly when the reply is all whitespace. Whitespace is the `str.isspace` set. |
| Response.StripNoOp | run.py:117 | A text that neither starts nor ends with whitespace is left unchanged by `strip()`. |
| Response.StripKeepsWord | run.py:117-119 | Every occurrence of a word with non-space ends survives `strip()`, at a shifted position. |
| Response.DigitRuns | run.py:122 | Every run `re.findall(r'\d+')` returns is non-empty and made only of digits. |
| Response.RunsOfAnySplit | run.py:122 | Uniqueness: take any way of writing a text as gaps and runs, where the gaps hold no digit, the runs are non-empty digit strings, and inner gaps are non-empty. Its runs are exactly what `DigitRuns` returns, in order and with repeats. |
| Response.SplitOfText | run.py:122 | Existence: every text is its digit runs interleaved with the non-digit text between them. |
| Response.RunsConcatenateToDigits | run.py:122 | The runs, joined, are exactly the digit characters of the text, in order. They are therefore a subsequence of the text. |
| Response.ParseReply | run.py:117-122 | Every number read from a reply is a non-empty string of digits. |
| Response.NoneAnywhereYieldsNothing | run.py:117-120 | A reply that contains "none" in any letter case, anywhere, yields no numbers. This holds even when the word is glued to digits or inside a longer word. |
| Response.NoneReply | run.py:119-120 | The reply "none" yields no numbers. |
| Response.BlankYieldsNothing | run.py:117-120 | An empty or all-whitespace reply yields no numbers. |
| Response.ParsedNumbersSplitReply | run.py:117-122 | Outside the two empty cases, a list is the result if and only if some gaps weave with it into the normalised reply as a split into maximal digit runs. Both directions are proved. |
| Response.ParsedNumbersAreTheDigits | run.py:117-122 | Outside the two empty cases, the numbers, joined, are the digits of the normalised reply, and a subsequence of it. |
| Response.PlainReply | run.py:117-122 | A reply made only of digits and commas is kept unchanged. Its numbers are its digit runs. |
| Response.CommaListRoundTrip | run.py:117-122 | Round trip for the format the prompt asks for (run.py lines 91-95): any list of digit strings joined with commas parses back into exactly that list. The empty list joins to the empty reply, which yields nothing. |
| Classify.ClassifyImage | run.py:87-128 | The returned path is the given path. An `APIError` or any other exception gives no numbers. A reply gives the numbers parsed from it. |
| Classify.FailuresAreIndistinguishable | run.py:124-128 | The result depends neither on the exception's kind nor on its message. It is the same as for the reply "none". |
| Encoder.EncodeWithinLimit | run.py:59-65 | The loop terminates. The final quality is one of 95, 90, …, 10. Every higher quality on that grid was tried and did not fit. The chosen encoding fits, or the quality is the floor 10. The number of encodings made is (95 − quality)/5 + 1. |
| Encoder.FirstQualityThatFits | run.py:59-65 | Those postconditions fix the result: the highest grid quality that fits, 95 when 95 fits, and 10 when nothing fits. |
| Scan.IsSupportedImage | run.py:44 | An entry passes only when it is a regular file and `splitext` gives a non-empty extension starting with a dot. |
| Scan.SupportedExtensionKept | run.py:42-45 | Take a file named by a stem and an extension. The stem must not start with a dot and must hold no separator. The extension, lower-cased, must be supported. Such a file is picked up. |
| Scan.SplitExt | run.py:44 | Root and extension always concatenate back to the name. |
| Scan.SplitAtExtension | run.py:44 | Take a dot that is followed by no dot or separator and preceded, in the same path component, by a character other than a dot. `splitext` cuts there. |
| Scan.NoExtensionNoCut | run.py:44 | A name with no such dot has an empty extension. Together with `SplitAtExtension` this pins down `splitext`. |
| Scan.ScanDirectory | run.py:41-46 | The loop returns `ImagePaths(entries)`. |
| Scan.ImagePathsOfConcat | run.py:43-45 | Scan order is kept: scanning a listing in two parts gives the two results joined. |
| Scan.ImagePathsMembers | run.py:41-46 | A path is returned if and only if some entry with that path is a regular file with a supported extension, ignoring case. |
| Scan.UpperCaseExtensionKept | run.py:44 | "IMG_01.JPG" is kept when it is a file, and dropped when it is not. |
| Scan.OnlyLastExtensionCounts | run.py:44 | "shot.jpg.txt" is dropped. `splitext("a.tar.gz")` is `("a.tar", ".gz")`. |
| Scan.DotNameSkipped | run.py:44 | ".jpg" has no extension, so it is dropped. |
| Aggregate.RecordDetection | run.py:173-178 | The inner loop computes `RecordAll`. `found_valid_number` is set if and only if some number has 3 or 4 characters. When it is not set, the index is unchanged. |
| Aggregate.CollectDetections | run.py:169-177 | The results loop computes `Collected(results)`. A detection with an empty list is skipped. |
| Aggregate.RecordAllEffect | run.py:174-176 | Recording one detection adds a key exactly for each listed number of length 3 or 4. It adds the path to exactly those buckets. |
| Aggregate.CollectedBuckets | run.py:169-177 | A number is a key if and only if it has length 3 or 4 and some detection listed it. The distinct paths under it are exactly the paths of the detections that listed it. |
| Aggregate.PathInBucket | run.py:172-177 | A path is in `number_to_images[n]` if and only if `3 <= len(n) <= 4` and some detection for that path listed `n`. |
| Aggregate.CollectedKeys | run.py:175-176 | Every key has length 3 or 4 and a non-empty list. No key of any other length is created. |
| Aggregate.OrderIrrelevant | run.py:169-177 | Any two completion orders of the same detections give the same keys and the same set of paths under each key. |
| Aggregate.RepeatsAreIdempotent | run.py:191 | A detection that arrives again changes no key and no bucket's set of paths. |
| Aggregate.DistinctCount | run.py:196 | `len(set(images))` is at most the number of appends, and at least 1 once anything was appended. |
| Aggregate.ReportedCount | run.py:196 | The reported `len(set(images))` is the number of distinct images that listed the number. It is at least 1 and at most the number of appends. |
| Pipeline.Organize | run.py:184-196 | An empty index reports nothing to organise. Otherwise there is one folder per key, holding `set(images)`, and its size is the reported count. |
| Pipeline.Run | run.py:149-196 | `NoImageFiles` exactly when the scan finds nothing. `ClientSetupFailed` exactly when the scan finds images but the client cannot be built. Every folder belongs to a number of length 3 or 4 and is non-empty. `RunResult` gives the exact folders. |
| Pipeline.Process | run.py:149-196 | `process`, step by step, computes `Run(...)` for every completion order that is an arrangement of the scanned paths. |
| Pipeline.ListingOfCompleted | run.py:166-170 | The detections, in completion order, list a number for exactly the scanned images whose request listed it. |
| Pipeline.RunResult | run.py:149-196 | No images gives `NoImageFiles`. A client that cannot be built gives `ClientSetupFailed`. Otherwise there is one folder for each number of length 3 or 4 that some image listed, holding exactly those images. When there is no such number the run reports nothing to organise. |
| Pipeline.RunOrderIrrelevant | run.py:166-177 | The completion order never changes the result of a run. |
| Pipeline.OrganizeSeesOnlySets | run.py:188-196 | Two indexes with the same keys and the same set of paths under each key organise into the same folders. Duplicate appends and their order never change what is copied or reported. |
| Pipeline.LengthFilterExample | run.py:172-177 | The reply "12,123,1234,12345" gives four runs, and only "123" and "1234" become keys. |
| Pipeline.ParseTwoNumbers | run.py:117-122 | The reply "123,456" gives ["123", "456"]. |
| Pipeline.SampleThreeImageRun | run.py:149-196 | The files "A.jpg", "B.jpg" and "C.jpg" in "d", with A replying "123,456", B replying "none" and C failing with an API error, meet every requirement of `ThreeImageRun`. That run gives the two folders "123" and "456", each holding "d/A.jpg". |
| Pipeline.ThreeImageRun | run.py:149-196 | A run of three images completes in the order C, A, B. A replies "123,456", B replies "none" and C's request fails. The run gives two folders, each holding A alone. |

## Left out

- The request to the vision model is an abstract outcome per image path (run.py lines 91-115). This covers the prompt text, headers, provider parameters, `max_tokens` and the OpenRouter client.
- A reply whose `message.content` is `None` makes `.strip()` raise a non-API exception. The model counts it as an `OtherFailure`.
- Concurrency is reduced to completion order (run.py lines 166-169). The thread pool, `as_completed` and the progress bar become one parameter: the completion order, an arrangement of the scanned paths.
- Image decoding, JPEG encoding and base64 are not modelled (run.py lines 62, 67, 88). The encoder is a function from quality to bytes, and the data-URI string is not built.
- Python's `/` is not modelled as a float. `Fits` compares `size / 1024` as an exact real. Dividing by 1024 is exact in binary floating point for every size below 2^53, so the comparison is the same.
- `os.scandir`, `os.makedirs`, `shutil.copy` and its error message, and all console output are I/O (run.py lines 43, 164-196). The run ends with the folder contents it would copy.
- The order in which folders are created and reported (dictionary order) is not modelled. Folders are a map.
- Text.Lower, Text.IsDigit: ASCII only. Python's `str.lower()` also maps non-ASCII letters, and `\d` also matches non-ASCII decimal digits. The model keeps both to ASCII.
- Scan.SplitExt: POSIX only. The Windows `ntpath` rules (drive letters and `\` separators) are not modelled.
- Encoder.EncodeWithinLimit: `max_size_kb` is an integer. The code only ever uses its integer default of 1500, so a float limit is not modelled.
- `run.py` has no attempt cap, no retry, no configurable length bounds and no downsampling, so the model has none.
