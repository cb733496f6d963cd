# Nova image-tagging scripts in Dafny

This project models the behavioural core of a set of Python scripts that tag
product images with Amazon Nova on Bedrock and evaluate the tags:

- **calculate_metrics.py** — per-label precision and recall. A first loop over
  the `(ground truth, prediction)` rows fills a defaulting dictionary of
  `tp`/`fp`/`fn` counters. A second loop emits one report row per label, in
  sorted order. Modelled in `metrics.dfy` (module `Metrics`). The counting pass
  is a method over a `map` accumulator, proved equal to a specification
  (`ExpectedStats`) defined observation by observation.
- **nova_prompt_v12.py**:
  - `detect_image_format`, the URL extension choice and `format_mapping` are
    in `image_format.dfy` (module `ImageFormat`);
  - `img_tagging`, with its retry loop and exponential backoff, is in
    `tagging.dfy` (module `Tagging`);
  - the per-row loop of `process_excel_data` is in `batch.dfy` (module
    `Batch`). That covers path building, the `try`/`except` around tagging,
    error categorisation, reply cleaning, content-filter detection, JSON
    extraction, the counters and the result rows.
- **gen_nova_sft_dataset.py** — `create_record`, the label wrapper and the
  loop that writes one JSONL record per JPEG row. Modelled in
  `sft_dataset.dfy` (module `SftDataset`).

Shared pieces:

- `py_strings.dfy` (module `PyStrings`) gives the Python `str` operations the
  scripts use: `startswith`/`endswith`, `in`, `find`/`rfind`, `strip`,
  `split`, `replace(pat, "")`, `lower()`, and the code-point order `sorted`
  uses.
- `wrappers.dfy` holds `Option` and `Result`.

How the outside world is represented:

- Everything the scripts ask of the outside world is given to the model as a
  function value. That covers downloads, file contents (or the error from
  opening the file), whether PIL can open a file, whether a path exists, the outcome of each converse call, and
  `json.loads(text)["result"]`. So every proof holds for every behaviour of
  those services.
- `time.sleep` is recorded as the list of delays requested.

How the `process_excel_data` loop is modelled:

- The loop is a method. Its state is a `Summary` value that holds the result
  rows and the counters.
- Each iteration is split in two helper methods. `TryRow` is the
  `try`/`except` around tagging. `ProcessRow` adds the cleanup, the parse and
  the append.
- The loop is proved against `Run`, a function giving the summary after the
  first `n` rows. `Run` takes the per-row "clean then interpret" step as a
  parameter, and the loop's ghost argument must agree with
  `Inference(Clean(text))`. `InterpreterInterprets` shows that such an
  argument always exists.
- Inside the batch, a row's call to `img_tagging` is not a call to
  `Tagging.ImgTagging`. Its outcome is the function `BatchWorld.tagging`,
  which takes the row number and the image path. So the loop's proofs hold
  for any tagging behaviour. Two lemmas connect the two modules for one local
  image: `HtmlImageCounted` (an HTML file counts as an HTML error) and
  `UnsupportedImageIsOtherError` (a file the decoder refuses counts as a
  plain failure).
- The `'image' in df.columns` test is made on the row's cells. Those cells
  hold every column of the sheet, so the test is the same on every row.

## Model

| member | source | states |
|---|---|---|
| Metrics.StrippedNonEmpty | calculate_metrics.py:34 | the kept tokens are no more than the pieces and none is empty |
| Metrics.StrippedNonEmptyKeeps | calculate_metrics.py:34 | no piece that strips to a non-empty string is dropped |
| Metrics.StrippedNonEmptyOrigin | calculate_metrics.py:34 | every token is the strip of some piece |
| Metrics.Tokens | calculate_metrics.py:34 | `pred_list` never holds an empty token |
| Metrics.TokensAreStripped | calculate_metrics.py:34 | every token equals its own strip and holds no comma |
| Metrics.TokensKeepEveryPiece | calculate_metrics.py:34 | every comma-separated piece that strips to non-empty appears among the tokens |
| Metrics.TokensOfEmpty | calculate_metrics.py:34 | an empty prediction has no tokens |
| Metrics.TokensOfOne | calculate_metrics.py:34 | a plain label is its own single token |
| Metrics.TokensOfTwo | calculate_metrics.py:34 | `"a, b"` tokenises to `[a, b]` |
| Metrics.Get | calculate_metrics.py:31 | the `defaultdict` lookup: a known label reads its entry, an unknown one reads all zeros |
| Metrics.StatsOfStep | calculate_metrics.py:33-45 | one more observation adds exactly its contribution to every label's counts |
| Metrics.StatsOfPair | calculate_metrics.py:33-45 | two observations count the sum of their contributions |
| Metrics.ExpectedStatsPair | calculate_metrics.py:28-45 | with two distinct ground truths, the statistics have exactly those two keys |
| Metrics.CountOwnLabel | calculate_metrics.py:37-40 | the ground truth gets one tp if it is among the tokens, else one fn; no fp changes; the key set gains the ground truth |
| Metrics.CountFalsePositives | calculate_metrics.py:43-45 | each token that differs from the ground truth and is a known label adds one fp, per occurrence; tp and fn do not change; new keys are known labels |
| Metrics.CountRow | calculate_metrics.py:36-45 | every label's counts grow by exactly that row's contribution |
| Metrics.CountObservation | calculate_metrics.py:33-45 | one row, with its prediction tokenised, adds its contribution |
| Metrics.ComputeLabelStats | calculate_metrics.py:28-45 | the dictionary equals the specified statistics, keyed by exactly the ground-truth set |
| Metrics.Ratio | calculate_metrics.py:52-53 | the ratio lies in [0, 1]; it is 0 for a zero total; it is 1 exactly when the count is the whole positive total; it is 0 exactly when the count is 0 |
| Metrics.RatioTimesTotal | calculate_metrics.py:52-53 | over a positive total, the ratio times the total is the count |
| Metrics.Precision | calculate_metrics.py:52 | it lies in [0, 1]; it is 0 when `tp+fp = 0`; it is 1 exactly when there are hits and no fp; it is 0 exactly when there are no hits |
| Metrics.Recall | calculate_metrics.py:53 | it lies in [0, 1]; it is 0 when `tp+fn = 0`; it is 1 exactly when there are hits and no fn; it is 0 exactly when there are no hits |
| Metrics.RowFor | calculate_metrics.py:50-62 | a report row carries its label's name and counts, with precision and recall in [0, 1] |
| Metrics.PrecisionIsHitShare | calculate_metrics.py:52 | precision times `tp+fp` is `tp` |
| Metrics.RecallIsHitShare | calculate_metrics.py:53 | recall times `tp+fn` is `tp` |
| Metrics.ReportUnique | calculate_metrics.py:49-62 | only one row list is the report of a given dictionary |
| Metrics.BuildReport | calculate_metrics.py:48-62 | one row per key, each holding that key's counts and ratios, with labels strictly ascending |
| Metrics.CalculateMetrics | calculate_metrics.py:28-62 | the rows are the report of the specified statistics |
| Metrics.Conservation | calculate_metrics.py:37-40 | for every label, `tp + fn` is the number of rows whose ground truth is that label |
| Metrics.UnknownLabelsCountNothing | calculate_metrics.py:43-45 | a label outside the ground-truth set never collects a false positive |
| Metrics.RowsAreExactlyTheVocabulary | calculate_metrics.py:28-62 | the report's labels are exactly the ground-truth set, and each row's `tp + fn` is the number of rows with that label |
| Metrics.RepeatedTokens | calculate_metrics.py:33-45 | a repeated ground-truth token gives one tp; a repeated wrong known label gives one fp per occurrence |
| Metrics.MissAndExtraStats | calculate_metrics.py:33-45 | rows `(A, "B")` and `(B, "B")` give A = (0, 0, 1) and B = (1, 1, 0) |
| Metrics.TwoRowsAreReport | calculate_metrics.py:49-62 | two rows in label order form the report of a two-key dictionary |
| Metrics.TwoRowReport | calculate_metrics.py:49-62 | the report of a two-key dictionary is its two rows in label order |
| Metrics.MissAndExtraRows | calculate_metrics.py:52-62 | a pure miss has precision 0 and recall 0; one hit plus one fp has precision 1/2 and recall 1 |
| Metrics.MissAndExtraScenario | calculate_metrics.py:33-62 | the whole script on `[(A,"B"), (B,"B")]` reports A (0, 0, 0, 0, 1), then B (1/2, 1, 1, 1, 0) |
| Metrics.EmptyPredictionScenario | calculate_metrics.py:33-40 | an empty prediction is a single miss |
| Metrics.UnknownTokenScenario | calculate_metrics.py:43-45 | a predicted token outside the ground-truth set earns nothing and gets no entry |
| PyStrings.Find | nova_prompt_v12.py:1703 | `find` gives the first index of the character, or -1 exactly when it is absent |
| PyStrings.RFind | nova_prompt_v12.py:1704 | `rfind` gives the last index of the character, or -1 exactly when it is absent |
| PyStrings.Strip | calculate_metrics.py:34 | `str.strip()`: drops the leading and trailing whitespace; what it leaves is stated by `StripShape` |
| PyStrings.Split | calculate_metrics.py:34 | `split(sep)` gives at least one piece and no piece holds the separator |
| PyStrings.RemoveAll | nova_prompt_v12.py:1692 | `replace(pat, "")` never lengthens the text, leaves a text without `pat` unchanged, and removes at least one whole `pat` from a text that holds one |
| PyStrings.AsciiLower | nova_prompt_v12.py:1698 | `lower()` keeps the length and lowers each character in its place |
| PyStrings.ContainsLowered | nova_prompt_v12.py:1698 | an occurrence of a word is an occurrence of the lowered word in the lowered text |
| PyStrings.LowerOfLowercase | nova_prompt_v12.py:1698 | a word with no capital letter is its own lowering |
| PyStrings.Less | calculate_metrics.py:49 | the order `sorted` uses: code point by code point, a proper prefix first; its laws are the next three rows |
| PyStrings.LessIrreflexive | calculate_metrics.py:49 | no string comes before itself |
| PyStrings.LessTransitive | calculate_metrics.py:49 | the order is transitive |
| PyStrings.LessTotal | calculate_metrics.py:49 | of two different strings, one comes first |
| PyStrings.StripShape | calculate_metrics.py:34 | `strip` leaves a contiguous block with no whitespace at either end, and cuts only whitespace |
| PyStrings.StripIdempotent | calculate_metrics.py:34 | stripping twice is stripping once |
| PyStrings.JoinSplit | calculate_metrics.py:34 | joining the pieces of `split(',')` gives back the string |
| PyStrings.SplitJoin | calculate_metrics.py:34 | splitting a join of separator-free pieces gives back the pieces |
| PyStrings.LastPieceIsSuffix | gen_nova_sft_dataset.py:234 | `split('.')[-1]` is the separator-free suffix after the last `.`, or the whole string |
| PyStrings.SortedStringsSorts | calculate_metrics.py:49 | `sorted(keys)` lists every key exactly once, strictly ascending in code-point order |
| PyStrings.SortedStrings | calculate_metrics.py:49 | `sorted(keys)`: the least key, then the sorted rest; `SortedStringsSorts` states that this lists every key once, in ascending order |
| PyStrings.AscendingUnique | calculate_metrics.py:49 | there is only one strictly ascending listing of a set |
| ImageFormat.Header | nova_prompt_v12.py:25-26 | the header is the first sixteen bytes, or the whole file when it is shorter |
| ImageFormat.LooksLikeHtml | nova_prompt_v12.py:29 | the header starts with `<!DOCTYPE` or `<html`, case-sensitively |
| ImageFormat.Signature | nova_prompt_v12.py:33-40 | the magic bytes of each format: JPEG `FF D8 FF`, the PNG signature, `GIF87a`/`GIF89a`, `RIFF` with `WEBP` at bytes 8-12 |
| ImageFormat.IsAvif | nova_prompt_v12.py:41 | at least twelve bytes with `ftypavif` at bytes 4-12 |
| ImageFormat.DetectImageFormat | nova_prompt_v12.py:23-58 | an HTML prefix is rejected first; a format's signature gives that format unconverted; an AVIF brand without another signature gives JPEG converted; otherwise the decoder decides between JPEG converted and "Unsupported or corrupted" |
| ImageFormat.HtmlMessage | nova_prompt_v12.py:30 | the HTML error message mentions "HTML" |
| ImageFormat.UnsupportedMessage | nova_prompt_v12.py:58 | the decoder's refusal starts with "Unsupported or corrupted image file: " |
| ImageFormat.Extension | nova_prompt_v12.py:1474 | `f'.{actual_format}'` is the format's name behind a dot, one of the four extensions |
| ImageFormat.HtmlExcludesSignatures | nova_prompt_v12.py:29-42 | an HTML header carries no image signature and no AVIF brand |
| ImageFormat.SignaturesExclusive | nova_prompt_v12.py:33-40 | at most one format's signature matches a header |
| ImageFormat.AvifExcludesOtherSignatures | nova_prompt_v12.py:35-41 | an AVIF header cannot carry the PNG, GIF or WEBP signature |
| ImageFormat.DetectionJustified | nova_prompt_v12.py:28-58 | an unconverted success has its signature; a converted one has no signature and either the AVIF brand or the decoder's consent; a failure is HTML, or an unsigned header the decoder refuses |
| ImageFormat.JpegBeforeAvif | nova_prompt_v12.py:33-42 | a JPEG marker wins over the AVIF brand |
| ImageFormat.JpegMarkerNotHtml | nova_prompt_v12.py:29-33 | a header starting with the JPEG marker does not look like HTML |
| ImageFormat.TextHeaderDecidedByDecoder | nova_prompt_v12.py:44-58 | a `<head` header is never rejected as HTML/text; only the decoder decides |
| ImageFormat.UrlExtension | nova_prompt_v12.py:1451-1459 | the chosen extension is one of `.png`, `.gif`, `.webp`, `.jpeg` |
| ImageFormat.UrlFormatPriority | nova_prompt_v12.py:1451-1459 | PNG, GIF or WEBP is chosen exactly when it is named and no earlier format is named; otherwise JPEG |
| ImageFormat.UpperCaseUrlSuffix | nova_prompt_v12.py:1451 | a `.PNG` URL with no content type is sent as PNG |
| ImageFormat.BedrockFormat | nova_prompt_v12.py:1502-1509 | `.jpg`/`.jpeg` map to jpeg; `.png`, `.gif` and `.webp` map to themselves without the dot; an unknown extension defaults to jpeg; the result is always one of the four names |
| ImageFormat.BedrockFormatOfDetected | nova_prompt_v12.py:1474-1509 | the extension built from a detected format maps back to that format's name |
| Tagging.ConverseWithRetry | nova_prompt_v12.py:1521-1556 | attempts before the last failed retryably and were each followed by a sleep of `2^attempt`; the last outcome is a success, a non-retryable error, or the error of the fourth call |
| Tagging.Retryable | nova_prompt_v12.py:1551 | the errors retried: those mentioning throttling, a token-rate limit or an unavailable service |
| Tagging.RetryRun | nova_prompt_v12.py:1521-1556 | what a run of the retry loop is: retryable failures each followed by a sleep of `2^attempt`, then the final outcome |
| Tagging.RetryRunUnique | nova_prompt_v12.py:1525-1556 | the outcome and the sleeps are fixed by the call outcomes |
| Tagging.BackoffSum | nova_prompt_v12.py:1552 | the first `n` backoff delays add up to `2^n - 1` |
| Tagging.Backoff | nova_prompt_v12.py:1552 | `base_delay * 2 ** attempt` is at least the base delay of one second |
| Tagging.RetryBounds | nova_prompt_v12.py:1522-1556 | at most four calls; the sleeps are a prefix of 1, 2, 4; seven seconds at most |
| Tagging.NonRetryableFirstError | nova_prompt_v12.py:1549-1556 | a non-retryable first error is re-raised at once, with no sleep |
| Tagging.AlwaysThrottled | nova_prompt_v12.py:1521-1556 | a model that throttles every call is called four times, with sleeps of 1, 2 and 4 seconds, and the fourth error is raised |
| Tagging.Reraised | nova_prompt_v12.py:1595-1596 | a response passes through unchanged; an error is raised again with "Error in img_tagging: " in front of its unchanged text |
| Tagging.IsUrl | nova_prompt_v12.py:1446 | the input is a URL when it starts with `http://` or `https://` |
| Tagging.FileExtension | nova_prompt_v12.py:1444-1476 | for a URL: the download error with prefix "Failed to download image from URL: ", or the extension chosen from the content type and URL; for a local file: the open error, detection error or conversion error behind "Failed to process image file: ", or else the extension of the detected format, succeeding exactly when the file opens, is detected, and converts if it must |
| Tagging.RequestFor | nova_prompt_v12.py:1502-1544 | the request carries the model id, the cache flag and 150 max tokens; its format is one of the four names and, for each extension `FileExtension` can give, is that extension without its dot |
| Tagging.ImgTagging | nova_prompt_v12.py:1444-1596 | when the image cannot be obtained, no call is made and the prefixed error is raised; otherwise the calls follow the retry rule for the request built from the image's format, and any error is re-raised with "Error in img_tagging: " |
| Tagging.LocalFormatKept | nova_prompt_v12.py:1463-1509 | a local file is sent in exactly the format its header was detected as |
| Tagging.HtmlFileRefused | nova_prompt_v12.py:1463-1476 | a local HTML file is refused before any call, with a message that says HTML |
| Batch.PathJoin | nova_prompt_v12.py:1655 | `os.path.join` ends with the file name; an absolute name replaces the directory; a relative one is put under the directory, with a `/` between them when the directory is not empty |
| Batch.RowInputs | nova_prompt_v12.py:1651-1659 | without an `image` column: the first two cells; with one: `tag_gt` if present, else the first cell, and the path `os.path.join(images_dir, image)`, which ends in the image name |
| Batch.Categorize | nova_prompt_v12.py:1680-1686 | an error counts as an HTML file exactly when it mentions "HTML"; as an unsupported format exactly when it does not but mentions "AVIF" or "not supported"; otherwise as neither |
| Batch.HtmlTestRedundant | nova_prompt_v12.py:1680 | the second HTML test adds nothing: "appears to be HTML" contains "HTML" |
| Batch.HtmlImageCounted | nova_prompt_v12.py:1680-1681 | the error for a local HTML image is categorised as HTML. Tallied, it adds one failure and one HTML file, and no unsupported format |
| Batch.UnsupportedImageIsOtherError | nova_prompt_v12.py:52-58 | a local file no decoder accepts is refused as "Unsupported or corrupted image file"; unless its path has one of the keywords, that error is categorised as a plain failure. Tallied, it adds one failure and neither an HTML file nor an unsupported format |
| Batch.Clean | nova_prompt_v12.py:1692 | the cleaned reply is no longer than the reply, at least three characters shorter when the reply holds a fence, and has no whitespace at either end |
| Batch.FencedReplyCleaned | nova_prompt_v12.py:1692 | a reply of the usual shape "```json" + body + "```", with no backtick and no "json" in the body, cleans to the stripped body |
| Batch.PlainReplyOnlyStripped | nova_prompt_v12.py:1692 | a reply without a fence and without "json" is only stripped |
| Batch.FenceCanSurvive | nova_prompt_v12.py:1692 | the replacements run in order, so "`json``" cleans to a fence "```" |
| Batch.Filtered | nova_prompt_v12.py:1698 | a reply mentioning "content filters", or "blocked" as "blocked", "Blocked" or "BLOCKED", is a content-filter refusal |
| Batch.JsonSlice | nova_prompt_v12.py:1703-1706 | a slice exists exactly when some `{` precedes some `}`; it runs from the first `{` through the last `}` |
| Batch.BracePairFound | nova_prompt_v12.py:1703-1705 | `json_start != -1 and json_end > json_start` holds exactly when some `{` precedes some `}` |
| Batch.Inference | nova_prompt_v12.py:1693-1720 | a filtered reply becomes CONTENT_FILTERED; otherwise the parsed "result" of the slice (or of the whole reply), and the reply itself when parsing fails |
| Batch.UnparsableReplyKept | nova_prompt_v12.py:1709-1720 | a brace-free reply whose parse fails is kept as cleaned |
| Batch.SurroundedJsonParsed | nova_prompt_v12.py:1703-1708 | a reply with text around one JSON object is reduced to that object's "result" |
| Batch.MissingFileFails | nova_prompt_v12.py:1661-1677 | a missing image is a failure with text "错误: Image file not found: …", whatever tagging would say |
| Batch.RowOutcome | nova_prompt_v12.py:1663-1667 | an existing image gives the tagging outcome for its path; a missing one fails with "Image file not found: " and the path |
| Batch.RowText | nova_prompt_v12.py:1667-1677 | `result` is the reply text after a success, and "错误: " followed by the unchanged error after a failure |
| Batch.RowResult | nova_prompt_v12.py:1727-1731 | the result row holds `tag_gt`, the joined image path, and the interpretation of the text obtained for that same path |
| Batch.InterpreterInterprets | nova_prompt_v12.py:1692-1720 | the clean-then-interpret step exists, so the loop's precondition can always be met |
| Batch.Tally | nova_prompt_v12.py:1661-1689 | a success adds one success, its tokens, and nothing else. A failure adds one failure and no tokens. It adds one HTML file exactly when `Categorize` says HTML, and one unsupported format exactly when it says unsupported. The result rows are untouched |
| Batch.Step | nova_prompt_v12.py:1661-1731 | one row appends exactly its result row. Its counters other than the content-filter count are `Tally` of the row's outcome. It adds one content-filter count exactly when its result is the marker |
| Batch.Run | nova_prompt_v12.py:1650-1731 | after `n` rows: `n` result rows, `n` successes and failures together, error categories only among the failures, and the content-filter count equal to the result rows holding the marker |
| Batch.TryRow | nova_prompt_v12.py:1661-1689 | the row's inputs; the counters updated as the outcome dictates; the text left in `result` |
| Batch.ProcessRow | nova_prompt_v12.py:1661-1731 | the summary after one row is `Step` of the summary before |
| Batch.ProcessExcelData | nova_prompt_v12.py:1635-1731 | the summary is `Run` over all rows; one result row per input row; successes plus failures equal the rows; HTML plus unsupported counts at most the failures; the content-filter counter equals the number of CONTENT_FILTERED result rows |
| Batch.FilteredResultsAppend | nova_prompt_v12.py:1722-1731 | appending a result row adds one to the filtered count exactly when it holds the marker |
| SftDataset.ImgFormat | gen_nova_sft_dataset.py:234 | a ".jpg" name gives "jpeg"; a format never holds a `.` |
| SftDataset.LastPiece | gen_nova_sft_dataset.py:234 | the last piece of a split holds no `.` |
| SftDataset.JpegPieceFrom | gen_nova_sft_dataset.py:234 | a last piece "jpeg" comes from a name ending in ".jpeg", or from the bare name "jpeg" |
| SftDataset.JpegPieceOf | gen_nova_sft_dataset.py:234 | a name ending in ".jpeg", or the bare name "jpeg", has the last piece "jpeg" |
| SftDataset.JpegFormat | gen_nova_sft_dataset.py:234 | the format is jpeg exactly for names ending in ".jpg" or ".jpeg", or the bare name "jpeg" (case-sensitive) |
| SftDataset.S3Path | gen_nova_sft_dataset.py:232 | the URI starts with `s3://bucket/prefix/` and ends with the file name |
| SftDataset.CreateRecord | gen_nova_sft_dataset.py:231-269 | None exactly when the format is not jpeg. Otherwise: the bedrock-conversation-2024 schema; one system text; a user message with the image (jpeg, the S3 URI, the account as owner) then the instruction; an assistant message holding `flag` verbatim |
| SftDataset.RecordMadeForJpeg | gen_nova_sft_dataset.py:234-238 | a record is made exactly for ".jpg"/".jpeg" names (and the bare name "jpeg") |
| SftDataset.RecordNamesImage | gen_nova_sft_dataset.py:231-269 | equal records come from the same file name and flag |
| SftDataset.GtLabel | gen_nova_sft_dataset.py:277 | the label is the flag between `{"result":"` and `"}`, 13 characters longer |
| SftDataset.LabelFlag | gen_nova_sft_dataset.py:277 | a flag read back is 13 characters shorter than its label |
| SftDataset.LabelRoundTrip | gen_nova_sft_dataset.py:277 | the flag is read back from its label, whatever characters it holds |
| SftDataset.LabelInjective | gen_nova_sft_dataset.py:277 | distinct flags give distinct labels |
| SftDataset.LabelSurvivesJsonSlice | gen_nova_sft_dataset.py:277 | the tagging script's JSON slice keeps a training label whole |
| SftDataset.RecordsStep | gen_nova_sft_dataset.py:276-281 | one more row adds its record, if it has one |
| SftDataset.Written | gen_nova_sft_dataset.py:279-281 | a row writes at most one record, exactly when its name ends in ".jpg" or ".jpeg" (or is "jpeg"), and that record is `create_record` of the row's label and name |
| SftDataset.RecordsAreLabelled | gen_nova_sft_dataset.py:276-281 | no more records than rows, and each record is `create_record` of some row's label and file name |
| SftDataset.AllJpegRowsWritten | gen_nova_sft_dataset.py:276-281 | when every row is JPEG, record `i` is the record of row `i` |
| SftDataset.GenerateDataset | gen_nova_sft_dataset.py:275-281 | the records written are those of the JPEG rows, in row order |

## Left out

- Reading the spreadsheets is outside the model: `pd.read_excel`, the command line, `astype(str)`, and a missing column's `KeyError` exit. Writing the output is too: `to_excel`, `to_csv`, `json.dumps` and the JSONL file. All `print` output is left out, including the final summary of `process_excel_data`.
- Metrics.Precision: computed as an exact rational; Python's floating-point rounding of `tp / (tp + fp)` is not modelled. The same holds for Metrics.Recall.
- PyStrings.AsciiLower: lowers only `A`–`Z`. Python's `str.lower` also lowers non-ASCII letters, so the content-filter and URL tests are exact only for ASCII text.
- PIL is not modelled. Decoding is the function `canDecode`. A JPEG conversion either succeeds or fails with a given message; the pixel work of `convert_to_jpeg_bytes` is out.
- Base64 encoding and decoding, the HTTP download and the boto3 client with its credential lookup are left out. A download is a value that gives the content type or the failure reason.
- The converse call is a function from the request and the attempt number to a response or an error message. These request fields are not modelled: the prompts, the assistant prefill, `topP` and `temperature` (floats), and the image bytes.
- Tagging.ImgTagging: a converse response is assumed well formed. A response without `usage`, or without `output.message.content[0].text`, makes the source raise a `KeyError` at nova_prompt_v12.py:1559 or 1587, which is re-raised as "Error in img_tagging: 'usage'" and the like. The model always reads the text and the token counts.
- Tagging.FileExtension: a local file is opened once. An `OSError` from that open (nova_prompt_v12.py:25) is modelled, as "Failed to process image file: " and the error text. The second open, of the same file, in `encode_image_to_base64` (nova_prompt_v12.py:88) is taken to succeed whenever the first did.
- The cache token metrics, the `return_metrics=False` path and `analyze_image_simple` are not modelled.
- `json.loads(text)["result"]` is the function `loads`. Every exception it can raise is `None`. A "result" that is not a string is not modelled.
- The HTML/text test of `detect_image_format` (nova_prompt_v12.py:44-50) has no branch in the model: its `raise` is caught by its own bare `except`. `ImageFormat.TextHeaderDecidedByDecoder` shows the decoder alone decides such headers.
- The token averages of `process_excel_data` are float divisions and are not modelled. The token totals are.
- Exceptions raised in the row loop outside its `try` (nova_prompt_v12.py:1652-1659) are not modelled. They end the whole run: `row.iloc[1]` on a sheet with one column, or `os.path.join` given a cell that is not a string (an empty cell read as NaN). The model gives every row a first and a second cell, and every cell is a string.
- Batch.Run: the result row for input row `k` is given by the definitions of `Run` and `Step`. No separate lemma names result row `k` for every `k`.
- The system prompt of gen_nova_sft_dataset.py is a parameter rather than its text. A `flag` or `filename` cell that is not a string (an empty cell read as NaN) is not modelled. Python raises on it: the `+` of line 277 for `flag`, and `filename.endswith` at line 234 for `filename`.
- check_large_images.py, check_jpg_format.py and check_trainset.py are not part of this model. They read image sizes and formats through PIL and query S3.
