/**
 * `process_excel_data` of nova_prompt_v12.py: one pass over the rows of a
 * spreadsheet. Each row names a ground-truth tag and an image; the image is
 * tagged (unless the file is missing), the reply is cleaned of its markdown
 * fence, a content-filter refusal is recognised, the JSON object in the
 * reply is located and its "result" taken. Counters track successes,
 * failures by kind and filtered replies; one result row is appended per
 * input row.
 *
 * The file system (`os.path.exists`), the outcome of `img_tagging` for each
 * row and `json.loads(text)["result"]` are given as functions.
 */
module Batch {
  import opened Wrappers
  import opened PyStrings
  import opened Tagging

  /** One spreadsheet row: its cells by column name and its first two cells by position. */
  datatype SheetRow = SheetRow(cells: map<string, string>, first: string, second: string)

  /** One entry of `results`: `tag_gt`, `image_path`, `inference_result`. */
  datatype ResultRow = ResultRow(tagGt: string, imagePath: string, inferenceResult: string)

  /** What the loop leaves behind: the result rows and the counters of the final summary. */
  datatype Summary = Summary(
    results: seq<ResultRow>,
    successful: nat,
    failed: nat,
    contentFiltered: nat,
    htmlFiles: nat,
    unsupportedFormats: nat,
    inputTokens: nat,
    outputTokens: nat)

  /** The outside world of the batch. */
  datatype BatchWorld = BatchWorld(
    fileExists: string -> bool,
    tagging: (nat, string) -> CallOutcome,
    loads: string -> Option<string>)

  const ContentFilteredTag: string := "CONTENT_FILTERED"
  const NotFoundPrefix: string := "Image file not found: "

  // ---------------------------------------------------------------- reading a row

  /**
   * `os.path.join(a, b)` on POSIX paths: an absolute `b` replaces `a`; a
   * relative `b` is put under `a`, with one separator between them.
   */
  function PathJoin(a: string, b: string): (p: string)
    ensures EndsWith(p, b)
    ensures StartsWith(b, "/") ==> p == b
    ensures !StartsWith(b, "/") ==> StartsWith(p, a)
    ensures !StartsWith(b, "/") && a != "" ==> EndsWith(p[..|p| - |b|], "/")
  {
    if StartsWith(b, "/") then b
    else if a == "" || EndsWith(a, "/") then a + b
    else a + "/" + b
  }

  /**
   * The ground-truth tag and the image path of a row: with an `image`
   * column, `tag_gt` (or the first cell) and the image file inside
   * `images_dir`; otherwise the first cell and the second cell as a path.
   */
  function RowInputs(row: SheetRow, imagesDir: string): (r: (string, string))
    ensures "image" !in row.cells ==> r == (row.first, row.second)
    ensures "image" in row.cells ==> r.1 == PathJoin(imagesDir, row.cells["image"])
    ensures "image" in row.cells ==> EndsWith(r.1, row.cells["image"])
    ensures "image" in row.cells && "tag_gt" in row.cells ==> r.0 == row.cells["tag_gt"]
    ensures "image" in row.cells && "tag_gt" !in row.cells ==> r.0 == row.first
  {
    if "image" in row.cells then
      var tagGt := if "tag_gt" in row.cells then row.cells["tag_gt"] else row.first;
      (tagGt, PathJoin(imagesDir, row.cells["image"]))
    else
      (row.first, row.second)
  }

  // ---------------------------------------------------------------- errors

  datatype ErrorKind = HtmlFile | UnsupportedFormat | OtherError

  /**
   * The counter an error message goes to, tested in this order: a message
   * that mentions HTML is an HTML file; one that mentions AVIF or says "not
   * supported" is an unsupported format; any other is just a failure.
   */
  function Categorize(msg: string): (kind: ErrorKind)
    ensures kind == HtmlFile <==> Contains(msg, "HTML")
    ensures kind == UnsupportedFormat <==>
      !Contains(msg, "HTML") && (Contains(msg, "AVIF") || Contains(msg, "not supported"))
  {
    HtmlTestRedundant(msg);
    if Contains(msg, "HTML") || Contains(msg, "appears to be HTML") then HtmlFile
    else if Contains(msg, "AVIF") || Contains(msg, "not supported") then UnsupportedFormat
    else OtherError
  }

  /** The second HTML test adds nothing: a message saying "appears to be HTML" says "HTML". */
  lemma HtmlTestRedundant(msg: string)
    ensures Contains(msg, "appears to be HTML") ==> Contains(msg, "HTML")
  {
    if Contains(msg, "appears to be HTML") {
      var i := ContainsHasOffset(msg, "appears to be HTML");
      var w := msg[i..i + 18];
      assert w[14..] == "HTML";
      assert msg[i + 14..][..4] == w[14..];
      ContainsAt(msg, "HTML", i + 14);
    }
  }

  /**
   * A local HTML image file is counted among the HTML files: the error
   * `img_tagging` raises for it adds one failure and one HTML file.
   */
  lemma HtmlImageCounted(input: string, world: World, s: Summary)
    requires !IsUrl(input) && world.file(input).Readable?
    requires ImageFormat.LooksLikeHtml(ImageFormat.Header(world.file(input).content))
    ensures Categorize(ErrorPrefix + FileExtension(input, world).error) == HtmlFile
    ensures var t := Tally(s, Failure(ErrorPrefix + FileExtension(input, world).error));
      t.failed == s.failed + 1 && t.htmlFiles == s.htmlFiles + 1 && t.unsupportedFormats == s.unsupportedFormats
  {
    HtmlFileRefused(input, world);
  }

  /** The three keywords of `Categorize` cannot start inside the fixed parts of an error message. */
  lemma KeywordsStartNowhere(w: string)
    requires w == "HTML" || w == "AVIF" || w == "not supported"
    ensures NoStartIn(ErrorPrefix, w) && NoStartIn(ProcessFilePrefix, w)
    ensures NoStartIn("Unsupported or corrupted image file: ", w)
  {
  }

  /** A keyword absent from the path is absent from the whole unsupported-image error. */
  lemma KeywordAbsent(path: string, w: string)
    requires w == "HTML" || w == "AVIF" || w == "not supported"
    requires !Contains(path, w)
    ensures !Contains(ErrorPrefix + (ProcessFilePrefix + ImageFormat.UnsupportedMessage(path)), w)
  {
    var tail := "Unsupported or corrupted image file: " + path;
    KeywordsStartNowhere(w);
    PrefixAddsNoOccurrence("Unsupported or corrupted image file: ", path, w);
    PrefixAddsNoOccurrence(ProcessFilePrefix, tail, w);
    PrefixAddsNoOccurrence(ErrorPrefix, ProcessFilePrefix + tail, w);
  }

  /**
   * A local file that is no image, in no format the decoder accepts, is
   * refused as "Unsupported or corrupted image file: ..."; yet the batch
   * counts it as a plain failure, not as an unsupported format, because the
   * message neither mentions AVIF nor says "not supported" (unless its path
   * does).
   */
  lemma UnsupportedImageIsOtherError(input: string, world: World, s: Summary)
    requires !IsUrl(input) && world.file(input).Readable?
    requires var header := ImageFormat.Header(world.file(input).content);
      !ImageFormat.LooksLikeHtml(header) && ImageFormat.NoSignature(header) && !ImageFormat.IsAvif(header)
    requires !world.canDecode(world.file(input).content)
    requires !Contains(input, "HTML") && !Contains(input, "AVIF") && !Contains(input, "not supported")
    ensures FileExtension(input, world) == Failure(ProcessFilePrefix + ImageFormat.UnsupportedMessage(input))
    ensures Categorize(ErrorPrefix + FileExtension(input, world).error) == OtherError
    ensures var t := Tally(s, Failure(ErrorPrefix + FileExtension(input, world).error));
      t.failed == s.failed + 1 && t.htmlFiles == s.htmlFiles && t.unsupportedFormats == s.unsupportedFormats
  {
    KeywordAbsent(input, "HTML");
    KeywordAbsent(input, "AVIF");
    KeywordAbsent(input, "not supported");
  }

  // ---------------------------------------------------------------- cleaning the reply

  /**
   * `result.replace("```", "").replace("json", "").strip()`: no longer than
   * the reply, shorter by at least a fence when it holds one, with no
   * whitespace at either end.
   */
  function Clean(result: string): (r: string)
    ensures |r| <= |result|
    ensures Contains(result, "```") ==> |r| <= |result| - 3
    ensures Unpadded(r)
  {
    StripShape(RemoveAll(RemoveAll(result, "```"), "json"));
    Strip(RemoveAll(RemoveAll(result, "```"), "json"))
  }

  /** A reply without a fence and without the word "json" is only stripped. */
  lemma PlainReplyOnlyStripped(result: string)
    requires !Contains(result, "```") && !Contains(result, "json")
    ensures Clean(result) == Strip(result)
  {
  }

  /** The usual fenced reply, "```json" + body + "```", cleans to its stripped body. */
  lemma FencedReplyCleaned(body: string)
    requires '`' !in body && !Contains(body, "json")
    ensures Clean("```json" + body + "```") == Strip(body)
  {
    var inner := "json" + body;
    assert "```json" + body + "```" == "```" + (inner + "```");
    RemoveLeading("```", inner + "```");
    assert '`' !in inner by {
      assert forall i :: 0 <= i < |inner| ==> inner[i] == (if i < 4 then "json"[i] else body[i - 4]);
    }
    RemoveTrailing(inner, "```");
    RemoveLeading("json", body);
  }

  /**
   * The two replacements run one after the other, so removing "json" can
   * close up a fence that was not one before: "`json``" cleans to "```".
   */
  lemma FenceCanSurvive()
    ensures Clean("`json``") == "```"
  {
    NoFenceInside();
    JsonRemovedInside();
    StripUnpadded("```");
  }

  /** "`json``" holds no fence, so removing fences leaves it as it is. */
  lemma NoFenceInside()
    ensures RemoveAll("`json``", "```") == "`json``"
  {
    assert "`json``" == "`json" + "``";
    assert NoStartIn("`json", "```");
    assert !Contains("``", "```");
    PrefixAddsNoOccurrence("`json", "``", "```");
  }

  /** Removing "json" from "`json``" leaves three backticks. */
  lemma JsonRemovedInside()
    ensures RemoveAll("`json``", "json") == "```"
  {
    var s := "`json``";
    assert RemoveAll(s, "json") == [s[0]] + RemoveAll(s[1..], "json") by {
      assert s[..4] != "json";
    }
    assert RemoveAll(s[1..], "json") == "``" by {
      assert s[1..][..4] == "json" && s[1..][4..] == "``";
    }
  }

  /**
   * "content filters" or "blocked", in any ASCII case: in particular the
   * lower-case words themselves and "Blocked" and "BLOCKED".
   */
  predicate Filtered(result: string)
    ensures Contains(result, "content filters") ==> Filtered(result)
    ensures Contains(result, "blocked") || Contains(result, "Blocked") || Contains(result, "BLOCKED") ==> Filtered(result)
  {
    FilterWordsLowered(result);
    Contains(AsciiLower(result), "content filters") || Contains(AsciiLower(result), "blocked")
  }

  /** Each spelling of a filter word is "content filters" or "blocked" once lowered. */
  lemma FilterWordsLowered(result: string)
    ensures Contains(result, "content filters") ==> Contains(AsciiLower(result), "content filters")
    ensures Contains(result, "blocked") || Contains(result, "Blocked") || Contains(result, "BLOCKED")
      ==> Contains(AsciiLower(result), "blocked")
  {
    if Contains(result, "content filters") {
      ContentFiltersIsLower();
      LoweredOccurrence(result, "content filters", "content filters");
    }
    if Contains(result, "blocked") {
      BlockedIsLower();
      LoweredOccurrence(result, "blocked", "blocked");
    } else if Contains(result, "Blocked") {
      CapitalisedLowered();
      LoweredOccurrence(result, "Blocked", "blocked");
    } else if Contains(result, "BLOCKED") {
      UpperCaseLowered();
      LoweredOccurrence(result, "BLOCKED", "blocked");
    }
  }

  /** An occurrence of `w` is an occurrence of its lowering in the lowered text. */
  lemma LoweredOccurrence(result: string, w: string, lw: string)
    requires Contains(result, w) && AsciiLower(w) == lw
    ensures Contains(AsciiLower(result), lw)
  {
    ContainsLowered(result, w);
  }

  /** The filter words, and the two capitalised spellings of "blocked", lowered. */
  lemma ContentFiltersIsLower()
    ensures AsciiLower("content filters") == "content filters"
  {
    LowerOfLowercase("content filters");
  }

  lemma BlockedIsLower()
    ensures AsciiLower("blocked") == "blocked"
  {
    LowerOfLowercase("blocked");
  }

  lemma CapitalisedLowered()
    ensures AsciiLower("Blocked") == "blocked"
  {
    assert |AsciiLower("Blocked")| == 7;
  }

  lemma UpperCaseLowered()
    ensures AsciiLower("BLOCKED") == "blocked"
  {
    assert |AsciiLower("BLOCKED")| == 7;
  }

  /**
   * `result[result.find('{'):result.rfind('}') + 1]` when a `{` comes before
   * some `}`: the text from the first `{` through the last `}`.
   */
  function JsonSlice(result: string): (r: Option<string>)
    ensures r.Some? <==> BracePair(result)
    ensures r.Some? ==> |r.value| >= 2 && r.value[0] == '{' && r.value[|r.value| - 1] == '}'
    ensures r.Some? ==> (0 <= Find(result, '{') < RFind(result, '}')
      && r.value == result[Find(result, '{')..RFind(result, '}') + 1])
  {
    var jsonStart := Find(result, '{');
    var jsonEnd := RFind(result, '}') + 1;
    BracePairFound(result);
    if jsonStart != -1 && jsonEnd > jsonStart then
      Some(result[jsonStart..jsonEnd])
    else
      None
  }

  /** Some `{` comes before some `}`. */
  predicate BracePair(s: string) {
    exists i, j :: 0 <= i < j < |s| && s[i] == '{' && s[j] == '}'
  }

  /** A `{` before a `}` exists exactly when the first `{` comes before the last `}`. */
  lemma BracePairFound(s: string)
    ensures BracePair(s) <==> Find(s, '{') != -1 && RFind(s, '}') > Find(s, '{')
  {
    var f, l := Find(s, '{'), RFind(s, '}');
    if BracePair(s) {
      var i, j :| 0 <= i < j < |s| && s[i] == '{' && s[j] == '}';
    }
  }

  /**
   * `inference_result` for a cleaned reply: the content-filter marker for a
   * filtered reply; otherwise the "result" of the JSON slice, or of the whole
   * reply when there is no slice; and the reply itself when that parse fails.
   */
  function Inference(result: string, loads: string -> Option<string>): (v: string)
    ensures Filtered(result) ==> v == ContentFilteredTag
    ensures !Filtered(result) ==>
      var parsed := loads(JsonSlice(result).GetOr(result));
      v == if parsed.Some? then parsed.value else result
  {
    // The `except` branch tests the filter words a second time
    // (nova_prompt_v12.py:1716), although a filtered reply never reaches the
    // parse; the test is kept as written.
    var parseFailed := if Filtered(result) then ContentFilteredTag else result;
    if Filtered(result) then
      ContentFilteredTag
    else
      match JsonSlice(result)
      case Some(jsonPart) =>
        (match loads(jsonPart) case Some(v) => v case None => parseFailed)
      case None =>
        (match loads(result) case Some(v) => v case None => parseFailed)
  }

  // ---------------------------------------------------------------- one row

  /** What the `try` block yields for a row: the tagging outcome, or the missing-file error. */
  function RowOutcome(world: BatchWorld, index: nat, imagePath: string): (r: CallOutcome)
    ensures world.fileExists(imagePath) ==> r == world.tagging(index, imagePath)
    ensures !world.fileExists(imagePath) ==>
      r.Failure? && StartsWith(r.error, NotFoundPrefix) && EndsWith(r.error, imagePath)
  {
    if world.fileExists(imagePath) then world.tagging(index, imagePath) else Failure(NotFoundPrefix + imagePath)
  }

  /** `result` before cleaning: the reply, or the error message behind "错误: ". */
  function RowText(outcome: CallOutcome): (t: string)
    ensures outcome.Success? ==> t == outcome.value.text
    ensures outcome.Failure? ==> StartsWith(t, "错误: ") && t[4..] == outcome.error
  {
    match outcome
    case Success(response) => response.text
    case Failure(msg) => "错误: " + msg
  }

  function Indicator(b: bool): nat {
    if b then 1 else 0
  }

  /** The image path of a row and the outcome of its `try` block. */
  function RowRun(index: nat, row: SheetRow, imagesDir: string, world: BatchWorld): CallOutcome {
    RowOutcome(world, index, RowInputs(row, imagesDir).1)
  }

  /**
   * What the loop makes of the text of a row: the text cleaned, then
   * interpreted. The summary functions below take the interpretation as a
   * parameter `interpret`; the loop is proved against them for any
   * `interpret` that agrees with this one.
   */
  ghost predicate Interprets(interpret: string -> string, loads: string -> Option<string>) {
    forall text :: interpret(text) == Inference(Clean(text), loads)
  }

  function Interpreter(loads: string -> Option<string>): string -> string {
    text => Inference(Clean(text), loads)
  }

  /** The interpretation exists: the precondition of the loop can always be met. */
  lemma InterpreterInterprets(loads: string -> Option<string>)
    ensures Interprets(Interpreter(loads), loads)
  {
  }

  /** The result row for row number `index`. */
  function RowResult(index: nat, row: SheetRow, imagesDir: string, world: BatchWorld, interpret: string -> string): (r: ResultRow)
    ensures "image" in row.cells ==> r.imagePath == PathJoin(imagesDir, row.cells["image"])
    ensures "image" in row.cells && "tag_gt" in row.cells ==> r.tagGt == row.cells["tag_gt"]
    ensures r.inferenceResult == interpret(RowText(RowOutcome(world, index, r.imagePath)))
  {
    var inputs := RowInputs(row, imagesDir);
    ResultRow(inputs.0, inputs.1, interpret(RowText(RowRun(index, row, imagesDir, world))))
  }

  /**
   * The counters after the `try`/`except` of a row whose outcome is
   * `outcome`: one more success or one more failure; a failure adds to at
   * most one error category, a success to none; only a success adds tokens;
   * the result rows and the content-filter count are not touched.
   */
  function Tally(s: Summary, outcome: CallOutcome): (t: Summary)
    ensures t.successful + t.failed == s.successful + s.failed + 1
    ensures t.successful == s.successful + 1 <==> outcome.Success?
    ensures t.htmlFiles + t.unsupportedFormats - s.htmlFiles - s.unsupportedFormats <= t.failed - s.failed
    ensures t.htmlFiles >= s.htmlFiles && t.unsupportedFormats >= s.unsupportedFormats
    ensures outcome.Success? ==> t.successful == s.successful + 1 && t.failed == s.failed
    ensures outcome.Failure? ==> t.successful == s.successful && t.failed == s.failed + 1
    ensures outcome.Failure? ==> (t.htmlFiles == s.htmlFiles + 1 <==> Categorize(outcome.error) == HtmlFile)
    ensures outcome.Failure? ==>
      (t.unsupportedFormats == s.unsupportedFormats + 1 <==> Categorize(outcome.error) == UnsupportedFormat)
    ensures outcome.Success? ==> t.htmlFiles == s.htmlFiles && t.unsupportedFormats == s.unsupportedFormats
    ensures outcome.Success? ==>
      t.inputTokens == s.inputTokens + outcome.value.inputTokens
      && t.outputTokens == s.outputTokens + outcome.value.outputTokens
    ensures outcome.Failure? ==> t.inputTokens == s.inputTokens && t.outputTokens == s.outputTokens
    ensures t.results == s.results && t.contentFiltered == s.contentFiltered
  {
    s.(successful := s.successful + Indicator(outcome.Success?),
       failed := s.failed + Indicator(outcome.Failure?),
       htmlFiles := s.htmlFiles + Indicator(outcome.Failure? && Categorize(outcome.error) == HtmlFile),
       unsupportedFormats := s.unsupportedFormats + Indicator(outcome.Failure? && Categorize(outcome.error) == UnsupportedFormat),
       inputTokens := s.inputTokens + (if outcome.Success? then outcome.value.inputTokens else 0),
       outputTokens := s.outputTokens + (if outcome.Success? then outcome.value.outputTokens else 0))
  }

  /**
   * The summary after processing row number `index`: exactly its result row
   * appended, exactly one more success or failure, at most one more error
   * category, and one more content-filter count exactly when its result is
   * the marker.
   */
  function Step(s: Summary, index: nat, row: SheetRow, imagesDir: string, world: BatchWorld, interpret: string -> string): (t: Summary)
    ensures t.results == s.results + [RowResult(index, row, imagesDir, world, interpret)]
    ensures t.successful + t.failed == s.successful + s.failed + 1
    ensures t.htmlFiles + t.unsupportedFormats - s.htmlFiles - s.unsupportedFormats <= t.failed - s.failed
    ensures t.contentFiltered == s.contentFiltered
      + Indicator(RowResult(index, row, imagesDir, world, interpret).inferenceResult == ContentFilteredTag)
    ensures t.(results := s.results, contentFiltered := s.contentFiltered) == Tally(s, RowRun(index, row, imagesDir, world))
  {
    var t := Tally(s, RowRun(index, row, imagesDir, world));
    var result := RowResult(index, row, imagesDir, world, interpret);
    t.(results := t.results + [result],
       contentFiltered := t.contentFiltered + Indicator(result.inferenceResult == ContentFilteredTag))
  }

  /**
   * The summary after the first `n` rows: one result row per row; every row
   * a success or a failure; the HTML and unsupported-format counters only
   * count failures; the content-filter counter is the number of result rows
   * holding the marker.
   */
  function Run(rows: seq<SheetRow>, imagesDir: string, world: BatchWorld, interpret: string -> string, n: nat): (r: Summary)
    requires n <= |rows|
    ensures |r.results| == n
    ensures r.successful + r.failed == n
    ensures r.htmlFiles + r.unsupportedFormats <= r.failed
    ensures r.contentFiltered == FilteredResults(r.results)
  {
    if n == 0 then Summary([], 0, 0, 0, 0, 0, 0, 0)
    else
      var before := Run(rows, imagesDir, world, interpret, n - 1);
      FilteredResultsAppend(before.results, RowResult(n - 1, rows[n - 1], imagesDir, world, interpret));
      Step(before, n - 1, rows[n - 1], imagesDir, world, interpret)
  }

  /** The `try`/`except` of one row: the counters it updates and the text it leaves in `result`. */
  method TryRow(s: Summary, index: nat, row: SheetRow, imagesDir: string, world: BatchWorld)
    returns (t: Summary, tagGt: string, imagePath: string, result: string)
    ensures (tagGt, imagePath) == RowInputs(row, imagesDir)
    ensures t == Tally(s, RowRun(index, row, imagesDir, world))
    ensures result == RowText(RowRun(index, row, imagesDir, world))
  {
    var inputs := RowInputs(row, imagesDir);
    tagGt, imagePath := inputs.0, inputs.1;
    t := s;
    var outcome := if world.fileExists(imagePath) then world.tagging(index, imagePath)
                   else Failure(NotFoundPrefix + imagePath);
    match outcome {
      case Success(response) =>
        t := t.(inputTokens := t.inputTokens + response.inputTokens, outputTokens := t.outputTokens + response.outputTokens);
        result := response.text;
        t := t.(successful := t.successful + 1);
      case Failure(errorMsg) =>
        result := "错误: " + errorMsg;
        var kind := Categorize(errorMsg);
        if kind == HtmlFile {
          t := t.(htmlFiles := t.htmlFiles + 1);
        } else if kind == UnsupportedFormat {
          t := t.(unsupportedFormats := t.unsupportedFormats + 1);
        }
        t := t.(failed := t.failed + 1);
    }
  }

  /**
   * The body of the loop for one row: the `try`/`except` around the tagging,
   * then the cleaning, the parse and the append.
   */
  method ProcessRow(s: Summary, index: nat, row: SheetRow, imagesDir: string, world: BatchWorld, ghost interpret: string -> string)
    returns (t: Summary)
    requires Interprets(interpret, world.loads)
    ensures t == Step(s, index, row, imagesDir, world, interpret)
  {
    var tagGt, imagePath, result;
    t, tagGt, imagePath, result := TryRow(s, index, row, imagesDir, world);
    ghost var text := result;
    result := Clean(result);
    var inferenceResult := Inference(result, world.loads);
    assert inferenceResult == interpret(text);
    if inferenceResult == ContentFilteredTag {
      t := t.(contentFiltered := t.contentFiltered + 1);
    }
    t := t.(results := t.results + [ResultRow(tagGt, imagePath, inferenceResult)]);
  }

  /**
   * The loop of `process_excel_data`, up to writing the results and printing
   * the summary: the summary is the one the rows determine; there is one
   * result row per input row; every row is a success or a failure; the HTML
   * and unsupported-format counters only count failures; and the
   * content-filter counter is the number of result rows holding the marker.
   */
  method ProcessExcelData(rows: seq<SheetRow>, imagesDir: string, world: BatchWorld, ghost interpret: string -> string)
    returns (summary: Summary)
    requires Interprets(interpret, world.loads)
    ensures summary == Run(rows, imagesDir, world, interpret, |rows|)
    ensures |summary.results| == |rows|
    ensures summary.successful + summary.failed == |rows|
    ensures summary.htmlFiles + summary.unsupportedFormats <= summary.failed
    ensures summary.contentFiltered == FilteredResults(summary.results) <= |rows|
  {
    summary := Summary([], 0, 0, 0, 0, 0, 0, 0);
    var index := 0;
    while index < |rows|
      invariant index <= |rows|
      invariant Run(rows, imagesDir, world, interpret, index) == summary
    {
      summary := ProcessRow(summary, index, rows[index], imagesDir, world, interpret);
      index := index + 1;
    }
    FilteredResultsBound(summary.results);
  }

  // ---------------------------------------------------------------- properties

  /** The number of result rows that carry the content-filter marker. */
  function FilteredResults(results: seq<ResultRow>): nat {
    if results == [] then 0
    else FilteredResults(results[..|results| - 1]) + Indicator(results[|results| - 1].inferenceResult == ContentFilteredTag)
  }

  /** No more filtered rows than rows. */
  lemma {:induction false} FilteredResultsBound(results: seq<ResultRow>)
    ensures FilteredResults(results) <= |results|
    decreases |results|
  {
    if results != [] {
      FilteredResultsBound(results[..|results| - 1]);
    }
  }

  lemma FilteredResultsAppend(results: seq<ResultRow>, last: ResultRow)
    ensures FilteredResults(results + [last]) == FilteredResults(results) + Indicator(last.inferenceResult == ContentFilteredTag)
  {
    assert (results + [last])[..|results|] == results;
  }

  /** A row whose image file is missing is a failure, whatever the tagging would have said. */
  lemma MissingFileFails(world: BatchWorld, index: nat, imagePath: string)
    requires !world.fileExists(imagePath)
    ensures RowOutcome(world, index, imagePath).Failure?
    ensures StartsWith(RowText(RowOutcome(world, index, imagePath)), "错误: " + NotFoundPrefix)
  {
    var t := RowText(RowOutcome(world, index, imagePath));
    assert t == ("错误: " + NotFoundPrefix) + imagePath;
  }

  /**
   * The cleaning and the parse: a clean JSON reply `{...}` whose "result"
   * parses is replaced by that result; a reply without braces whose parse
   * fails is kept as cleaned.
   */
  lemma UnparsableReplyKept(result: string, loads: string -> Option<string>)
    requires !Filtered(result) && '{' !in result && loads(result).None?
    ensures Inference(result, loads) == result
  {
  }

  /** A reply with text around its JSON object is reduced to the object's "result". */
  lemma SurroundedJsonParsed(before: string, obj: string, after: string, loads: string -> Option<string>, v: string)
    requires !Filtered(before + obj + after)
    requires '{' !in before && '}' !in after
    requires |obj| >= 2 && obj[0] == '{' && obj[|obj| - 1] == '}'
    requires loads(obj) == Some(v)
    ensures Inference(before + obj + after, loads) == v
  {
    var s := before + obj + after;
    var a, b := |before|, |before| + |obj| - 1;
    assert s[a] == '{' && s[..a] == before;
    assert s[b] == '}' && s[b + 1..] == after;
    FindFirst(s, '{', a);
    RFindLast(s, '}', b);
    assert s[a..b + 1] == obj;
  }
}
