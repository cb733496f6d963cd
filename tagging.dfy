/**
 * `img_tagging` of nova_prompt_v12.py: pick the image format (from the
 * download's content type and URL, or by sniffing a local file), map it to
 * a Bedrock format name, then call the converse API with up to three
 * retries and exponential backoff. Every failure is re-raised with the
 * prefix "Error in img_tagging: ".
 *
 * The outside world is a value of type `World`: downloads, files on disk,
 * the image decoder and the remote model are functions the model is given;
 * the call's outcome depends on the request and on the attempt number, so
 * any sequence of successes and errors can be described. `time.sleep` is
 * recorded as the list of delays it was asked for.
 */
module Tagging {
  import opened Wrappers
  import opened PyStrings
  import opened ImageFormat

  const MaxRetries: nat := 3
  const BaseDelay: nat := 1
  const MaxTokens: nat := 150

  /** The parts of a converse response the script reads: the generated text and the token usage. */
  datatype Response = Response(text: string, inputTokens: nat, outputTokens: nat)

  /** What the converse call is given besides the prompts and the image bytes. */
  datatype Request = Request(modelId: string, format: string, cachePoint: bool, maxTokens: nat)

  /** The result of one converse call: a response, or the text of the exception raised. */
  type CallOutcome = Result<Response, string>

  /** What `encode_image_from_url` gets back: the content-type header, or the reason it failed. */
  datatype Download = Downloaded(contentType: string) | DownloadFailed(reason: string)

  /**
   * A local file: one that cannot be opened, with the text of the `OSError`,
   * or its bytes and the reason converting it to JPEG fails, if it does.
   */
  datatype LocalFile =
    | Unreadable(openError: string)
    | Readable(content: seq<byte>, conversionError: Option<string>)

  /** Everything outside the script that `img_tagging` consults. */
  datatype World = World(
    download: string -> Download,
    file: string -> LocalFile,
    canDecode: seq<byte> -> bool,
    converse: (Request, nat) -> CallOutcome)

  // ---------------------------------------------------------------- retry with backoff

  /** The errors worth retrying: throttling, token-rate limits and an unavailable service. */
  predicate Retryable(msg: string) {
    Contains(msg, "ThrottlingException") || Contains(msg, "Too many tokens") || Contains(msg, "ServiceUnavailable")
  }

  function Pow2(n: nat): (p: nat)
    ensures p >= 1
  {
    if n == 0 then 1 else 2 * Pow2(n - 1)
  }

  /** `base_delay * (2 ** attempt)` */
  function Backoff(attempt: nat): (d: nat)
    ensures d >= BaseDelay
  {
    BaseDelay * Pow2(attempt)
  }

  /**
   * A run of the retry loop that slept `delays` and ended with `outcome`:
   * every attempt before the last failed with a retryable error and was
   * followed by a sleep of `base_delay * 2^attempt`; the last attempt, number
   * `|delays|`, gave `outcome`, and if that is an error it is not retryable
   * or no retry was left. So there are `|delays| + 1 <= max_retries + 1` calls.
   */
  ghost predicate RetryRun(req: Request, converse: (Request, nat) -> CallOutcome, outcome: CallOutcome, delays: seq<nat>) {
    && |delays| <= MaxRetries
    && (forall k :: 0 <= k < |delays| ==>
          converse(req, k).Failure? && Retryable(converse(req, k).error) && delays[k] == Backoff(k))
    && outcome == converse(req, |delays|)
    && (outcome.Failure? ==> |delays| == MaxRetries || !Retryable(outcome.error))
  }

  /** The `for attempt in range(max_retries + 1)` loop around `client.converse`. */
  method ConverseWithRetry(req: Request, converse: (Request, nat) -> CallOutcome)
    returns (outcome: CallOutcome, delays: seq<nat>)
    ensures RetryRun(req, converse, outcome, delays)
  {
    delays := [];
    var attempt := 0;
    while true
      invariant attempt <= MaxRetries && |delays| == attempt
      invariant forall k :: 0 <= k < attempt ==>
        converse(req, k).Failure? && Retryable(converse(req, k).error) && delays[k] == Backoff(k)
      decreases MaxRetries - attempt
    {
      var response := converse(req, attempt);
      if response.Success? {
        outcome := response;
        break;
      }
      var errorStr := response.error;
      if attempt < MaxRetries && Retryable(errorStr) {
        delays := delays + [Backoff(attempt)];
        attempt := attempt + 1;
      } else {
        outcome := response;
        break;
      }
    }
  }

  /** The retry loop is deterministic: its outcome and its sleeps are fixed by the call outcomes. */
  lemma RetryRunUnique(req: Request, converse: (Request, nat) -> CallOutcome,
                       o1: CallOutcome, d1: seq<nat>, o2: CallOutcome, d2: seq<nat>)
    requires RetryRun(req, converse, o1, d1) && RetryRun(req, converse, o2, d2)
    ensures o1 == o2 && d1 == d2
  {
    assert |d1| == |d2|;
    assert forall k :: 0 <= k < |d1| ==> d1[k] == d2[k];
  }

  function TotalDelay(delays: seq<nat>): nat {
    if delays == [] then 0 else TotalDelay(delays[..|delays| - 1]) + delays[|delays| - 1]
  }

  /** The backoff delays `1, 2, 4, ...` of the first `n` retries add up to `2^n - 1`. */
  lemma {:induction false} BackoffSum(delays: seq<nat>)
    requires forall k :: 0 <= k < |delays| ==> delays[k] == Backoff(k)
    ensures TotalDelay(delays) == Pow2(|delays|) - 1
    decreases |delays|
  {
    if delays != [] {
      BackoffSum(delays[..|delays| - 1]);
    }
  }

  /**
   * At most four calls are made, the sleeps are 1, 2 and 4 seconds at most,
   * seven seconds in all, and a sleep happens only before a retry.
   */
  lemma RetryBounds(req: Request, converse: (Request, nat) -> CallOutcome, outcome: CallOutcome, delays: seq<nat>)
    requires RetryRun(req, converse, outcome, delays)
    ensures |delays| + 1 <= 4
    ensures TotalDelay(delays) <= 7
    ensures delays == [] || delays == [1] || delays == [1, 2] || delays == [1, 2, 4]
  {
    BackoffSum(delays);
    assert Pow2(1) == 2 && Pow2(2) == 4 && Pow2(3) == 8;
    if |delays| == 1 {
      assert delays == [delays[0]];
    } else if |delays| == 2 {
      assert delays == [delays[0], delays[1]];
    } else if |delays| == 3 {
      assert delays == [delays[0], delays[1], delays[2]];
    }
  }

  /**
   * A model that throttles every call is called four times, with sleeps of
   * 1, 2 and 4 seconds between, and its fourth error is the one re-raised.
   */
  lemma AlwaysThrottled(req: Request, converse: (Request, nat) -> CallOutcome, outcome: CallOutcome, delays: seq<nat>)
    requires RetryRun(req, converse, outcome, delays)
    requires forall k :: 0 <= k <= MaxRetries ==>
      converse(req, k).Failure? && Contains(converse(req, k).error, "ThrottlingException")
    ensures delays == [1, 2, 4] && outcome == converse(req, 3)
  {
    assert |delays| == 3;
    assert Pow2(1) == 2 && Pow2(2) == 4;
    assert delays == [delays[0], delays[1], delays[2]];
  }

  /** An error that is not retryable ends the loop at once, after no sleep. */
  lemma NonRetryableFirstError(req: Request, converse: (Request, nat) -> CallOutcome, outcome: CallOutcome, delays: seq<nat>)
    requires RetryRun(req, converse, outcome, delays)
    requires converse(req, 0).Failure? && !Retryable(converse(req, 0).error)
    ensures delays == [] && outcome == converse(req, 0)
  {
  }

  // ---------------------------------------------------------------- img_tagging

  predicate IsUrl(input: string) {
    StartsWith(input, "http://") || StartsWith(input, "https://")
  }

  const ErrorPrefix: string := "Error in img_tagging: "
  const ProcessFilePrefix: string := "Failed to process image file: "

  /**
   * `file_extension`, or the error raised while getting the image: the URL
   * branch asks the content type and the URL; the local branch opens and
   * sniffs the file and, when conversion is needed, converts it to JPEG.
   * Every error of the local branch is re-raised as "Failed to process
   * image file: ...".
   */
  function FileExtension(input: string, world: World): (r: Result<string, string>)
    ensures r.Success? ==> r.value in {".png", ".gif", ".webp", ".jpeg"}
    ensures IsUrl(input) && world.download(input).DownloadFailed? ==>
      r == Failure("Failed to download image from URL: " + world.download(input).reason)
    ensures IsUrl(input) && world.download(input).Downloaded? ==>
      r == Success(UrlExtension(input, world.download(input).contentType))
    ensures !IsUrl(input) && r.Failure? ==> StartsWith(r.error, ProcessFilePrefix)
    ensures !IsUrl(input) && world.file(input).Unreadable? ==>
      r == Failure(ProcessFilePrefix + world.file(input).openError)
    ensures !IsUrl(input) && world.file(input).Readable? ==>
      var d := DetectImageFormat(input, world.file(input).content, world.canDecode);
      d.Failure? ==> r == Failure(ProcessFilePrefix + d.error)
    ensures !IsUrl(input) && world.file(input).Readable? ==>
      var d := DetectImageFormat(input, world.file(input).content, world.canDecode);
      d.Success? && d.value.needsConversion && world.file(input).conversionError.Some? ==>
        r == Failure(ProcessFilePrefix + "Failed to convert image to JPEG: " + world.file(input).conversionError.value)
    ensures !IsUrl(input) ==> (r.Success? <==>
      && world.file(input).Readable?
      && var d := DetectImageFormat(input, world.file(input).content, world.canDecode);
      && d.Success? && !(d.value.needsConversion && world.file(input).conversionError.Some?))
    ensures !IsUrl(input) && r.Success? ==>
      r.value == Extension(DetectImageFormat(input, world.file(input).content, world.canDecode).value.format)
  {
    if IsUrl(input) then
      match world.download(input)
      case DownloadFailed(reason) => Failure("Failed to download image from URL: " + reason)
      case Downloaded(contentType) => Success(UrlExtension(input, contentType))
    else
      match world.file(input)
      case Unreadable(openError) => Failure(ProcessFilePrefix + openError)
      case Readable(content, conversionError) =>
        match DetectImageFormat(input, content, world.canDecode)
        case Failure(msg) => Failure(ProcessFilePrefix + msg)
        case Success(detected) =>
          if detected.needsConversion && conversionError.Some? then
            Failure(ProcessFilePrefix + "Failed to convert image to JPEG: " + conversionError.value)
          else
            Success(Extension(detected.format))
  }

  /** The request `img_tagging` sends for an image with extension `ext`. */
  function RequestFor(modelId: string, ext: string, useCache: bool): (r: Request)
    ensures r.modelId == modelId && r.cachePoint == useCache && r.maxTokens == 150
    ensures r.format in {"jpeg", "png", "gif", "webp"}
    ensures ext in {".jpeg", ".png", ".gif", ".webp"} ==> r.format == ext[1..]
  {
    Request(modelId, BedrockFormat(ext), useCache, MaxTokens)
  }

  /**
   * The value `img_tagging` returns or the exception it raises, for a call
   * outcome: a response is passed on unchanged; an error is raised again
   * with "Error in img_tagging: " in front of its text.
   */
  function Reraised(outcome: CallOutcome): (r: CallOutcome)
    ensures r.Success? <==> outcome.Success?
    ensures outcome.Success? ==> r == outcome
    ensures r.Failure? ==> StartsWith(r.error, ErrorPrefix) && r.error[|ErrorPrefix|..] == outcome.error
  {
    match outcome
    case Success(_) => outcome
    case Failure(msg) => Failure(ErrorPrefix + msg)
  }

  /**
   * `img_tagging(image_input, ..., return_metrics=True)`: the response (text
   * and token counts) or the message of the exception it raises, and the
   * sleeps made. When the image cannot be obtained no call is made; otherwise
   * the calls follow the retry rule with the request built from the image's
   * format.
   */
  method ImgTagging(input: string, modelId: string, useCache: bool, world: World)
    returns (r: CallOutcome, delays: seq<nat>)
    ensures FileExtension(input, world).Failure? ==>
      r == Failure(ErrorPrefix + FileExtension(input, world).error) && delays == []
    ensures FileExtension(input, world).Success? ==>
      var req := RequestFor(modelId, FileExtension(input, world).value, useCache);
      RetryRun(req, world.converse, world.converse(req, |delays|), delays)
      && r == Reraised(world.converse(req, |delays|))
  {
    var ext := FileExtension(input, world);
    if ext.Failure? {
      r, delays := Failure(ErrorPrefix + ext.error), [];
      return;
    }
    var req := RequestFor(modelId, ext.value, useCache);
    var outcome;
    outcome, delays := ConverseWithRetry(req, world.converse);
    r := Reraised(outcome);
  }

  /** A local file is sent in exactly the format its header was detected as. */
  lemma LocalFormatKept(input: string, world: World)
    requires !IsUrl(input) && FileExtension(input, world).Success?
    ensures world.file(input).Readable?
    ensures var d := DetectImageFormat(input, world.file(input).content, world.canDecode);
      d.Success? && BedrockFormat(FileExtension(input, world).value) == FormatName(d.value.format)
  {
    var d := DetectImageFormat(input, world.file(input).content, world.canDecode);
    BedrockFormatOfDetected(d.value.format);
  }

  /** A local HTML file is refused before any call, with a message that says HTML. */
  lemma HtmlFileRefused(input: string, world: World)
    requires !IsUrl(input) && world.file(input).Readable? && LooksLikeHtml(Header(world.file(input).content))
    ensures FileExtension(input, world).Failure?
    ensures Contains(ErrorPrefix + FileExtension(input, world).error, "HTML")
  {
    var m := HtmlMessage(input);
    assert FileExtension(input, world).error == ProcessFilePrefix + m;
    ContainsInConcat(ErrorPrefix + ProcessFilePrefix, m, [], "HTML");
    assert ErrorPrefix + (ProcessFilePrefix + m) == ErrorPrefix + ProcessFilePrefix + m + [];
  }
}
