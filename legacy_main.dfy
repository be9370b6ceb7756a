/** The message handler of the older revision: a request counter bracketing
    every update, the replies of a private chat, the file checks after the
    download, the fallback bitrate, and the two-attempt conversion. Sending
    and deleting messages, the download, probing and conversion themselves
    are inputs: the handler sees only what they answered. */
module LegacyMain {
  import opened Base
  import opened Text
  import opened Probing
  import opened Links
  import LegacyUtils

  /* ---------------------------- configuration ---------------------------- */

  /** `MAX_FILESIZE` in megabytes: the parsed `u64`, with "250" standing in
      for an unset variable and 250 for text that does not parse. */
  function LegacyMaxFilesize(variable: Option<string>): (limit: nat)
    ensures limit < U64_LIMIT
    ensures variable.None? ==> limit == 250
    ensures variable.Some? && ParseU64(variable.value).Some? ==> limit == ParseU64(variable.value).value
    ensures variable.Some? && ParseU64(variable.value).None? ==> limit == 250
  {
    ParseDecimal(250);
    assert Decimal(250) == "250" by {
      assert Decimal(25) == "25" by {
        assert Decimal(2) == "2";
      }
    }
    ParseU64(variable.GetOr("250")).GetOr(250)
  }

  const DEFAULT_MAINTAINER := "the maintainer"

  /** `MAINTAINER`: the trimmed variable as a handle, or a generic name when
      it is unset or blank. */
  function LegacyMaintainer(variable: Option<string>): (name: string)
    ensures variable.None? || Blank(variable.value) ==> name == DEFAULT_MAINTAINER
    ensures variable.Some? && !Blank(variable.value) ==>
      name == "@" + Trim(variable.value) && 2 <= |name|
  {
    var temp := if variable.Some? then Trim(variable.value) else "";
    if temp == "" then DEFAULT_MAINTAINER else "@" + temp
  }

  /* ---------------------------- request counter ---------------------------- */

  /** `change_count_by`: the count plus an `i32` delta, computed in `i64`,
      clamped below at 0, then cast with `as u32`, which keeps the low 32
      bits. */
  function NextCount(count: U32, delta: int): (r: U32)
    requires -0x8000_0000 <= delta < 0x8000_0000
    ensures count + delta <= 0 ==> r == 0
    ensures 0 <= count + delta < U32_LIMIT ==> r == count + delta
    ensures U32_LIMIT <= count + delta ==> r == count + delta - U32_LIMIT
  {
    var clamped := if count + delta < 0 then 0 else count + delta;
    clamped % U32_LIMIT
  }

  /** The count never drops below zero: leaving with nothing counted keeps 0. */
  lemma LeaveAtZero()
    ensures NextCount(0, -1) == 0
  {
  }

  /** The entry step and the endpoint step of one update cancel out. */
  lemma EntryThenExitRestores(c: U32)
    requires c + 1 < U32_LIMIT
    ensures NextCount(NextCount(c, 1), -1) == c
  {
  }

  /** At `u32::MAX` the entry step wraps to 0, and the endpoint then leaves 0. */
  lemma EntryWrapsAtMax()
    ensures NextCount(U32_LIMIT - 1, 1) == 0
    ensures NextCount(NextCount(U32_LIMIT - 1, 1), -1) == 0
  {
  }

  /** `COUNT`, the number of updates being handled. */
  class Counter {
    var count: U32

    constructor ()
      ensures count == 0
    {
      count := 0;
    }

    method ChangeCountBy(delta: int)
      requires -0x8000_0000 <= delta < 0x8000_0000
      modifies this
      ensures count == NextCount(old(count), delta)
    {
      var wide := count + delta;
      if wide < 0 {
        wide := 0;
      }
      count := wide % U32_LIMIT;
    }
  }

  /* ---------------------------- reply texts ---------------------------- */

  const NO_URLS := "No URLs found."
  const NOT_WHITELISTED_PREFIX := "No whitelisted URLs found.\n\nSupported netlocs: "
  const MORE_THAN_ONE := "Downloading more than one video at a time is unsupported."
  const CONTACT_PREFIX := "\n\nFor more information, please contact "

  /** Why no URL was chosen: no link at all, links but none whitelisted
      (listing the supported sites), or else several whitelisted links. */
  function UrlFailure(info: LegacyUtils.UrlInfo, whitelist: seq<string>): (reason: string)
    ensures reason == NO_URLS <==> info.totalUrls == 0
    ensures info.totalUrls > 0 && info.whitelistedUrls == 0 ==>
      reason == NOT_WHITELISTED_PREFIX + CodeList(whitelist) + "."
    ensures info.totalUrls > 0 && info.whitelistedUrls > 0 ==> reason == MORE_THAN_ONE
  {
    if info.totalUrls == 0 then NO_URLS
    else if info.whitelistedUrls == 0 then NOT_WHITELISTED_PREFIX + CodeList(whitelist) + "."
    else MORE_THAN_ONE
  }

  /** On the links of an update that chose no URL, the reason given matches
      the links: none at all, none whitelisted, or at least two whitelisted. */
  lemma NoUrlReason(links: seq<Link>, whitelist: seq<string>)
    ensures var info := LegacyUtils.GetUrlInfo(links, whitelist);
      info.maybeUrl.None? ==>
        (UrlFailure(info, whitelist) == NO_URLS <==> links == [])
        && (links != [] && LegacyUtils.CountAllowed(links, whitelist) == 0 ==>
              UrlFailure(info, whitelist) == NOT_WHITELISTED_PREFIX + CodeList(whitelist) + ".")
        && (LegacyUtils.CountAllowed(links, whitelist) >= 2 ==> UrlFailure(info, whitelist) == MORE_THAN_ONE)
  {
  }

  /** `.replace('.', r"\.")`: the MarkdownV2 escape of every dot. */
  function EscapeDots(s: string): string {
    Replace(s, '.', "\\.")
  }

  /** The contact line has no dot to escape. */
  lemma ContactUnescaped()
    ensures EscapeDots(CONTACT_PREFIX) == CONTACT_PREFIX
  {
    ContactHasNoDot();
    ReplaceAbsent(CONTACT_PREFIX, '.', "\\.");
  }

  lemma ContactHasNoDot()
    ensures '.' !in CONTACT_PREFIX
  {
  }

  /** The escape of the reply's parts: the contact line has no dot, so only
      the reason, the maintainer and the final dot change. */
  lemma {:induction false} EscapeReplyParts(reason: string, maintainer: string)
    ensures EscapeDots(reason + CONTACT_PREFIX + maintainer + ".")
      == EscapeDots(reason) + CONTACT_PREFIX + EscapeDots(maintainer) + "\\."
  {
    ReplaceAppend(reason + CONTACT_PREFIX + maintainer, ".", '.', "\\.");
    ReplaceAppend(reason + CONTACT_PREFIX, maintainer, '.', "\\.");
    ReplaceAppend(reason, CONTACT_PREFIX, '.', "\\.");
    ContactUnescaped();
    ReplaceHit('.', "\\.");
  }

  /** The private reply when no URL was chosen: the reason and the contact
      line, with every '.' escaped for MarkdownV2. */
  function UrlFailureReply(info: LegacyUtils.UrlInfo, whitelist: seq<string>, maintainer: string): (text: string)
    ensures text == EscapeDots(UrlFailure(info, whitelist)) + CONTACT_PREFIX + EscapeDots(maintainer) + "\\."
    ensures forall i :: 0 <= i < |text| && text[i] == '.' ==> 0 < i && text[i - 1] == '\\'
  {
    var raw := UrlFailure(info, whitelist) + CONTACT_PREFIX + maintainer + ".";
    ReplaceEscapes(raw, '.');
    EscapeReplyParts(UrlFailure(info, whitelist), maintainer);
    EscapeDots(raw)
  }

  const EMPTY_QUEUE := "Request accepted.\nThe queue is empty, downloading now."
  const POSITION_PREFIX := "Request accepted.\nYour position in the queue: "

  /** The acceptance reply for a count that includes this update: the
      updates ahead of it, or "queue is empty" when it is alone. */
  function PositionMessage(count: nat): (text: string)
    ensures text == EMPTY_QUEUE <==> count < 2
    ensures count >= 2 ==> text == POSITION_PREFIX + Decimal(count - 1) + "."
  {
    if count >= 2 then
      var text := POSITION_PREFIX + Decimal(count - 1) + ".";
      assert text[18] != EMPTY_QUEUE[18];
      text
    else EMPTY_QUEUE
  }

  /** Distinct positions give distinct replies. */
  lemma PositionMessageInjective(m: nat, n: nat)
    requires 2 <= m && 2 <= n && PositionMessage(m) == PositionMessage(n)
    ensures m == n
  {
    Framed(POSITION_PREFIX, Decimal(m - 1), Decimal(n - 1), ".");
    DecimalInjective(m - 1, n - 1);
  }

  /** The reply when the download directory does not hold exactly one file. */
  function FileCountMessage(files: nat): (text: string)
    ensures files == 0 ==> text == "Failed to download video (no files found)."
    ensures files > 0 ==> text == "Failed to download video (" + Decimal(files) + " files found)."
  {
    "Failed to download video (" + (if files == 0 then "no" else Decimal(files)) + " files found)."
  }

  /** The file-count reply names the count: different counts, different replies. */
  lemma FileCountMessageInjective(m: nat, n: nat)
    requires FileCountMessage(m) == FileCountMessage(n)
    ensures m == n
  {
    var x := if m == 0 then "no" else Decimal(m);
    var y := if n == 0 then "no" else Decimal(n);
    Framed("Failed to download video (", x, y, " files found).");
    if m != 0 && n != 0 {
      DecimalInjective(m, n);
    }
  }

  const EXTRACTOR_FAILED := "Failed to download video (extractor exited with non-zero code)."
  const CONVERT_FAILED := "Failed to convert the video."

  function SizeMessage(maxFilesize: nat): string {
    "Failed to convert video (base file size exceeds " + Decimal(maxFilesize) + " MB)."
  }

  /* ---------------------------- bitrate ---------------------------- */

  /** The fallback video bitrate in kbit/s: 50 MB as 400000 kbit spread over
      the duration, less 128 kbit/s of audio and 5 of slack, less 3% for the
      container, rounded down and saturated at 0 by the `u32` cast; none for
      an unknown (zero) duration. */
  function FallbackBitrate(duration: nat): (r: Option<nat>)
    ensures r.None? <==> duration == 0
    ensures r.Some? && 133 * duration < 400000 ==>
      100 * duration * r.value <= 97 * (400000 - 133 * duration) < 100 * duration * (r.value + 1)
    ensures r.Some? && 400000 <= 133 * duration ==> r.value == 0
  {
    if duration == 0 then None
    else if 400000 <= 133 * duration then Some(0)
    else Some(97 * (400000 - 133 * duration) / (100 * duration))
  }

  /** A positive fallback bitrate, with the 133 kbit/s reserved beside it,
      fits 50 MB over the whole duration. */
  lemma FallbackFitsApiLimit(duration: nat)
    requires FallbackBitrate(duration).Some? && FallbackBitrate(duration).value > 0
    ensures (FallbackBitrate(duration).value + 133) * duration <= 400000
  {
    var r := FallbackBitrate(duration).value;
    if 133 * duration < 400000 {
      var budget := 400000 - 133 * duration;
      assert 100 * duration * r <= 97 * budget;
      assert 100 * (duration * r) <= 100 * budget;
      assert duration * r <= budget;
      assert (r + 133) * duration == duration * r + 133 * duration;
    }
  }

  /** A one-minute video falls back to 6337 kbit/s. */
  lemma OneMinuteFallback()
    ensures FallbackBitrate(60) == Some(6337)
  {
  }

  /** The first attempt is skipped when the fallback bitrate is below 85% of
      the original. The `f64` ratio with an original bitrate of 0 is infinite
      or NaN, and neither compares below 0.85. */
  predicate SkipToFallback(fallback: Option<nat>, original: nat) {
    fallback.Some? && original > 0 && 100 * fallback.value < 85 * original
  }

  /** The first attempt is skipped only for a probed bitrate and a fallback
      bitrate, and only when the fallback lies below the original; a fallback
      of at least 85% of the original, or any fallback for an original of 0,
      never skips. */
  lemma SkipOnlyBelowOriginal(fallback: Option<nat>, original: nat)
    ensures SkipToFallback(fallback, original) ==> fallback.Some? && fallback.value < original
    ensures original == 0 || fallback.None? ==> !SkipToFallback(fallback, original)
    ensures fallback.Some? && 100 * fallback.value >= 85 * original ==> !SkipToFallback(fallback, original)
  {
  }

  /** With the probe's duration, a video whose original bitrate does not
      exceed its fallback bitrate is never skipped to the fallback. */
  lemma NoSkipWithinBudget(metadata: Probe)
    requires FallbackBitrate(metadata.duration).Some?
    requires metadata.bitrate <= FallbackBitrate(metadata.duration).value
    ensures !SkipToFallback(FallbackBitrate(metadata.duration), metadata.bitrate)
  {
  }

  /* ---------------------------- conversion ---------------------------- */

  /** How the two conversion attempts went: which ran, in order (`None` for
      the unadjusted one, the bitrate for the adjusted one), whether the
      output exists, and whether the bitrate was reduced. */
  predicate ConversionOutcome(attempts: seq<Option<nat>>, converted: bool, bitrateReduced: bool,
                              skip: bool, fallback: Option<nat>, unadjustedOk: bool, adjustedOk: bool)
  {
    var adjusted := fallback.Some? && (skip || !unadjustedOk);
    && attempts == (if skip then [] else [None]) + (if adjusted then [fallback] else [])
    && (bitrateReduced <==> adjusted && adjustedOk)
    && (converted <==> (!skip && unadjustedOk) || bitrateReduced)
  }

  /** The two-attempt conversion: the unadjusted attempt unless skipped,
      then the adjusted attempt when that did not succeed and a fallback
      bitrate exists. The answers of the two converter runs are inputs. */
  method ConvertWithFallback(skip: bool, fallback: Option<nat>, unadjustedOk: bool, adjustedOk: bool)
    returns (attempts: seq<Option<nat>>, converted: bool, bitrateReduced: bool)
    ensures ConversionOutcome(attempts, converted, bitrateReduced, skip, fallback, unadjustedOk, adjustedOk)
    ensures |attempts| <= 2
    ensures None in attempts <==> !skip
    ensures bitrateReduced ==> fallback.Some? && attempts[|attempts| - 1] == fallback
  {
    attempts := [];
    bitrateReduced := false;
    var exitSuccess := false;
    if !skip {
      attempts := attempts + [None];
      exitSuccess := unadjustedOk;
    }
    if exitSuccess {
    } else if !exitSuccess && fallback.Some? {
      attempts := attempts + [fallback];
      if adjustedOk {
        bitrateReduced := true;
      }
    }
    converted := exitSuccess || bitrateReduced;
  }

  /** A video that could not be probed has the default, all-zero metadata: no
      fallback bitrate, no skipping, one unadjusted attempt only. */
  lemma UnprobedVideoSingleAttempt(attempts: seq<Option<nat>>, converted: bool, reduced: bool, unadjustedOk: bool, adjustedOk: bool)
    requires ConversionOutcome(attempts, converted, reduced, SkipToFallback(FallbackBitrate(DefaultProbe().duration), DefaultProbe().bitrate),
                               FallbackBitrate(DefaultProbe().duration), unadjustedOk, adjustedOk)
    ensures attempts == [None] && !reduced && (converted <==> unadjustedOk)
  {
  }

  /* ---------------------------- the handler ---------------------------- */

  /** What the handler needs to know of an incoming update: the chat kind,
      whether it was forwarded, and the links found in its text. */
  datatype Update = Update(isPrivate: bool, forwarded: bool, links: seq<Link>)

  /** What the external steps answer: the download's exit status, the files
      it left, the size of the file, the probe, and the two converter runs. */
  datatype HandlerIo = HandlerIo(downloadOk: bool, files: nat, bytes: nat, probe: Option<Probe>,
                                 unadjustedOk: bool, adjustedOk: bool)

  /** Where the handler stopped. */
  datatype Stop = NoUsableUrl | ForwardedToGroup | WrongFileCount | ExtractorFailed | TooLarge
                | ConvertFailed | Converted(bitrateReduced: bool)

  /** A message the handler sends in the chat besides the video: a text, or
      the warning that the bitrate was reduced, from the original to the
      fallback bitrate (kbps); the warning's percentage is not modelled. */
  datatype Reply = Says(text: string) | BitrateWarning(originalKbps: nat, reducedKbps: nat)

  /** The stop, the messages sent in the chat, and the conversion
      attempts made. */
  datatype HandlerOutcome = HandlerOutcome(stop: Stop, replies: seq<Reply>, attempts: seq<Option<nat>>)

  /** A chosen URL, and not a forward into a group: the update is handled. */
  predicate Proceeds(update: Update, info: LegacyUtils.UrlInfo) {
    info.maybeUrl.Some? && !(update.forwarded && !update.isPrivate)
  }

  /** Whether the downloaded file passes the checks, in the order the handler
      makes them: exactly one file, then the extractor's status, then the size. */
  predicate FileAccepted(io: HandlerIo, maxFilesize: nat) {
    io.files == 1 && io.downloadOk && MegaBytes(io.bytes) <= maxFilesize
  }

  /** `handler` for one update, given the count it reads (this update
      included). Replies go to private chats only. */
  method Handler(update: Update, count: nat, whitelist: seq<string>, maintainer: string, maxFilesize: nat, io: HandlerIo)
    returns (outcome: HandlerOutcome)
    ensures !update.isPrivate ==> outcome.replies == []
    ensures outcome.attempts != [] ==> Proceeds(update, LegacyUtils.GetUrlInfo(update.links, whitelist)) && FileAccepted(io, maxFilesize)
    ensures var info := LegacyUtils.GetUrlInfo(update.links, whitelist);
      info.maybeUrl.None? ==>
        (outcome.stop == NoUsableUrl && (update.isPrivate ==> outcome.replies == [Says(UrlFailureReply(info, whitelist, maintainer))]))
    ensures var info := LegacyUtils.GetUrlInfo(update.links, whitelist);
      outcome.stop == ForwardedToGroup <==> info.maybeUrl.Some? && update.forwarded && !update.isPrivate
    ensures var info := LegacyUtils.GetUrlInfo(update.links, whitelist);
      Proceeds(update, info) && update.isPrivate ==> 1 <= |outcome.replies| && outcome.replies[0] == Says(PositionMessage(count))
    ensures var info := LegacyUtils.GetUrlInfo(update.links, whitelist);
      Proceeds(update, info) && io.files != 1 ==>
        (outcome.stop == WrongFileCount && (update.isPrivate ==> outcome.replies == [Says(PositionMessage(count)), Says(FileCountMessage(io.files))]))
    ensures var info := LegacyUtils.GetUrlInfo(update.links, whitelist);
      Proceeds(update, info) && io.files == 1 && !io.downloadOk ==>
        (outcome.stop == ExtractorFailed && (update.isPrivate ==> outcome.replies == [Says(PositionMessage(count)), Says(EXTRACTOR_FAILED)]))
    ensures var info := LegacyUtils.GetUrlInfo(update.links, whitelist);
      Proceeds(update, info) && io.files == 1 && io.downloadOk && MegaBytes(io.bytes) > maxFilesize ==>
        outcome.stop == TooLarge && (update.isPrivate ==> outcome.replies == [Says(PositionMessage(count)), Says(SizeMessage(maxFilesize))])
    ensures var info := LegacyUtils.GetUrlInfo(update.links, whitelist);
      var metadata := io.probe.GetOr(DefaultProbe());
      var fallback := FallbackBitrate(metadata.duration);
      Proceeds(update, info) && FileAccepted(io, maxFilesize) ==>
        (outcome.stop == ConvertFailed || outcome.stop.Converted?)
        && ConversionOutcome(outcome.attempts, outcome.stop.Converted?, outcome.stop.Converted? && outcome.stop.bitrateReduced,
                             SkipToFallback(fallback, metadata.bitrate), fallback, io.unadjustedOk, io.adjustedOk)
        && (update.isPrivate ==>
              outcome.replies == [Says(PositionMessage(count))]
                + (if outcome.stop == ConvertFailed then [Says(CONVERT_FAILED)]
                   else if outcome.stop.bitrateReduced then [BitrateWarning(metadata.bitrate, fallback.value)]
                   else []))
  {
    var replies: seq<Reply> := [];
    var info := LegacyUtils.GetUrlInfo(update.links, whitelist);
    if info.maybeUrl.None? {
      if update.isPrivate {
        replies := replies + [Says(UrlFailureReply(info, whitelist, maintainer))];
      }
      return HandlerOutcome(NoUsableUrl, replies, []);
    }
    if update.forwarded && !update.isPrivate {
      return HandlerOutcome(ForwardedToGroup, replies, []);
    }
    if update.isPrivate {
      replies := replies + [Says(PositionMessage(count))];
    }
    if io.files != 1 {
      if update.isPrivate {
        replies := replies + [Says(FileCountMessage(io.files))];
      }
      return HandlerOutcome(WrongFileCount, replies, []);
    }
    if !io.downloadOk {
      if update.isPrivate {
        replies := replies + [Says(EXTRACTOR_FAILED)];
      }
      return HandlerOutcome(ExtractorFailed, replies, []);
    }
    if MegaBytes(io.bytes) > maxFilesize {
      if update.isPrivate {
        replies := replies + [Says(SizeMessage(maxFilesize))];
      }
      return HandlerOutcome(TooLarge, replies, []);
    }
    var metadata := io.probe.GetOr(DefaultProbe());
    var fallback := FallbackBitrate(metadata.duration);
    var skip := SkipToFallback(fallback, metadata.bitrate);
    var attempts, converted, bitrateReduced := ConvertWithFallback(skip, fallback, io.unadjustedOk, io.adjustedOk);
    if !converted {
      if update.isPrivate {
        replies := replies + [Says(CONVERT_FAILED)];
      }
      return HandlerOutcome(ConvertFailed, replies, attempts);
    }
    if update.isPrivate && bitrateReduced {
      replies := replies + [BitrateWarning(metadata.bitrate, fallback.value)];
    }
    outcome := HandlerOutcome(Converted(bitrateReduced), replies, attempts);
  }

  /** One update through the dispatcher: the counter goes up, the handler
      runs and reads it, and the counter comes down again. */
  method Dispatch(counter: Counter, update: Update, whitelist: seq<string>, maintainer: string, maxFilesize: nat, io: HandlerIo)
    returns (outcome: HandlerOutcome)
    requires counter.count + 1 < U32_LIMIT
    modifies counter
    ensures counter.count == old(counter.count)
    ensures Proceeds(update, LegacyUtils.GetUrlInfo(update.links, whitelist)) && update.isPrivate ==>
      1 <= |outcome.replies| && outcome.replies[0] == Says(PositionMessage(old(counter.count) + 1))
  {
    counter.ChangeCountBy(1);
    var count := counter.count;
    outcome := Handler(update, count, whitelist, maintainer, maxFilesize, io);
    counter.ChangeCountBy(-1);
  }

  /** Updates handled one after another on a fresh counter always find the
      queue empty. */
  method SequentialUpdatesSeeEmptyQueue(update: Update, whitelist: seq<string>, maintainer: string, maxFilesize: nat, a: HandlerIo, b: HandlerIo)
    returns (first: HandlerOutcome, second: HandlerOutcome)
    ensures Proceeds(update, LegacyUtils.GetUrlInfo(update.links, whitelist)) && update.isPrivate ==>
      1 <= |first.replies| && first.replies[0] == Says(EMPTY_QUEUE) && 1 <= |second.replies| && second.replies[0] == Says(EMPTY_QUEUE)
  {
    var counter := new Counter();
    first := Dispatch(counter, update, whitelist, maintainer, maxFilesize, a);
    second := Dispatch(counter, update, whitelist, maintainer, maxFilesize, b);
  }
}
