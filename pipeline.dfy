/** The per-task pipeline of the current revision's worker: download, check
    the file count and size, probe, decide the target bitrate, convert and
    pick a thumbnail. Every external step (temporary directory, extractor,
    directory listing, prober, converter, thumbnail extractor, random file
    name) is an input, so the pipeline is a function of the task, those
    answers and the configured size limit.

    The bitrate arithmetic is exact: the source computes it in `f64` and
    truncates, which this model idealises as rational arithmetic with floor. */
module Pipeline {
  import opened Base
  import opened Text
  import opened Probing
  import opened Tasks
  import Env

  /** Telegram's upload limit, in megabytes. */
  const API_LIMIT_MB: nat := 50
  /** The same limit in kilobits: megabytes times 8000. */
  const BUDGET_KBIT: nat := API_LIMIT_MB * 8000
  /** Bitrate reserved for the audio track, in kbps. */
  const AUDIO_KBPS: nat := 128

  /** Answers of the external steps for one task, in the order they are asked. */
  datatype TaskIo = TaskIo(
    tempDir: Option<string>,   // path of a fresh temporary directory; None when it cannot be created
    download: Outcome,         // the extractor run
    listing: Option<nat>,      // readable entries in the directory; None when it cannot be read
    bytes: nat,                // size of the single downloaded file
    probe: Option<Probe>,      // None when probing finds no video stream
    outputName: string,        // random ten-character stem plus ".mp4"
    convert: Outcome,          // the converter run
    thumbnail: Option<string>) // best-effort thumbnail file

  /** Where the pipeline stops before the converter runs, or what it asks the
      converter for: the source probe and the bitrate argument, and whether
      that argument counts as a reduction. */
  datatype Decision =
    | Abort(reason: string)
    | Transcode(dir: string, metadata: Probe, target: Option<nat>, reduced: bool)

  function SizeError(limit: nat): string {
    "base file size exceeded " + Decimal(limit) + " MB"
  }

  /** The size re-check. In fallback mode the fallback limit is tested first,
      but only to choose the error text: the normal limit still applies. */
  function SizeCheck(megabytes: nat, enableFallback: bool, maxMb: nat): (error: Option<string>)
    ensures error.None? <==> megabytes <= maxMb
  {
    if enableFallback && megabytes > Env.FallbackFilesize(maxMb) then Some(SizeError(Env.FallbackFilesize(maxMb)))
    else if megabytes > maxMb then Some(SizeError(maxMb))
    else None
  }

  /** The highest video bitrate (kbps) that fits the upload limit over
      `duration` seconds: (400000 / duration - 128) * 0.97, rounded down,
      and 0 when that is negative. None when the duration is unknown (0). */
  function MaxBitrate(duration: nat): (r: Option<nat>)
    ensures r.None? <==> duration == 0
    ensures r.Some? && BUDGET_KBIT <= AUDIO_KBPS * duration ==> r.value == 0
    ensures r.Some? && AUDIO_KBPS * duration < BUDGET_KBIT ==>
      100 * duration * r.value <= 97 * (BUDGET_KBIT - AUDIO_KBPS * duration) < 100 * duration * (r.value + 1)
  {
    if duration == 0 then None
    else if BUDGET_KBIT <= AUDIO_KBPS * duration then Some(0)
    else Some(97 * (BUDGET_KBIT - AUDIO_KBPS * duration) / (100 * duration))
  }

  /** 85 % of the original bitrate, rounded down. */
  function Cutoff(original: nat): (c: nat)
    ensures 100 * c <= 85 * original < 100 * (c + 1)
  {
    85 * original / 100
  }

  /** The quality gate: a computed cap below 85 % of the original is refused
      unless the caller asked for fallback. */
  predicate BitrateTooLow(maxBitrate: Option<nat>, original: nat, enableFallback: bool) {
    maxBitrate.Some? && maxBitrate.value < Cutoff(original) && !enableFallback
  }

  /** The converter's bitrate argument and whether it counts as reduced: the
      original bitrate when it is below the cap, otherwise the cap itself. */
  function Target(original: nat, maxBitrate: Option<nat>): (t: (Option<nat>, bool))
    ensures t.1 <==> maxBitrate.GetOr(0) <= original
    ensures !t.1 ==> t.0 == Some(original)
    ensures t.1 ==> t.0 == maxBitrate
  {
    if original < maxBitrate.GetOr(0) then (Some(original), false) else (maxBitrate, true)
  }

  /** Every stage of `handle_task_internal` before the converter runs. */
  function Decide(task: Task, io: TaskIo, maxMb: nat): Decision {
    if io.tempDir.None? then Abort("could not create temp dir")
    else if io.download.Fail? then Abort(io.download.error)
    else if io.listing.None? then Abort("could not read tempdir contents")
    else if io.listing.value != 1 then Abort(Decimal(io.listing.value) + " files found, expected 1")
    else
      var sizeError := SizeCheck(MegaBytes(io.bytes), task.enableFallback, maxMb);
      if sizeError.Some? then Abort(sizeError.value)
      else
        var metadata := io.probe.GetOr(DefaultProbe());
        var maxBitrate := MaxBitrate(metadata.duration);
        if BitrateTooLow(maxBitrate, metadata.bitrate, task.enableFallback) then Abort("API-adjusted bitrate is too low")
        else
          var t := Target(metadata.bitrate, maxBitrate);
          Transcode(io.tempDir.value, metadata, t.0, t.1)
  }

  /** `handle_task_internal`: the decision, then the converter and the thumbnail. */
  function HandleTaskInternal(task: Task, io: TaskIo, maxMb: nat): (r: TaskResult)
    ensures Decide(task, io, maxMb).Abort? ==> r == Err(Decide(task, io, maxMb).reason)
    ensures r.Ok? <==> Decide(task, io, maxMb).Transcode? && io.convert.Pass?
    ensures Decide(task, io, maxMb).Transcode? && io.convert.Fail? ==> r == Err(io.convert.error)
    ensures r.Ok? ==>
      (r.output.metadata == Decide(task, io, maxMb).metadata
       && r.output.dir == Decide(task, io, maxMb).dir && r.output.maybeThumbnail == io.thumbnail)
  {
    match Decide(task, io, maxMb)
    case Abort(reason) => Err(reason)
    case Transcode(dir, metadata, target, reduced) =>
      if io.convert.Fail? then Err(io.convert.error)
      else Ok(TaskOutput(dir, dir + "/" + io.outputName, io.thumbnail, metadata, if reduced then target else None))
  }

  /** The steps before the file checks all succeeded. */
  predicate Fetched(io: TaskIo) {
    io.tempDir.Some? && io.download.Pass? && io.listing.Some?
  }

  /** Anything but exactly one file fails the task, naming the count, and the
      converter is never asked. */
  lemma WrongFileCountFails(task: Task, io: TaskIo, maxMb: nat)
    requires Fetched(io) && io.listing.value != 1
    ensures Decide(task, io, maxMb) == Abort(Decimal(io.listing.value) + " files found, expected 1")
    ensures HandleTaskInternal(task, io, maxMb).Err?
  {
  }

  /** A task only reaches the converter with exactly one downloaded file of at
      most the normal limit in decimal megabytes. */
  lemma TranscodeOnlyWithinLimits(task: Task, io: TaskIo, maxMb: nat)
    requires Decide(task, io, maxMb).Transcode?
    ensures Fetched(io) && io.listing == Some(1)
    ensures io.bytes < (maxMb + 1) * 1000000
  {
    var mb := MegaBytes(io.bytes);
    assert mb <= maxMb;
    assert (mb + 1) * 1000000 <= (maxMb + 1) * 1000000;
  }

  /** An oversized single file fails with the size message; the fallback
      limit only picks the message, when it too is exceeded. */
  lemma OversizeFails(task: Task, io: TaskIo, maxMb: nat)
    requires Fetched(io) && io.listing == Some(1)
    requires MegaBytes(io.bytes) > maxMb
    ensures task.enableFallback && MegaBytes(io.bytes) > 5 * maxMb ==>
      Decide(task, io, maxMb) == Abort(SizeError(5 * maxMb))
    ensures !(task.enableFallback && MegaBytes(io.bytes) > 5 * maxMb) ==>
      Decide(task, io, maxMb) == Abort(SizeError(maxMb))
  {
  }

  /** Fallback mode does not raise the size limit: a file between the normal
      and the fallback limit is still refused with the normal limit. */
  lemma FallbackStillCappedAtMax(task: Task, io: TaskIo, maxMb: nat)
    requires Fetched(io) && io.listing == Some(1) && task.enableFallback
    requires maxMb < MegaBytes(io.bytes) <= Env.FallbackFilesize(maxMb)
    ensures Decide(task, io, maxMb) == Abort(SizeError(maxMb))
  {
  }

  /** The file checks passed; the bitrate stages decide from here. */
  predicate PassedFileChecks(task: Task, io: TaskIo, maxMb: nat) {
    Fetched(io) && io.listing == Some(1) && MegaBytes(io.bytes) <= maxMb
  }

  /** The quality gate rejects exactly when a cap exists, it is below 85 % of
      the original bitrate, and fallback is off. */
  lemma QualityGate(task: Task, io: TaskIo, maxMb: nat)
    requires PassedFileChecks(task, io, maxMb)
    ensures var p := io.probe.GetOr(DefaultProbe());
      Decide(task, io, maxMb) == Abort("API-adjusted bitrate is too low")
      <==> p.duration != 0 && MaxBitrate(p.duration).value < Cutoff(p.bitrate) && !task.enableFallback
  {
    var p := io.probe.GetOr(DefaultProbe());
    assert SizeCheck(MegaBytes(io.bytes), task.enableFallback, maxMb).None?;
  }

  /** An unknown (zero) original bitrate never trips the quality gate. */
  lemma ZeroBitrateNeverRejected(maxBitrate: Option<nat>, enableFallback: bool)
    ensures !BitrateTooLow(maxBitrate, 0, enableFallback)
  {
  }

  /** Without a usable probe there is no cap: the converter gets no bitrate
      argument and no reduction is reported. */
  lemma UnprobedFileIsNotCapped(task: Task, io: TaskIo, maxMb: nat)
    requires PassedFileChecks(task, io, maxMb) && io.probe.None?
    ensures Decide(task, io, maxMb) == Transcode(io.tempDir.value, DefaultProbe(), None, true)
    ensures io.convert.Pass? ==> HandleTaskInternal(task, io, maxMb).output.reducedBitrate.None?
  {
  }

  /** What a successful task reports as its reduced bitrate: nothing when the
      original was below the cap, otherwise the cap (nothing when the
      duration is unknown). */
  lemma ReportedReduction(task: Task, io: TaskIo, maxMb: nat)
    requires HandleTaskInternal(task, io, maxMb).Ok?
    ensures var out := HandleTaskInternal(task, io, maxMb).output;
      var p := io.probe.GetOr(DefaultProbe());
      out.metadata == p &&
      out.reducedBitrate == (if p.bitrate < MaxBitrate(p.duration).GetOr(0) then None else MaxBitrate(p.duration))
  {
  }

  /** A reported reduction never raises the bitrate, never exceeds the cap
      and, unless fallback was requested, keeps at least 85 % of the original. */
  lemma ReductionIsBounded(task: Task, io: TaskIo, maxMb: nat)
    requires HandleTaskInternal(task, io, maxMb).Ok?
    requires HandleTaskInternal(task, io, maxMb).output.reducedBitrate.Some?
    ensures var out := HandleTaskInternal(task, io, maxMb).output;
      var r := out.reducedBitrate.value;
      r <= out.metadata.bitrate &&
      MaxBitrate(out.metadata.duration) == Some(r) &&
      (!task.enableFallback ==> 100 * r >= 85 * out.metadata.bitrate - 99)
  {
    var out := HandleTaskInternal(task, io, maxMb).output;
    var p := io.probe.GetOr(DefaultProbe());
    ReportedReduction(task, io, maxMb);
    assert SizeCheck(MegaBytes(io.bytes), task.enableFallback, maxMb).None?;
    var r := out.reducedBitrate.value;
    if !task.enableFallback {
      assert !BitrateTooLow(MaxBitrate(p.duration), p.bitrate, false);
      assert r >= Cutoff(p.bitrate);
    }
  }

  /** A positive cap, together with the reserved audio bitrate, fits Telegram's
      50 MB over the whole clip. */
  lemma MaxBitrateFitsBudget(duration: nat)
    requires MaxBitrate(duration).Some? && MaxBitrate(duration).value > 0
    ensures (MaxBitrate(duration).value + AUDIO_KBPS) * duration <= BUDGET_KBIT
  {
    var m := MaxBitrate(duration).value;
    var room := BUDGET_KBIT - AUDIO_KBPS * duration;
    assert 100 * duration * m <= 97 * room;
    assert 100 * (duration * m) <= 100 * room;
    assert duration * m <= room;
  }

  /** Longer clips never get a higher cap. */
  lemma MaxBitrateAntitone(d1: nat, d2: nat)
    requires 0 < d1 <= d2
    ensures MaxBitrate(d2).value <= MaxBitrate(d1).value
  {
    if AUDIO_KBPS * d2 < BUDGET_KBIT {
      var m1, m2 := MaxBitrate(d1).value, MaxBitrate(d2).value;
      var r1, r2 := BUDGET_KBIT - AUDIO_KBPS * d1, BUDGET_KBIT - AUDIO_KBPS * d2;
      // 100 * d1 * m2 <= 100 * d2 * m2 <= 97 * r2 <= 97 * r1 < 100 * d1 * (m1 + 1)
      assert 100 * d2 * m2 <= 97 * r2;
      assert 97 * r1 < 100 * d1 * (m1 + 1);
      MulMono(100 * m2, d1, d2);
      if m1 < m2 {
        MulMono(100 * d1, m1 + 1, m2);
        assert false;
      }
    }
  }

  lemma MulMono(a: nat, b: nat, c: nat)
    requires b <= c
    ensures a * b <= a * c
  {
  }

  /** A one-minute clip at 1000 kbps: the cap is 6342 kbps, so the original
      quality is kept. */
  lemma OneMinuteExample()
    ensures MaxBitrate(60) == Some(6342)
    ensures Target(1000, Some(6342)) == (Some(1000), false)
  {
  }

  /** A ten-minute clip at 1000 kbps: the cap is 522 kbps, below the cutoff of
      850, so it is refused without fallback and capped at 522 with it. */
  lemma TenMinuteExample()
    ensures MaxBitrate(600) == Some(522) && Cutoff(1000) == 850
    ensures BitrateTooLow(Some(522), 1000, false) && !BitrateTooLow(Some(522), 1000, true)
    ensures Target(1000, Some(522)) == (Some(522), true)
  {
  }
}
