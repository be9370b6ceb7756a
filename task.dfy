/** Request and result types passed between the chat front end and the worker. */
module Tasks {
  import opened Base
  import opened Text
  import opened Probing

  /** A download request. `replyTo` names the one-shot channel whose send
      half travels with the task: exactly one result is sent on it. */
  datatype Task = Task(url: string, enableFallback: bool, replyTo: nat)

  /** A processed task: the temporary directory that must outlive the upload,
      the converted video, an optional thumbnail, the probe of the downloaded
      file and, when the bitrate was capped, the capped bitrate. */
  datatype TaskOutput = TaskOutput(
    dir: string,
    videoFile: string,
    maybeThumbnail: Option<string>,
    metadata: Probe,
    reducedBitrate: Option<nat>)

  /** `Result<Box<TaskOutput>, String>`. */
  datatype TaskResult = Ok(output: TaskOutput) | Err(reason: string)

  /** `{:?}` of an `Option<u32>`. */
  function OptionDebug(o: Option<nat>): string {
    match o
    case None => "None"
    case Some(n) => "Some(" + Decimal(n) + ")"
  }

  /** `{:?}` of a `Probe` with derived `Debug`. */
  function ProbeDebug(p: Probe): string {
    "Probe { duration: " + (Decimal(p.duration) + (", bitrate: " + (Decimal(p.bitrate)
    + (", width: " + (Decimal(p.width) + (", height: " + (Decimal(p.height) + " }")))))))
  }

  /** The thumbnail field shows only whether a thumbnail exists, as the
      `&str` "Some(_)" or "None" in its quoted `{:?}` form. */
  function ThumbnailDebug(t: Option<string>): string {
    if t.Some? then "\"Some(_)\"" else "\"None\""
  }

  /** `format!("{o:?}")`: `debug_struct` with the thumbnail, metadata and
      reduced-bitrate fields, closed by `finish_non_exhaustive`. */
  function Debug(o: TaskOutput): string {
    "TaskOutput { maybe_thumbnail: " + (ThumbnailDebug(o.maybeThumbnail) + (", metadata: "
    + (ProbeDebug(o.metadata) + (", reduced_bitrate: " + (OptionDebug(o.reducedBitrate) + ", .. }")))))
  }

  /** Only whether a thumbnail exists reaches the debug text, never the
      thumbnail itself, the directory or the video file. */
  lemma DebugHidesHandles(a: TaskOutput, b: TaskOutput)
    requires a.metadata == b.metadata && a.reducedBitrate == b.reducedBitrate
    requires a.maybeThumbnail.Some? == b.maybeThumbnail.Some?
    ensures Debug(a) == Debug(b)
  {
  }

  /** The reduced-bitrate field is shown in full: different values never
      render alike. */
  lemma {:induction false} OptionDebugInjective(x: Option<nat>, y: Option<nat>)
    requires OptionDebug(x) == OptionDebug(y)
    ensures x == y
  {
    if x.Some? && y.Some? {
        var m, n := x.value, y.value;
        var sx, sy := OptionDebug(x), OptionDebug(y);
        assert |sx| == |sy|;
        assert Decimal(m) == sx[5..|sx| - 1];
        assert Decimal(n) == sy[5..|sy| - 1];
        DecimalInjective(m, n);
    }
  }

  /** One `name: value` step of a derived `Debug`: after a common prefix, a
      decimal followed by text that starts with a non-digit is read back
      unambiguously. */
  lemma FieldThen(k: string, m: nat, n: nat, ra: string, rb: string, x: string, y: string)
    requires (k + (Decimal(m) + ra)) + x == (k + (Decimal(n) + rb)) + y
    requires ra != [] && !IsDigit(ra[0]) && rb != [] && !IsDigit(rb[0])
    ensures m == n && ra + x == rb + y
  {
    assert (k + (Decimal(m) + ra)) + x == k + (Decimal(m) + (ra + x));
    assert (k + (Decimal(n) + rb)) + y == k + (Decimal(n) + (rb + y));
    Peel(k, Decimal(m) + (ra + x), Decimal(n) + (rb + y));
    DecimalThen(m, n, ra + x, rb + y);
  }

  /** The text of a probe, followed by anything, gives back the probe and
      what follows it. */
  lemma {:induction false} ProbeDebugThen(p: Probe, q: Probe, x: string, y: string)
    requires ProbeDebug(p) + x == ProbeDebug(q) + y
    ensures p == q && x == y
  {
    var ph := ", height: " + (Decimal(p.height) + " }");
    var qh := ", height: " + (Decimal(q.height) + " }");
    var pw := ", width: " + (Decimal(p.width) + ph);
    var qw := ", width: " + (Decimal(q.width) + qh);
    var pb := ", bitrate: " + (Decimal(p.bitrate) + pw);
    var qb := ", bitrate: " + (Decimal(q.bitrate) + qw);
    FieldThen("Probe { duration: ", p.duration, q.duration, pb, qb, x, y);
    FieldThen(", bitrate: ", p.bitrate, q.bitrate, pw, qw, x, y);
    FieldThen(", width: ", p.width, q.width, ph, qh, x, y);
    FieldThen(", height: ", p.height, q.height, " }", " }", x, y);
    Peel(" }", x, y);
  }

  /** The converse of `DebugHidesHandles`: the debug text determines the
      metadata, the reduced bitrate and whether a thumbnail exists, so all
      three are shown in full. */
  lemma {:induction false} DebugShowsFields(a: TaskOutput, b: TaskOutput)
    requires Debug(a) == Debug(b)
    ensures a.metadata == b.metadata && a.reducedBitrate == b.reducedBitrate
    ensures a.maybeThumbnail.Some? == b.maybeThumbnail.Some?
  {
    var ta, tb := ThumbnailDebug(a.maybeThumbnail), ThumbnailDebug(b.maybeThumbnail);
    var oa, ob := OptionDebug(a.reducedBitrate) + ", .. }", OptionDebug(b.reducedBitrate) + ", .. }";
    var ma, mb := ProbeDebug(a.metadata) + (", reduced_bitrate: " + oa), ProbeDebug(b.metadata) + (", reduced_bitrate: " + ob);
    Peel("TaskOutput { maybe_thumbnail: ", ta + (", metadata: " + ma), tb + (", metadata: " + mb));
    assert ta[1] == (ta + (", metadata: " + ma))[1];
    assert tb[1] == (tb + (", metadata: " + mb))[1];
    Peel(ta, ", metadata: " + ma, ", metadata: " + mb);
    Peel(", metadata: ", ma, mb);
    ProbeDebugThen(a.metadata, b.metadata, ", reduced_bitrate: " + oa, ", reduced_bitrate: " + ob);
    Peel(", reduced_bitrate: ", oa, ob);
    assert OptionDebug(a.reducedBitrate) == oa[..|oa| - 6];
    assert OptionDebug(b.reducedBitrate) == ob[..|ob| - 6];
    OptionDebugInjective(a.reducedBitrate, b.reducedBitrate);
  }
}
