/** Video metadata as the prober reports it. Both revisions of the bot use
    the same four `u32` fields, and an all-zero value as "unknown". */
module Probing {
  import opened Base

  datatype Probe = Probe(duration: U32, bitrate: U32, width: U32, height: U32)

  /** `Probe::default()`: the sentinel used when probing fails. */
  function DefaultProbe(): (p: Probe)
    ensures p.duration == 0 && p.bitrate == 0 && p.width == 0 && p.height == 0
  {
    Probe(0, 0, 0, 0)
  }
}

/** What the link finder (`linkify`) and `Url::parse` report about one link
    in a message: its text, and the host of the URL when the text parses
    as a URL that has one. */
module Links {
  import opened Base

  datatype Link = Link(text: string, host: Option<string>)
}
