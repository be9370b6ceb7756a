/** Link selection of the oldest revision: `find_link` accepts a message
    only when it holds exactly one link whose host, cut to its last two
    labels, is in a `WHITELIST` of raw comma-separated fields. */
module Ytdl {
  import opened Base
  import opened Text
  import opened Links
  import LegacyUtils

  const UNWRAP_NOT_PRESENT := "called `Result::unwrap()` on an `Err` value: NotPresent"

  /** This `WHITELIST`: the variable split at commas, fields kept verbatim
      (untrimmed, empty ones included); an unset variable panics. */
  function RawWhitelist(variable: Option<string>): (sites: Loaded<seq<string>>)
    ensures sites.Panics? <==> variable.None?
    ensures sites.Loaded? ==> 1 <= |sites.value| && Join(sites.value, ',') == variable.value
    ensures sites.Loaded? ==> forall i :: 0 <= i < |sites.value| ==> ',' !in sites.value[i]
  {
    match variable
    case None => Panics(UNWRAP_NOT_PRESENT)
    case Some(v) =>
      JoinSplit(v, ',');
      Loaded(Split(v, ','))
  }

  /** Fields are neither trimmed nor dropped: `a,b` gives `a` and `b` exactly
      as written, and a trailing comma leaves an empty field. */
  lemma {:induction false} RawFields(a: string, b: string)
    requires ',' !in a && ',' !in b
    ensures RawWhitelist(Some(a + "," + b)).value == [a, b]
    ensures RawWhitelist(Some(a + ",")).value == [a, ""]
  {
    SplitPlain(b, ',');
    SplitFirst(a, ',', b);
    assert a + "," + b == a + [','] + b;
    SplitPlain([], ',');
    SplitFirst(a, ',', []);
    assert a + "," == a + [','] + [];
  }

  /** What `find_link` does with a message: returns the one link, returns
      nothing, or panics on the label arithmetic. */
  datatype Search = Found(url: string) | NotFound | Panicked

  /** The last two labels of a host joined by a dot; a host with a single
      label makes the slice start `len() - 2` underflow, and the source
      panics. */
  function LastTwo(host: string): (key: Option<string>)
    ensures key.None? <==> |Split(host, '.')| < 2
    ensures key.Some? ==> key.value == LegacyUtils.HostKey(host)
  {
    var labels := Split(host, '.');
    if |labels| < 2 then None
    else
      LastTwoIsHostKey(host);
      Some(Join(labels[|labels| - 2..], '.'))
  }

  /** On hosts of two labels or more the cut agrees with the newer key. */
  lemma LastTwoIsHostKey(host: string)
    requires |Split(host, '.')| >= 2
    ensures Join(Split(host, '.')[|Split(host, '.')| - 2..], '.') == LegacyUtils.HostKey(host)
  {
    var labels := Split(host, '.');
    LegacyUtils.HostKeySuffix(host);
    if |labels| == 2 {
      JoinSplit(host, '.');
      assert labels[0..] == labels;
    }
  }

  /** `find_link` over the links the finder returned, each with the host its
      URL parsed to. */
  function FindLink(links: seq<Link>, whitelist: seq<string>): (r: Search)
    ensures r.Found? ==> |links| == 1 && r.url == links[0].text
    ensures r.Panicked? <==> |links| == 1 && links[0].host.Some? && |Split(links[0].host.value, '.')| < 2
    ensures |links| != 1 ==> r == NotFound
    ensures |links| == 1 && links[0].host.None? ==> r == NotFound
    ensures |links| == 1 && links[0].host.Some? && |Split(links[0].host.value, '.')| >= 2 ==>
      (r.Found? <==> LegacyUtils.HostKey(links[0].host.value) in whitelist)
  {
    if |links| != 1 then NotFound
    else match links[0].host
      case None => NotFound
      case Some(host) =>
        match LastTwo(host)
        case None => Panicked
        case Some(key) => if key in whitelist then Found(links[0].text) else NotFound
  }

  /** On a message with one link whose host has at least two labels, the
      later `get_url_info` selects the same URL as `find_link`. */
  lemma FindLinkAgreesWithUrlInfo(link: Link, whitelist: seq<string>)
    requires link.host.Some? && |Split(link.host.value, '.')| >= 2
    ensures FindLink([link], whitelist).Found? <==> LegacyUtils.GetUrlInfo([link], whitelist).maybeUrl.Some?
    ensures FindLink([link], whitelist).Found? ==>
      FindLink([link], whitelist).url == LegacyUtils.GetUrlInfo([link], whitelist).maybeUrl.value
  {
    var links := [link];
    assert links[1..] == [];
    assert LegacyUtils.CountAllowed(links, whitelist) == (if LegacyUtils.Allowed(link, whitelist) then 1 else 0);
    if LegacyUtils.Allowed(link, whitelist) {
      LegacyUtils.ChosenIsTheAllowedLink(links, whitelist, 0);
    }
  }
}
