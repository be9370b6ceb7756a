/** URL selection of the older revision: the `WHITELIST` static and
    `get_url_info`, which counts the links of a message, keys each host by its
    last two labels and picks the link only when exactly one key is allowed. */
module LegacyUtils {
  import opened Base
  import opened Text
  import opened Links

  const WHITELIST_UNSET := "WHITELIST environment variable not set: NotPresent"

  /** `WHITELIST`: panics with its `expect` message when the variable is
      unset, and otherwise holds the trimmed non-blank fields. */
  function Whitelist(variable: Option<string>): (sites: Loaded<seq<string>>)
    ensures sites.Panics? <==> variable.None?
    ensures sites.Panics? ==> sites.message == WHITELIST_UNSET
    ensures sites.Loaded? ==> sites.value == TrimmedFields(Split(variable.value, ','))
  {
    match variable
    case None => Panics(WHITELIST_UNSET)
    case Some(v) => Loaded(TrimmedFields(Split(v, ',')))
  }

  /** Every non-blank field of `WHITELIST` is an allowed site, trimmed, and
      no allowed site is blank or padded. */
  lemma WhitelistFields(v: string, i: nat)
    requires i < |Split(v, ',')| && !Blank(Split(v, ',')[i])
    ensures Trim(Split(v, ',')[i]) in Whitelist(Some(v)).value
    ensures "" !in Whitelist(Some(v)).value
  {
    TrimmedFieldsKeep(Split(v, ','), i);
  }

  /** The allowlist key of a host: its last two dot-separated labels, or the
      whole host when it has a single label. */
  function HostKey(host: string): string {
    var labels := Split(host, '.');
    if |labels| <= 2 then host else Join(labels[|labels| - 2..], '.')
  }

  /** The key is a suffix of the host with at most one dot: the host itself
      when it has at most two labels, and otherwise the text after its
      second-to-last dot. */
  lemma HostKeySuffix(host: string)
    ensures |HostKey(host)| <= |host| && HostKey(host) == host[|host| - |HostKey(host)|..]
    ensures |Split(host, '.')| <= 2 ==> HostKey(host) == host
    ensures |Split(host, '.')| > 2 ==> HostKey(host) == Join(Split(host, '.')[|Split(host, '.')| - 2..], '.')
  {
    var labels := Split(host, '.');
    if |labels| > 2 {
      JoinSplit(host, '.');
      JoinAt(labels, '.', |labels| - 2);
    }
  }

  /** A host of three labels or more is keyed by its last two, as in
      `vm.tiktok.com` to `tiktok.com`. */
  lemma {:induction false} LastTwoLabels(sub: string, name: string, tld: string)
    requires '.' !in sub && '.' !in name && '.' !in tld
    ensures HostKey(sub + "." + name + "." + tld) == name + "." + tld
  {
    SplitPlain(tld, '.');
    SplitFirst(name, '.', tld);
    SplitFirst(sub, '.', name + "." + tld);
    assert sub + "." + name + "." + tld == sub + ['.'] + (name + ['.'] + tld);
    var labels := Split(sub + "." + name + "." + tld, '.');
    assert labels == [sub, name, tld];
    assert labels[|labels| - 2..] == [name, tld];
    assert Join([name, tld], '.') == name + ['.'] + Join([tld], '.');
    assert name + "." + tld == name + ['.'] + tld;
  }

  /** A host of at most two labels is its own key. */
  lemma {:induction false} TwoLabels(name: string, tld: string)
    requires '.' !in name && '.' !in tld
    ensures HostKey(name + "." + tld) == name + "." + tld
    ensures HostKey(tld) == tld
  {
    SplitPlain(tld, '.');
    SplitFirst(name, '.', tld);
    assert name + "." + tld == name + ['.'] + tld;
  }

  /** Whether a link takes part in the selection: it parsed with a host, and
      the host's key is allowed. */
  predicate Allowed(link: Link, whitelist: seq<string>) {
    link.host.Some? && HostKey(link.host.value) in whitelist
  }

  function CountAllowed(links: seq<Link>, whitelist: seq<string>): nat {
    if links == [] then 0
    else (if Allowed(links[0], whitelist) then 1 else 0) + CountAllowed(links[1..], whitelist)
  }

  /** The links' positions, counted from `from`, paired with their keys;
      links without a host are dropped. */
  function Keys(links: seq<Link>, from: nat): seq<(nat, string)> {
    if links == [] then []
    else
      (if links[0].host.Some? then [(from, HostKey(links[0].host.value))] else [])
      + Keys(links[1..], from + 1)
  }

  /** The keyed positions whose key is allowed. */
  function Permitted(keys: seq<(nat, string)>, whitelist: seq<string>): seq<(nat, string)> {
    if keys == [] then []
    else
      (if keys[0].1 in whitelist then [keys[0]] else []) + Permitted(keys[1..], whitelist)
  }

  /** The filter chain keeps as many positions as there are allowed links. */
  lemma {:induction false} PermittedCount(links: seq<Link>, from: nat, whitelist: seq<string>)
    ensures |Permitted(Keys(links, from), whitelist)| == CountAllowed(links, whitelist)
    decreases |links|
  {
    if links != [] {
      var head := if links[0].host.Some? then [(from, HostKey(links[0].host.value))] else [];
      PermittedAppend(head, Keys(links[1..], from + 1), whitelist);
      PermittedCount(links[1..], from + 1, whitelist);
    }
  }

  /** Each keyed position is that of a link with a host, paired with the
      host's key. */
  lemma {:induction false} KeysIndexed(links: seq<Link>, from: nat)
    ensures forall e :: e in Keys(links, from) ==>
      from <= e.0 < from + |links| && links[e.0 - from].host.Some? && e.1 == HostKey(links[e.0 - from].host.value)
    decreases |links|
  {
    if links != [] {
      KeysIndexed(links[1..], from + 1);
      forall e | e in Keys(links[1..], from + 1)
        ensures links[e.0 - from] == links[1..][e.0 - (from + 1)]
      {
      }
    }
  }

  /** The filter keeps only entries whose key is allowed. */
  lemma {:induction false} PermittedKept(keys: seq<(nat, string)>, whitelist: seq<string>)
    ensures forall e :: e in Permitted(keys, whitelist) ==> e in keys && e.1 in whitelist
    decreases |keys|
  {
    if keys != [] {
      PermittedKept(keys[1..], whitelist);
    }
  }

  lemma {:induction false} PermittedAppend(a: seq<(nat, string)>, b: seq<(nat, string)>, whitelist: seq<string>)
    ensures Permitted(a + b, whitelist) == Permitted(a, whitelist) + Permitted(b, whitelist)
    decreases |a|
  {
    if a == [] {
      assert a + b == b;
    } else {
      var head := if a[0].1 in whitelist then [a[0]] else [];
      assert (a + b)[1..] == a[1..] + b;
      assert Permitted(a + b, whitelist) == head + Permitted(a[1..] + b, whitelist);
      PermittedAppend(a[1..], b, whitelist);
      assert Permitted(a, whitelist) == head + Permitted(a[1..], whitelist);
    }
  }

  /** Two different allowed links make the count at least two. */
  lemma {:induction false} SecondAllowed(links: seq<Link>, whitelist: seq<string>, i: nat, j: nat)
    requires i < j < |links| && Allowed(links[i], whitelist) && Allowed(links[j], whitelist)
    ensures CountAllowed(links, whitelist) >= 2
    decreases |links|
  {
    if i > 0 {
      SecondAllowed(links[1..], whitelist, i - 1, j - 1);
    } else {
      CountsAllowed(links[1..], whitelist, j - 1);
    }
  }

  lemma {:induction false} CountsAllowed(links: seq<Link>, whitelist: seq<string>, j: nat)
    requires j < |links| && Allowed(links[j], whitelist)
    ensures CountAllowed(links, whitelist) >= 1
    decreases |links|
  {
    if j > 0 {
      CountsAllowed(links[1..], whitelist, j - 1);
    }
  }

  /** `URLInfo` */
  datatype UrlInfo = UrlInfo(maybeUrl: Option<string>, totalUrls: nat, whitelistedUrls: nat)

  /** `get_url_info` over the links the finder returned, each with the host
      its URL parsed to (`None` when it did not parse or has no host). */
  function GetUrlInfo(links: seq<Link>, whitelist: seq<string>): (info: UrlInfo)
    ensures info.totalUrls == |links|
    ensures info.whitelistedUrls == CountAllowed(links, whitelist)
    ensures info.maybeUrl.Some? <==> CountAllowed(links, whitelist) == 1
    ensures info.maybeUrl.Some? ==>
      exists i :: 0 <= i < |links| && Allowed(links[i], whitelist) && info.maybeUrl.value == links[i].text
  {
    PermittedCount(links, 0, whitelist);
    KeysIndexed(links, 0);
    PermittedKept(Keys(links, 0), whitelist);
    var permitted := Permitted(Keys(links, 0), whitelist);
    var chosen := if |permitted| == 1 then Some(links[permitted[0].0].text) else None;
    UrlInfo(chosen, |links|, |permitted|)
  }

  /** At most as many allowed links as links. */
  lemma {:induction false} AllowedAtMostTotal(links: seq<Link>, whitelist: seq<string>)
    ensures GetUrlInfo(links, whitelist).whitelistedUrls <= GetUrlInfo(links, whitelist).totalUrls
    decreases |links|
  {
    if links != [] {
      AllowedAtMostTotal(links[1..], whitelist);
    }
  }

  /** The chosen URL is the text of the one and only allowed link. */
  lemma ChosenIsTheAllowedLink(links: seq<Link>, whitelist: seq<string>, j: nat)
    requires j < |links| && Allowed(links[j], whitelist)
    ensures GetUrlInfo(links, whitelist).maybeUrl.Some? ==>
      GetUrlInfo(links, whitelist).maybeUrl.value == links[j].text
  {
    var info := GetUrlInfo(links, whitelist);
    if info.maybeUrl.Some? {
      var i :| 0 <= i < |links| && Allowed(links[i], whitelist) && info.maybeUrl.value == links[i].text;
      if i < j {
        SecondAllowed(links, whitelist, i, j);
      } else if j < i {
        SecondAllowed(links, whitelist, j, i);
      }
    }
  }
}
