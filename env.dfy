/** Configuration read from environment variables by the current revision.
    Each variable is an input: `Some(text)` when it is set and readable as
    Unicode, `None` otherwise. */
module Env {
  import opened Base
  import opened Text

  /** `ALLOWLIST`: the comma-separated fields, trimmed, with blank fields
      dropped; an unset variable gives the empty set. */
  function Allowlist(variable: Option<string>): (sites: set<string>)
    ensures variable.None? ==> sites == {}
    ensures forall x :: x in sites ==> x != [] && !IsWhitespace(x[0]) && !IsWhitespace(x[|x| - 1])
    ensures forall f :: f in Split(variable.GetOr(""), ',') && !Blank(f) ==> Trim(f) in sites
    ensures forall x :: x in sites ==> exists f :: f in Split(variable.GetOr(""), ',') && Trim(f) == x
  {
    var fields := Split(variable.GetOr(""), ',');
    var kept := TrimmedFields(fields);
    TrimmedFieldsClean(fields);
    set x | x in kept
  }

  /** `MAINTAINER`: the handle with an `@` in front, when the variable is set. */
  function Maintainer(variable: Option<string>): (handle: Option<string>)
    ensures handle.Some? <==> variable.Some?
    ensures handle.Some? ==> |handle.value| == |variable.value| + 1 && handle.value[0] == '@'
    ensures handle.Some? ==> handle.value[1..] == variable.value
  {
    match variable
    case None => None
    case Some(s) => Some("@" + s)
  }

  const UNWRAP_NONE := "called `Option::unwrap()` on a `None` value"

  /** `MAX_FILESIZE` in megabytes: the parsed `u64`, or 200 when the text
      does not parse; reading it panics when the variable is unset. */
  function MaxFilesize(variable: Option<string>): (limit: Loaded<nat>)
    ensures limit.Panics? <==> variable.None?
    ensures limit.Loaded? ==> limit.value < U64_LIMIT
    ensures limit.Loaded? ==> (ParseU64(variable.value) == Some(limit.value) || (ParseU64(variable.value).None? && limit.value == 200))
  {
    match variable
    case None => Panics(UNWRAP_NONE)
    case Some(s) => Loaded(ParseU64(s).GetOr(200))
  }

  /** `FALLBACK_FILESIZE`: five times the normal limit. */
  function FallbackFilesize(maxFilesize: nat): (limit: nat)
    ensures maxFilesize <= limit
    ensures maxFilesize > 0 ==> maxFilesize < limit
  {
    maxFilesize * 5
  }

  /** A limit written in decimal is read back as that limit. */
  lemma MaxFilesizeOfDecimal(n: nat)
    requires n < U64_LIMIT
    ensures MaxFilesize(Some(Decimal(n))) == Loaded(n)
  {
    ParseDecimal(n);
  }
}
