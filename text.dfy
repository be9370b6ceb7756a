/** The string operations of Rust's standard library that the bot relies on:
    decimal formatting and parsing of unsigned integers, `split`, `join`,
    `trim` and `replace`, written out over `seq<char>`. */
module Text {
  import opened Base

  predicate IsDigit(c: char) {
    '0' <= c <= '9'
  }

  predicate AllDigits(s: string) {
    forall i :: 0 <= i < |s| ==> IsDigit(s[i])
  }

  function DigitChar(d: nat): (c: char)
    requires d < 10
    ensures IsDigit(c) && c as int - '0' as int == d
  {
    (d + '0' as int) as char
  }

  function DigitValue(c: char): nat
    requires IsDigit(c)
  {
    c as int - '0' as int
  }

  /** The text `format!("{n}")` produces for an unsigned integer: decimal
      digits, most significant first, without leading zeros. */
  function Decimal(n: nat): (s: string)
    ensures 1 <= |s| && AllDigits(s)
    ensures n == 0 ==> s == "0"
    ensures n > 0 ==> s[0] != '0'
    decreases n
  {
    if n < 10 then [DigitChar(n)] else Decimal(n / 10) + [DigitChar(n % 10)]
  }

  /** The number a run of decimal digits denotes. */
  function DigitsValue(s: string): nat
    requires AllDigits(s)
  {
    if s == [] then 0 else DigitsValue(s[..|s| - 1]) * 10 + DigitValue(s[|s| - 1])
  }

  lemma {:induction false} DecimalValue(n: nat)
    ensures DigitsValue(Decimal(n)) == n
    decreases n
  {
    if n >= 10 {
      DecimalValue(n / 10);
      var s := Decimal(n);
      assert s[..|s| - 1] == Decimal(n / 10);
    }
  }

  /** Decimal texts of distinct numbers are distinct. */
  lemma DecimalInjective(m: nat, n: nat)
    requires Decimal(m) == Decimal(n)
    ensures m == n
  {
    DecimalValue(m);
    DecimalValue(n);
  }

  /** `str::parse::<u64>`: an optional leading `+`, then one or more ASCII
      digits, denoting a value that fits in 64 bits; anything else is an error. */
  function ParseU64(s: string): (r: Option<nat>)
    ensures r.Some? ==> r.value < U64_LIMIT
    ensures r.Some? ==> exists k :: 0 <= k <= 1 && k <= |s| && AllDigits(s[k..]) && r.value == DigitsValue(s[k..])
  {
    var k := if 0 < |s| && s[0] == '+' then 1 else 0;
    var digits := s[k..];
    if digits == [] || !AllDigits(digits) then None
    else if DigitsValue(digits) < U64_LIMIT then Some(DigitsValue(digits))
    else None
  }

  /** Parsing the decimal text of any `u64` gives the number back. */
  lemma ParseDecimal(n: nat)
    requires n < U64_LIMIT
    ensures ParseU64(Decimal(n)) == Some(n)
  {
    DecimalValue(n);
    var s := Decimal(n);
    assert s[0] != '+';
    assert s[0..] == s;
  }

  /** `str::split(sep)` with a single-character separator: the pieces between
      separators, in order; an empty input gives one empty piece. */
  function Split(s: string, sep: char): (fields: seq<string>)
    ensures 1 <= |fields|
    ensures forall i :: 0 <= i < |fields| ==> sep !in fields[i]
  {
    if s == [] then [[]]
    else
      var rest := Split(s[1..], sep);
      if s[0] == sep then [[]] + rest
      else [[s[0]] + rest[0]] + rest[1..]
  }

  /** `[..].join(sep)` for a non-empty list of pieces and a one-character separator. */
  function Join(parts: seq<string>, sep: char): string
    requires 1 <= |parts|
  {
    if |parts| == 1 then parts[0] else parts[0] + [sep] + Join(parts[1..], sep)
  }

  /** Joining the pieces of a split with the same separator gives back the input. */
  lemma {:induction false} JoinSplit(s: string, sep: char)
    ensures Join(Split(s, sep), sep) == s
  {
    if s != [] {
      var rest := Split(s[1..], sep);
      JoinSplit(s[1..], sep);
      if s[0] == sep {
        assert ([[]] + rest)[1..] == rest;
      } else {
        var fields := [[s[0]] + rest[0]] + rest[1..];
        if |rest| == 1 {
          assert fields == [[s[0]] + rest[0]];
        } else {
          assert fields[1..] == rest[1..];
          assert Join(rest, sep) == rest[0] + [sep] + Join(rest[1..], sep);
        }
      }
    }
  }

  /** `[..].join(sep)` for any list of pieces and a separator string. */
  function JoinWith(parts: seq<string>, sep: string): string {
    if parts == [] then ""
    else if |parts| == 1 then parts[0]
    else parts[0] + sep + JoinWith(parts[1..], sep)
  }

  /** `char::is_whitespace`: the Unicode White_Space property. */
  predicate IsWhitespace(c: char) {
    var k := c as int;
    k == 0x20 || 0x09 <= k <= 0x0D || k == 0x85 || k == 0xA0 || k == 0x1680
    || 0x2000 <= k <= 0x200A || k == 0x2028 || k == 0x2029 || k == 0x202F
    || k == 0x205F || k == 0x3000
  }

  predicate Blank(s: string) {
    forall k :: 0 <= k < |s| ==> IsWhitespace(s[k])
  }

  /** `str::trim_start`: drops the longest whitespace prefix. */
  function TrimStart(s: string): (r: string)
    ensures |r| <= |s| && r == s[|s| - |r|..]
    ensures Blank(s[..|s| - |r|])
    ensures r == [] || !IsWhitespace(r[0])
  {
    if s != [] && IsWhitespace(s[0]) then TrimStart(s[1..]) else s
  }

  /** `str::trim_end`: drops the longest whitespace suffix. */
  function TrimEnd(s: string): (r: string)
    ensures |r| <= |s| && r == s[..|r|]
    ensures Blank(s[|r|..])
    ensures r == [] || !IsWhitespace(r[|r| - 1])
  {
    if s != [] && IsWhitespace(s[|s| - 1]) then
      var r := TrimEnd(s[..|s| - 1]);
      assert s[|r|..] == s[..|s| - 1][|r|..] + [s[|s| - 1]];
      r
    else s
  }

  /** `str::trim`: the input without leading and trailing whitespace; empty
      exactly when the input is blank. */
  function Trim(s: string): (r: string)
    ensures r == [] || (!IsWhitespace(r[0]) && !IsWhitespace(r[|r| - 1]))
    ensures r == [] <==> Blank(s)
  {
    var t := TrimStart(s);
    var r := TrimEnd(t);
    assert r == [] ==> Blank(s) by {
      if r == [] {
        assert Blank(t[0..]);
        assert s == s[..|s| - |t|] + t;
      }
    }
    assert r != [] ==> !Blank(s) by {
      if r != [] {
        assert t[0] == s[|s| - |t|];
      }
    }
    r
  }

  /** `str::replace(c, rep)` for a single character pattern. */
  function Replace(s: string, c: char, rep: string): string {
    if s == [] then [] else (if s[0] == c then rep else [s[0]]) + Replace(s[1..], c, rep)
  }

  lemma {:induction false} ReplaceAppend(a: string, b: string, c: char, rep: string)
    ensures Replace(a + b, c, rep) == Replace(a, c, rep) + Replace(b, c, rep)
  {
    if a == [] {
      assert a + b == b;
    } else {
      var head := if a[0] == c then rep else [a[0]];
      assert (a + b)[0] == a[0] && (a + b)[1..] == a[1..] + b;
      ReplaceAppend(a[1..], b, c, rep);
      calc {
        Replace(a + b, c, rep);
        head + Replace(a[1..] + b, c, rep);
        head + (Replace(a[1..], c, rep) + Replace(b, c, rep));
        (head + Replace(a[1..], c, rep)) + Replace(b, c, rep);
      }
    }
  }

  /** Replacing a character that does not occur changes nothing. */
  lemma {:induction false} ReplaceAbsent(s: string, c: char, rep: string)
    requires c !in s
    ensures Replace(s, c, rep) == s
  {
    if s != [] {
      assert s == [s[0]] + s[1..];
      ReplaceAbsent(s[1..], c, rep);
    }
  }

  /** Replacing the only character of a one-character string gives the replacement. */
  lemma ReplaceHit(c: char, rep: string)
    ensures Replace([c], c, rep) == rep
  {
    assert [c][1..] == [];
    assert Replace([], c, rep) == [];
  }

  /** Items as Markdown code spans, separated by ", ". */
  function CodeList(items: seq<string>): string {
    JoinWith(seq(|items|, i requires 0 <= i < |items| => "`" + items[i] + "`"), ", ")
  }

  /** Joining splits at any separator position into the two joined halves. */
  lemma {:induction false} JoinAt(parts: seq<string>, sep: char, k: nat)
    requires 0 < k < |parts|
    ensures Join(parts, sep) == Join(parts[..k], sep) + [sep] + Join(parts[k..], sep)
    decreases k
  {
    if k > 1 {
      JoinAt(parts[1..], sep, k - 1);
      assert parts[1..][..k - 1] == parts[..k][1..];
      assert parts[1..][k - 1..] == parts[k..];
    }
  }

  /** A text without the separator is a single piece. */
  lemma {:induction false} SplitPlain(s: string, sep: char)
    requires sep !in s
    ensures Split(s, sep) == [s]
  {
    if s != [] {
      SplitPlain(s[1..], sep);
      assert [s[0]] + s[1..] == s;
    }
  }

  /** Splitting at the first separator: the piece before it, then the
      pieces of the rest. */
  lemma {:induction false} SplitFirst(a: string, sep: char, b: string)
    requires sep !in a
    ensures Split(a + [sep] + b, sep) == [a] + Split(b, sep)
  {
    if a == [] {
      assert (a + [sep] + b)[1..] == b;
    } else {
      assert (a + [sep] + b)[1..] == a[1..] + [sep] + b;
      SplitFirst(a[1..], sep, b);
      assert [a[0]] + a[1..] == a;
    }
  }

  /** After replacing `c` by a backslash and `c`, every `c` in the result is
      escaped: a backslash stands right before it. */
  lemma {:induction false} ReplaceEscapes(s: string, c: char)
    requires c != '\\'
    ensures forall i :: 0 <= i < |Replace(s, c, ['\\', c])| && Replace(s, c, ['\\', c])[i] == c ==>
      0 < i && Replace(s, c, ['\\', c])[i - 1] == '\\'
  {
    if s != [] {
      ReplaceEscapes(s[1..], c);
      var head := if s[0] == c then ['\\', c] else [s[0]];
      var tail := Replace(s[1..], c, ['\\', c]);
      var r := head + tail;
      forall i | 0 <= i < |r| && r[i] == c
        ensures 0 < i && r[i - 1] == '\\'
      {
        if i >= |head| {
          assert r[i] == tail[i - |head|];
          if i - |head| > 0 {
            assert r[i - 1] == tail[i - |head| - 1];
          }
        }
      }
    }
  }

  /** A common prefix can be dropped. */
  lemma Peel(p: string, x: string, y: string)
    requires p + x == p + y
    ensures x == y
  {
    assert x == (p + x)[|p|..];
    assert y == (p + y)[|p|..];
  }

  /** A decimal followed by a non-digit is not shorter than a decimal that
      shares its text: otherwise the non-digit would face a digit. */
  lemma DecimalNotShorter(m: nat, n: nat, x: string, y: string)
    requires Decimal(m) + x == Decimal(n) + y
    requires x != [] && !IsDigit(x[0])
    ensures |Decimal(n)| <= |Decimal(m)|
  {
    var a, b := Decimal(m), Decimal(n);
    assert forall i :: 0 <= i < |b| ==> IsDigit((b + y)[i]);
    assert !IsDigit((a + x)[|a|]);
  }

  /** A decimal followed by a non-digit is read back unambiguously: the
      number and what follows it are both determined. */
  lemma {:induction false} DecimalThen(m: nat, n: nat, x: string, y: string)
    requires Decimal(m) + x == Decimal(n) + y
    requires x != [] && !IsDigit(x[0]) && y != [] && !IsDigit(y[0])
    ensures m == n && x == y
  {
    var a, b := Decimal(m), Decimal(n);
    DecimalNotShorter(m, n, x, y);
    DecimalNotShorter(n, m, y, x);
    assert a == (a + x)[..|a|];
    assert b == (b + y)[..|b|];
    assert x == (a + x)[|a|..];
    assert y == (b + y)[|b|..];
    DecimalInjective(m, n);
  }

  /** Texts of one frame differ exactly where their middle parts differ. */
  lemma Framed(p: string, x: string, y: string, q: string)
    requires p + x + q == p + y + q
    ensures x == y
  {
    assert |x| == |y|;
    assert x == (p + x + q)[|p|..|p| + |x|];
    assert y == (p + y + q)[|p|..|p| + |y|];
  }

  /** Configuration fields, each trimmed, blank ones dropped, in order: how
      both revisions read a comma-separated list of sites. */
  function TrimmedFields(fields: seq<string>): (sites: seq<string>)
    ensures |sites| <= |fields|
    ensures forall i :: 0 <= i < |sites| ==>
      sites[i] != [] && !IsWhitespace(sites[i][0]) && !IsWhitespace(sites[i][|sites[i]| - 1])
  {
    if fields == [] then []
    else (if Trim(fields[0]) == "" then [] else [Trim(fields[0])]) + TrimmedFields(fields[1..])
  }

  /** Every non-blank field appears, trimmed. */
  lemma {:induction false} TrimmedFieldsKeep(fields: seq<string>, i: nat)
    requires i < |fields| && !Blank(fields[i])
    ensures Trim(fields[i]) in TrimmedFields(fields)
    decreases |fields|
  {
    if i > 0 {
      TrimmedFieldsKeep(fields[1..], i - 1);
    }
  }

  /** Every site comes from some field. */
  lemma {:induction false} TrimmedFieldsFrom(fields: seq<string>, x: string)
    requires x in TrimmedFields(fields)
    ensures exists i :: 0 <= i < |fields| && Trim(fields[i]) == x
    decreases |fields|
  {
    if Trim(fields[0]) != x {
      TrimmedFieldsFrom(fields[1..], x);
      var i :| 0 <= i < |fields[1..]| && Trim(fields[1..][i]) == x;
      assert Trim(fields[i + 1]) == x;
    }
  }

  /** The same, by membership: every site is non-empty, not padded, and the
      trim of some field, and every non-blank field is kept, trimmed. */
  lemma TrimmedFieldsClean(fields: seq<string>)
    ensures forall x :: x in TrimmedFields(fields) ==>
      x != [] && !IsWhitespace(x[0]) && !IsWhitespace(x[|x| - 1])
    ensures forall x :: x in TrimmedFields(fields) ==> exists f :: f in fields && Trim(f) == x
    ensures forall f :: f in fields && !Blank(f) ==> Trim(f) in TrimmedFields(fields)
  {
    var sites := TrimmedFields(fields);
    forall f | f in fields && !Blank(f)
      ensures Trim(f) in sites
    {
      var i :| 0 <= i < |fields| && fields[i] == f;
      TrimmedFieldsKeep(fields, i);
    }
    forall x | x in sites
      ensures x != [] && !IsWhitespace(x[0]) && !IsWhitespace(x[|x| - 1])
      ensures exists f :: f in fields && Trim(f) == x
    {
      var i :| 0 <= i < |sites| && sites[i] == x;
      TrimmedFieldsFrom(fields, x);
      var j :| 0 <= j < |fields| && Trim(fields[j]) == x;
      assert fields[j] in fields;
    }
  }
}
