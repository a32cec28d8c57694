/**
 The error value of the networking layer: a status, a header block, a reason
 and an identifier, the redirect constructors that fill the header block with
 a `Location` entry, and the pure string helpers that format decoding errors.
 Header names and values are UTF-8 bytes, as in `HttpHeaders`; reasons,
 identifiers and coding-path keys are `string`s.
 */
module Errors {
  import opened Wrappers
  import opened AsciiBytes
  import opened Sequences
  import opened HttpHeaders

  /** A response status: a numeric code and its reason phrase. */
  datatype ResponseStatus = ResponseStatus(code: int, reasonPhrase: string)

  // Reason phrases as registered in section 15.4 of RFC 9110.
  const MovedPermanently := ResponseStatus(301, "Moved Permanently")
  const SeeOther := ResponseStatus(303, "See Other")
  const TemporaryRedirect := ResponseStatus(307, "Temporary Redirect")
  const PermanentRedirect := ResponseStatus(308, "Permanent Redirect")

  /** The four redirect kinds. */
  datatype Redirect = Permanent | Normal | Temporary | PermanentPost

  /** The deprecated three-kind redirect enumeration. */
  datatype RedirectType = PermanentType | NormalType | TemporaryType

  /** The status a redirect kind is answered with. */
  function RedirectStatus(kind: Redirect): (s: ResponseStatus)
    ensures 300 <= s.code < 400 && |s.reasonPhrase| > 0
    ensures kind == Permanent <==> s.code == 301
    ensures kind == Normal <==> s.code == 303
    ensures kind == Temporary <==> s.code == 307
    ensures kind == PermanentPost <==> s.code == 308
  {
    match kind
    case Permanent => MovedPermanently
    case Normal => SeeOther
    case Temporary => TemporaryRedirect
    case PermanentPost => PermanentRedirect
  }

  /** The redirect kind a status code stands for, if any: the inverse of `RedirectStatus`. */
  function RedirectOfCode(code: int): Option<Redirect>
  {
    if code == 301 then Some(Permanent)
    else if code == 303 then Some(Normal)
    else if code == 307 then Some(Temporary)
    else if code == 308 then Some(PermanentPost)
    else None
  }

  /** Distinct kinds answer with distinct statuses, and the code alone recovers the kind. */
  lemma RedirectStatusInjective(a: Redirect, b: Redirect)
    ensures RedirectStatus(a) == RedirectStatus(b) <==> a == b
    ensures RedirectOfCode(RedirectStatus(a).code) == Some(a)
  {
  }

  /** Only the four redirect codes name a redirect kind. */
  lemma RedirectOfCodeOnlyRedirects(code: int)
    ensures RedirectOfCode(code).Some? <==> exists k :: RedirectStatus(k).code == code
  {
    if RedirectOfCode(code).Some? {
      assert RedirectStatus(RedirectOfCode(code).value).code == code;
    }
  }

  /** The deprecated enumeration's status. */
  function RedirectTypeStatus(t: RedirectType): (s: ResponseStatus)
    ensures s.code in {301, 303, 307}
  {
    match t
    case PermanentType => MovedPermanently
    case NormalType => SeeOther
    case TemporaryType => TemporaryRedirect
  }

  /** The kind a deprecated redirect type was renamed to. */
  function Renamed(t: RedirectType): Redirect
  {
    match t
    case PermanentType => Permanent
    case NormalType => Normal
    case TemporaryType => Temporary
  }

  /** Both enumerations agree on the three kinds they share; only `PermanentPost` is new. */
  lemma RedirectTypeAgrees(t: RedirectType)
    ensures RedirectTypeStatus(t) == RedirectStatus(Renamed(t))
    ensures Renamed(t) != PermanentPost
  {
  }

  // ---------------------------------------------------------------------------
  // The decimal description of a status code

  function DigitChar(d: int): (c: char)
    requires 0 <= d < 10
    ensures '0' <= c <= '9'
  {
    ['0', '1', '2', '3', '4', '5', '6', '7', '8', '9'][d]
  }

  predicate IsDigit(c: char)
  {
    '0' <= c <= '9'
  }

  predicate AllDigits(s: string)
  {
    forall i :: 0 <= i < |s| ==> IsDigit(s[i])
  }

  function DigitValue(c: char): int
    requires IsDigit(c)
  {
    c as int - '0' as int
  }

  /** The digits of a natural number, most significant first, with no leading zero. */
  function Digits(n: nat): (s: string)
    ensures |s| > 0 && AllDigits(s)
    ensures |s| > 1 ==> s[0] != '0'
    ensures n < 10 <==> |s| == 1
    decreases n
  {
    if n < 10 then [DigitChar(n)] else Digits(n / 10) + [DigitChar(n % 10)]
  }

  /** The value of a non-empty string of digits. */
  function DigitsValue(s: string): (n: nat)
    requires AllDigits(s)
    decreases |s|
  {
    if |s| == 0 then 0 else DigitsValue(s[..|s| - 1]) * 10 + DigitValue(s[|s| - 1])
  }

  /** Decimal digits as `Int.description` writes them: at least one, and no leading zero. */
  predicate CanonicalDigits(d: string)
  {
    |d| > 0 && AllDigits(d) && (|d| > 1 ==> d[0] != '0')
  }

  /** How a code is described: its decimal digits, with a leading '-' when it is negative. */
  function Description(code: int): (s: string)
    ensures |s| > 0
    ensures code >= 0 <==> s[0] != '-'
    ensures code < 0 ==> |s| > 1 && CanonicalDigits(s[1..])
    ensures code >= 0 ==> CanonicalDigits(s)
  {
    if code < 0 then
      assert ("-" + Digits(-code))[1..] == Digits(-code);
      "-" + Digits(-code)
    else Digits(code)
  }

  /** Reading a description back as a decimal number. */
  function ParseDescription(s: string): Option<int>
  {
    if |s| > 1 && s[0] == '-' && AllDigits(s[1..]) then
      Some(-(DigitsValue(s[1..]) as int))
    else if |s| > 0 && AllDigits(s) then
      Some(DigitsValue(s))
    else
      None
  }

  lemma {:induction false} DigitsRoundTrip(n: nat)
    ensures DigitsValue(Digits(n)) == n
    decreases n
  {
    if n >= 10 {
      var s := Digits(n);
      DigitsRoundTrip(n / 10);
      assert s[..|s| - 1] == Digits(n / 10);
    }
  }

  /** A code's description reads back as the code. */
  lemma DescriptionRoundTrip(code: int)
    ensures ParseDescription(Description(code)) == Some(code)
  {
    var s := Description(code);
    if code < 0 {
      assert s[1..] == Digits(-code);
      DigitsRoundTrip(-code);
    } else {
      assert s == Digits(code);
      assert IsDigit(s[0]);
      DigitsRoundTrip(code);
    }
  }

  /** Distinct codes are described differently. */
  lemma DescriptionInjective(a: int, b: int)
    ensures Description(a) == Description(b) <==> a == b
  {
    DescriptionRoundTrip(a);
    DescriptionRoundTrip(b);
  }

  // ---------------------------------------------------------------------------
  // The error value

  datatype NetworkError = NetworkError(
    identifier: string,
    status: ResponseStatus,
    headers: Headers,
    reason: string)

  /**
   Builds an error. A missing reason defaults to the status's reason phrase,
   a missing identifier to the description of the status code; given values
   are kept as they are, and the headers are stored unchanged.
   */
  function MakeError(status: ResponseStatus, headers: Headers, reason: Option<string>, identifier: Option<string>): (e: NetworkError)
    ensures e.status == status && e.headers == headers
    ensures reason.Some? ==> e.reason == reason.value
    ensures reason.None? ==> e.reason == status.reasonPhrase
    ensures identifier.Some? ==> e.identifier == identifier.value
    ensures identifier.None? ==> e.identifier == Description(status.code)
    ensures identifier.None? ==> ParseDescription(e.identifier) == Some(status.code)
  {
    DescriptionRoundTrip(status.code);
    NetworkError(identifier.GetOr(Description(status.code)), status, headers, reason.GetOr(status.reasonPhrase))
  }

  /** An error built with every default carries the status's own reason phrase and code. */
  lemma DefaultsComeFromStatus(status: ResponseStatus)
    ensures var e := MakeError(status, FromPairs([]), None, None);
            e.reason == status.reasonPhrase && e.identifier == Description(status.code)
            && e.headers.entries == []
  {
  }

  /** The `Location` header name. */
  const Location: Bytes := [0x4C, 0x6F, 0x63, 0x61, 0x74, 0x69, 0x6F, 0x6E]

  /** A redirect error: an empty header block with `Location` set to `location`, answered with the kind's status. */
  function RedirectTo(location: Bytes, kind: Redirect := Normal): (e: NetworkError)
    ensures e.status == RedirectStatus(kind)
    ensures e.reason == RedirectStatus(kind).reasonPhrase
    ensures |e.headers.entries| == 1
    ensures NamesMatch(e.headers.entries[0].name, Location) && e.headers.entries[0].value == location
    ensures e.headers.keepAliveState == Unknown
  {
    assert IsAscii(Location);
    var headers := ReplaceOrAdd(FromPairs([]), Location, location);
    NamesMatchReflexive(Location);
    MakeError(RedirectStatus(kind), headers, None, None)
  }

  /** The deprecated redirect constructor, taking the old enumeration. */
  function RedirectToType(location: Bytes, t: RedirectType): (e: NetworkError)
    ensures e.status == RedirectTypeStatus(t)
  {
    assert IsAscii(Location);
    var headers := ReplaceOrAdd(FromPairs([]), Location, location);
    MakeError(RedirectTypeStatus(t), headers, None, None)
  }

  /** The deprecated constructor builds the same error as the new one under the renamed kind. */
  lemma RedirectToTypeAgrees(location: Bytes, t: RedirectType)
    ensures RedirectToType(location, t) == RedirectTo(location, Renamed(t))
  {
    RedirectTypeAgrees(t);
  }

  /** Without a kind, a redirect is a 303 See Other. */
  lemma RedirectDefaultsToSeeOther(location: Bytes)
    ensures RedirectTo(location).status.code == 303
  {
  }

  /** Looking `Location` up in a redirect's headers, under any case, finds exactly the location. */
  lemma RedirectLocationLookup(location: Bytes, kind: Redirect, name: Bytes)
    requires NamesMatch(name, Location)
    ensures Values(RedirectTo(location, kind).headers.entries, name) == [location]
    ensures First(RedirectTo(location, kind).headers.entries, name) == Some(location)
  {
    var entries := RedirectTo(location, kind).headers.entries;
    NamesMatchSymmetric(name, Location);
    NamesMatchTransitive(entries[0].name, Location, name);
    assert entries[1..] == [];
  }

  // ---------------------------------------------------------------------------
  // Decoding-error message helpers

  /** A coding path as text: the key strings joined with '.'. */
  function DotPath(keys: seq<string>): (r: string)
    ensures keys == [] ==> r == ""
    ensures |keys| == 1 ==> r == keys[0]
  {
    Join(keys, '.')
  }

  /** Extending a non-empty path by a key appends '.' and the key. */
  lemma DotPathAppend(keys: seq<string>, key: string)
    requires |keys| > 0
    ensures DotPath(keys + [key]) == DotPath(keys) + "." + key
  {
    JoinAppend(keys, key, '.');
  }

  /** When no key contains '.', splitting a non-empty path at '.' gives the keys back. */
  lemma DotPathRoundTrip(keys: seq<string>)
    requires |keys| > 0
    requires forall i :: 0 <= i < |keys| ==> '.' !in keys[i]
    ensures SplitAll(DotPath(keys), '.') == keys
  {
    SplitAllJoin(keys, '.');
  }

  /**
   The context's debug description prepared for a message: empty stays empty,
   otherwise ". " is put in front and one trailing '.' is dropped.
   */
  function DebugDescriptionNoTrailingDot(d: string): (r: string)
    ensures r == "" <==> d == ""
    ensures r != "" ==> |r| >= 2 && r[..2] == ". "
    ensures r != "" ==> d == r[2..] || d == r[2..] + "."
    ensures r != "" && d[|d| - 1] != '.' ==> r[2..] == d
    ensures r != "" && d[|d| - 1] == '.' ==> d == r[2..] + "."
  {
    if |d| == 0 then ""
    else if d[|d| - 1] == '.' then ". " + d[..|d| - 1]
    else ". " + d
  }

  /** A description with and without one trailing '.' give the same text. */
  lemma TrailingDotIgnored(d: string)
    requires d != "" && d[|d| - 1] != '.'
    ensures DebugDescriptionNoTrailingDot(d + ".") == DebugDescriptionNoTrailingDot(d)
  {
    assert (d + ".")[..|d|] == d;
  }

  /** Only one trailing dot is dropped: a description ending in ".." keeps one. */
  lemma OnlyOneDotDropped(d: string)
    requires d != ""
    ensures var r := DebugDescriptionNoTrailingDot(d + "..");
            r == ". " + d + "." && r[|r| - 1] == '.'
  {
    assert (d + "..")[..|d| + 1] == d + ".";
  }

  /** The underlying error's description prepared for a message: empty exactly when there is none. */
  function UnderlyingErrorDescription(underlying: Option<string>): (r: string)
    ensures r == "" <==> underlying.None?
    ensures underlying.Some? ==> r == ". Underlying error: " + underlying.value
  {
    match underlying
    case None => ""
    case Some(u) => ". Underlying error: " + u
  }

  /** Different underlying errors are told apart by their text. */
  lemma UnderlyingErrorInjective(a: Option<string>, b: Option<string>)
    ensures UnderlyingErrorDescription(a) == UnderlyingErrorDescription(b) <==> a == b
  {
    if a.Some? && b.Some? && UnderlyingErrorDescription(a) == UnderlyingErrorDescription(b) {
      var prefix := ". Underlying error: ";
      assert a.value == UnderlyingErrorDescription(a)[|prefix|..];
      assert b.value == UnderlyingErrorDescription(b)[|prefix|..];
    }
  }

  /** The tail of every decoding-error message: both parts above, then a closing '.'. */
  function DebugDescriptionAndUnderlyingError(d: string, underlying: Option<string>): (r: string)
    ensures |r| > 0 && r[|r| - 1] == '.'
    ensures d == "" && underlying.None? ==> r == "."
    ensures d != "" ==> |r| >= 2 && r[..2] == ". "
    ensures underlying.Some? ==>
              var tail := ". Underlying error: " + underlying.value + ".";
              |r| >= |tail| && r[|r| - |tail|..] == tail
                && r[..|r| - |tail|] == DebugDescriptionNoTrailingDot(d)
    ensures underlying.None? ==> r[..|r| - 1] == DebugDescriptionNoTrailingDot(d)
  {
    var prepared := DebugDescriptionNoTrailingDot(d);
    var r := prepared + UnderlyingErrorDescription(underlying) + ".";
    if underlying.Some? then
      var tail := ". Underlying error: " + underlying.value + ".";
      assert r == prepared + tail;
      assert r[|r| - |tail|..] == tail && r[..|r| - |tail|] == prepared;
      r
    else
      assert r == prepared + ".";
      r
  }

  /** A trailing '.' on the description never doubles the closing '.'. */
  lemma NoDoubledDot(d: string, underlying: Option<string>)
    requires d != "" && d[|d| - 1] != '.'
    ensures DebugDescriptionAndUnderlyingError(d + ".", underlying) == DebugDescriptionAndUnderlyingError(d, underlying)
  {
    TrailingDotIgnored(d);
  }
}
