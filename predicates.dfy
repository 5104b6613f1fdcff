/**
 * The predicate library of loki-ui/src/warnings.js: emptiness, whitespace,
 * the mock-URL syntax, HTTP status codes and response delays. Every
 * predicate is pure.
 */
module Predicates {
  import opened Wrappers
  import opened Strings

  /** A field value as the editor holds it: a string, a number (status code
    * and delay arrive as numbers from a loaded project), or `undefined`.
    * `Num` stands for an integer whose JavaScript text is plain decimal,
    * that is |n| < 10^21; larger numbers print in exponent form. */
  datatype JsValue = Str(s: string) | Num(n: int) | Undefined

  /** `isNotEmpty`: every number counts as present, zero included; a string
    * counts exactly when it has characters; `undefined` never does. */
  predicate IsNotEmpty(v: JsValue) {
    match v
    case Num(_) => true
    case Str(s) => |s| > 0
    case Undefined => false
  }

  lemma NotEmptyCases(n: int, s: string)
    ensures IsNotEmpty(Num(n))
    ensures IsNotEmpty(Str(s)) <==> s != ""
    ensures !IsNotEmpty(Undefined)
  {
  }

  /** `String(v)`, as the regular-expression tests see a value. */
  function Text(v: JsValue): string {
    match v
    case Str(s) => s
    case Num(n) => ShowInt(n)
    case Undefined => "undefined"
  }

  /** `containsWhitespace(v)`, i.e. `/\s/.test(v)`. */
  predicate HasWhitespace(v: JsValue) {
    ContainsWhitespace(Text(v))
  }

  // ---------------------------------------------------------------------
  // parseInt
  // ---------------------------------------------------------------------

  /** The value of a character as a digit in radices up to 36; 36 for a
    * character that is no digit at all. */
  function DigitValue(c: char): (d: nat)
    ensures d <= 36
    ensures IsDigit(c) ==> d == c as int - '0' as int
  {
    if '0' <= c <= '9' then c as int - '0' as int
    else if 'a' <= c <= 'z' then c as int - 'a' as int + 10
    else if 'A' <= c <= 'Z' then c as int - 'A' as int + 10
    else 36
  }

  /** Length of the longest prefix of `s` made of digits of the radix. */
  function RadixRun(s: string, radix: nat): (n: nat)
    ensures n <= |s|
    ensures forall i :: 0 <= i < n ==> DigitValue(s[i]) < radix
    ensures n < |s| ==> DigitValue(s[n]) >= radix
  {
    if s != [] && DigitValue(s[0]) < radix then 1 + RadixRun(s[1..], radix) else 0
  }

  function RadixValue(s: string, radix: nat): nat {
    if s == [] then 0 else RadixValue(s[..|s| - 1], radix) * radix + DigitValue(s[|s| - 1])
  }

  /** Drops leading whitespace, as `parseInt` does first. */
  function TrimStart(s: string): (t: string)
    ensures |t| <= |s| && t == s[|s| - |t|..]
    ensures t != [] ==> !IsWhitespace(t[0])
  {
    if s != [] && IsWhitespace(s[0]) then TrimStart(s[1..]) else s
  }

  /** The unsigned part of `parseInt`: a `0x`/`0X` prefix selects radix 16,
    * then the longest run of digits of the radix is read; without any digit
    * the result is NaN (`None`). */
  function ParseUnsigned(u: string): Option<nat> {
    var hex := |u| >= 2 && u[0] == '0' && (u[1] == 'x' || u[1] == 'X');
    var radix := if hex then 16 else 10;
    var body := if hex then u[2..] else u;
    var z := body[..RadixRun(body, radix)];
    if z == [] then None else Some(RadixValue(z, radix))
  }

  /** The sign and the unsigned part of `parseInt`, after trimming. */
  function ParseSigned(t: string): Option<int> {
    var negative := t != [] && t[0] == '-';
    var u := if t != [] && (t[0] == '-' || t[0] == '+') then t[1..] else t;
    match ParseUnsigned(u)
    case None => None
    case Some(m) => var v: int := m; Some(if negative then -v else v)
  }

  /** `parseInt(s)` with no radix, following ECMAScript: leading whitespace is
    * skipped and one sign is read before the unsigned part. `-0` is
    * represented by 0, which compares like it. */
  function ParseIntText(s: string): Option<int> {
    ParseSigned(TrimStart(s))
  }

  /** `parseInt(v)`. A number below 10^21 in magnitude is read back as
    * itself, since its `String(n)` is its decimal text. */
  function ParseInt(v: JsValue): Option<int> {
    match v
    case Str(s) => ParseIntText(s)
    case Num(n) => Some(n)
    case Undefined => None
  }

  lemma {:induction false} RadixRunOfDecimal(s: string)
    requires AllDigits(s)
    ensures RadixRun(s, 10) == |s|
    ensures RadixValue(s, 10) == DecimalValue(s)
  {
    if s != [] {
      RadixRunOfDecimal(s[1..]);
      RadixRunOfDecimal(s[..|s| - 1]);
    }
  }

  /** A run of decimal digits followed by text that cannot extend it is
    * read as the value of the run. */
  lemma ParseUnsignedDigits(d: string, rest: string)
    requires d != [] && AllDigits(d)
    requires rest == [] || (!IsDigit(rest[0]) && rest[0] != 'x' && rest[0] != 'X')
    ensures ParseUnsigned(d + rest) == Some(DecimalValue(d))
  {
    var u := d + rest;
    assert u[0] == d[0];
    assert |u| >= 2 ==> u[1] == if |d| >= 2 then d[1] else rest[0];
    RadixRunOfDigitsThen(d, rest);
    assert u[..|d|] == d;
    RadixRunOfDecimal(d);
  }

  lemma TrimStartNoop(s: string)
    requires s != [] && (IsDigit(s[0]) || s[0] == '-')
    ensures TrimStart(s) == s
  {
  }

  /** Text that starts with a digit is read without trimming. */
  lemma ParseIntTextUnsigned(u: string, m: nat)
    requires u != [] && IsDigit(u[0]) && ParseUnsigned(u) == Some(m)
    ensures ParseIntText(u) == Some(m)
  {
    TrimStartNoop(u);
  }

  /** Text that starts with a minus sign and a digit reads as the negated
    * value of the rest. */
  lemma ParseIntTextNegative(t: string, m: nat)
    requires |t| >= 2 && t[0] == '-' && ParseUnsigned(t[1..]) == Some(m)
    ensures ParseIntText(t) == Some(-(m as int))
  {
    TrimStartNoop(t);
  }

  lemma ParseUnsignedShowNat(m: nat)
    ensures ParseUnsigned(ShowNat(m)) == Some(m)
  {
    ParseUnsignedDigits(ShowNat(m), []);
    assert ShowNat(m) + [] == ShowNat(m);
    ShowNatRoundTrip(m);
  }

  /** `parseInt(String(n)) == n` for every integer. */
  lemma ParseIntShowInt(n: int)
    ensures ParseIntText(ShowInt(n)) == Some(n)
  {
    var m: nat := if n < 0 then -n else n;
    ParseUnsignedShowNat(m);
    if n < 0 {
      ParseIntTextNegative(ShowInt(n), m);
    } else {
      ParseIntTextUnsigned(ShowInt(n), m);
    }
  }

  // ---------------------------------------------------------------------
  // Status code and delay
  // ---------------------------------------------------------------------

  /** `isValidStatusCode`: `parseInt` gives a value in [100, 599] (NaN fails
    * every comparison). */
  predicate IsValidStatusCode(v: JsValue) {
    var p := ParseInt(v);
    p.Some? && 100 <= p.value <= 599
  }

  /** `isValidDelay`: `parseInt` gives a value in [0, 300000]. */
  predicate IsValidDelay(v: JsValue) {
    var p := ParseInt(v);
    p.Some? && 0 <= p.value <= 300000
  }

  /** A status code typed as the decimal text of `n` is accepted exactly when
    * `n` lies in the range of section 15 of RFC 9110, and a delay exactly
    * when it lies in [0, 300000]. */
  lemma StatusCodeAndDelayRanges(n: int)
    ensures IsValidStatusCode(Str(ShowInt(n))) <==> 100 <= n <= 599
    ensures IsValidDelay(Str(ShowInt(n))) <==> 0 <= n <= 300000
    ensures IsValidStatusCode(Num(n)) <==> 100 <= n <= 599
  {
    ParseIntShowInt(n);
  }

  /** A status code of "42" is rejected and "420" accepted, as a status
    * code and as a delay. */
  lemma StatusCodeExamples()
    ensures !IsValidStatusCode(Str("42"))
    ensures IsValidStatusCode(Str("420"))
    ensures IsValidDelay(Str("420"))
  {
    assert ShowNat(4) == "4";
    assert ShowNat(42) == "42";
    assert ShowNat(420) == "420";
    StatusCodeAndDelayRanges(42);
    StatusCodeAndDelayRanges(420);
  }

  lemma {:induction false} RadixRunOfDigitsThen(d: string, rest: string)
    requires AllDigits(d)
    requires rest == [] || !IsDigit(rest[0])
    ensures RadixRun(d + rest, 10) == |d|
  {
    if d != [] {
      assert (d + rest)[1..] == d[1..] + rest;
      RadixRunOfDigitsThen(d[1..], rest);
    }
  }

  /** `parseInt` reads a leading number and ignores what follows it, so a
    * status code typed as "404 Not Found" passes. (A following `x` is
    * excluded: after a lone `0` it would select hexadecimal.) */
  lemma ParseIntLeadingNumber(n: nat, rest: string)
    requires rest == [] || (!IsDigit(rest[0]) && rest[0] != 'x' && rest[0] != 'X')
    ensures ParseIntText(ShowNat(n) + rest) == Some(n)
  {
    ParseUnsignedDigits(ShowNat(n), rest);
    ShowNatRoundTrip(n);
    ParseIntTextUnsigned(ShowNat(n) + rest, n);
  }

  // ---------------------------------------------------------------------
  // Simple field predicates
  // ---------------------------------------------------------------------

  /** `isValidHttpMethod`, `isValidUrlVariableKey`, `isValidUrlVariableValue`,
    * `isValidParameterKey`, `isValidParameterValue` and `isValidHeaderKey`
    * all accept exactly the values without whitespace. */
  predicate IsValidToken(v: JsValue) {
    !HasWhitespace(v)
  }

  /** `isValidHeaderValue` accepts everything. */
  predicate IsValidHeaderValue(v: JsValue) {
    true
  }

  // ---------------------------------------------------------------------
  // Mock URL
  // ---------------------------------------------------------------------

  /** Length of the longest prefix of `s` without a character of `stop`:
    * the regular-expression group `[^…]*`. */
  function Span(s: string, stop: set<char>): (n: nat)
    ensures n <= |s|
    ensures forall i :: 0 <= i < n ==> s[i] !in stop
    ensures n < |s| ==> s[n] in stop
  {
    if s != [] && s[0] !in stop then 1 + Span(s[1..], stop) else 0
  }

  /** The three groups of `/([^/?]*)([^?]*)(.*)/.exec(s)`: host and user
    * information, path, and the rest from the first `?` on. */
  function SplitUrl(s: string): (parts: (string, string, string))
    ensures parts.0 + parts.1 + parts.2 == s
    ensures '/' !in parts.0 && '?' !in parts.0 && '?' !in parts.1
    ensures parts.1 != [] ==> parts.1[0] == '/'
    ensures parts.2 != [] ==> parts.2[0] == '?'
  {
    var h := Span(s, {'/', '?'});
    var rest := s[h..];
    var p := Span(rest, {'?'});
    assert s[..h] + rest[..p] + rest[p..] == s;
    (s[..h], rest[..p], rest[p..])
  }

  /** First position `k >= j` where `}}` starts, provided no line terminator
    * lies in between: how the lazy groups `.*?}}` and `.+?}}` find their end. */
  function CloseAt(s: string, j: nat): (r: Option<nat>)
    ensures r.Some? ==> j <= r.value && r.value + 2 <= |s| && s[r.value] == '}' && s[r.value + 1] == '}'
    ensures r.Some? ==> forall k :: j <= k < r.value ==> !(s[k] == '}' && s[k + 1] == '}')
    decreases |s| - j
  {
    if j + 1 >= |s| then None
    else if s[j] == '}' && s[j + 1] == '}' then Some(j)
    else if IsLineTerminator(s[j]) then None
    else CloseAt(s, j + 1)
  }

  /** The names captured by `[...s.matchAll(/{{(.*?)}}/g)].map(m => m[1])`,
    * in order. */
  function PlaceholderNames(s: string): seq<string>
    decreases |s|
  {
    if |s| < 2 then []
    else if s[0] == '{' && s[1] == '{' then
      match CloseAt(s, 2)
      case Some(k) => [s[2..k]] + PlaceholderNames(s[k + 2..])
      case None => PlaceholderNames(s[1..])
    else PlaceholderNames(s[1..])
  }

  predicate Distinct(names: seq<string>) {
    forall i, j :: 0 <= i < j < |names| ==> names[i] != names[j]
  }

  /** `isValidUrlHostAndUserInfo`: no brace before the path. */
  predicate IsValidUrlHostAndUserInfo(host: string) {
    '{' !in host && '}' !in host
  }

  /** `isValidUrlPath`: the empty path passes; `/` alone fails; the
    * placeholder names must be pairwise distinct, non-empty and free of `/`. */
  predicate IsValidUrlPath(path: string) {
    path != [] ==>
      path != "/"
      && var names := PlaceholderNames(path);
         Distinct(names) && forall i :: 0 <= i < |names| ==> names[i] != [] && '/' !in names[i]
  }

  /** `isValidUrlQuery`: only the empty query passes. */
  predicate IsValidUrlQuery(query: string) {
    query == []
  }

  /** `isValidUrl(s)`. `urlParses(t)` stands for `new URL(t)` succeeding in
    * the platform's URL parser. The test `/^.*:\/\//` only reads the first
    * line of `s`, but it is reached only when `s` has no whitespace, hence
    * no line terminator, so it amounts to `s` containing `://`. */
  predicate IsValidUrl(s: string, urlParses: string -> bool) {
    !ContainsWhitespace(s) && !Contains(s, "://") && urlParses("http://" + s)
    && var (host, path, query) := SplitUrl(s);
       IsValidUrlHostAndUserInfo(host)
       && (path != [] ==> IsValidUrlPath(path))
       && (query != [] ==> IsValidUrlQuery(query))
  }

  lemma ContainsAt(s: string, t: string, i: nat)
    requires i + |t| <= |s| && s[i..i + |t|] == t
    ensures Contains(s, t)
    decreases i
  {
    if i == 0 {
      assert s[..|t|] == t;
    } else {
      assert s[1..][i - 1..i - 1 + |t|] == t;
      ContainsAt(s[1..], t, i - 1);
    }
  }

  /** `isValidUrl` rejects whitespace and a scheme separator. */
  lemma UrlRejectsWhitespaceAndScheme(s: string, urlParses: string -> bool)
    ensures ContainsWhitespace(s) ==> !IsValidUrl(s, urlParses)
    ensures Contains(s, "://") ==> !IsValidUrl(s, urlParses)
  {
  }

  /** `isValidUrl` rejects every query: any `?` in the URL. */
  lemma UrlRejectsQuery(s: string, i: nat, urlParses: string -> bool)
    requires i < |s| && s[i] == '?'
    ensures !IsValidUrl(s, urlParses)
  {
  }

  /** Where the first `/` or `?` starts: the host part has exactly this
    * length. */
  lemma SplitUrlHost(s: string, h: nat)
    requires h <= |s| && '/' !in s[..h] && '?' !in s[..h]
    requires h < |s| ==> s[h] == '/' || s[h] == '?'
    ensures SplitUrl(s).0 == s[..h]
  {
  }

  /** `isValidUrl` rejects a brace before the first `/` or `?`. */
  lemma UrlRejectsBraceInHost(s: string, i: nat, urlParses: string -> bool)
    requires i < |s| && (s[i] == '{' || s[i] == '}')
    requires '/' !in s[..i] && '?' !in s[..i]
    ensures !IsValidUrl(s, urlParses)
  {
    var h := Span(s, {'/', '?'});
    assert s[..h] == s[..h];
    SplitUrlHost(s, h);
    assert s[i] in s[..h];
  }

  /** `isValidUrl` rejects a path that is `/` alone. */
  lemma UrlRejectsRootPath(host: string, urlParses: string -> bool)
    requires '/' !in host && '?' !in host
    ensures !IsValidUrl(host + "/", urlParses)
  {
    var s := host + "/";
    assert s[..|host|] == host;
    SplitUrlHost(s, |host|);
    var parts := SplitUrl(s);
    assert parts.1 + parts.2 == "/";
    assert parts.1 == "/";
  }

  /** `isValidUrl` rejects a path whose placeholder names repeat, or where
    * one is empty or holds a `/`. */
  lemma UrlRejectsBadNames(s: string, urlParses: string -> bool)
    requires var names := PlaceholderNames(SplitUrl(s).1);
             !Distinct(names) || exists i :: 0 <= i < |names| && (names[i] == [] || '/' in names[i])
    ensures !IsValidUrl(s, urlParses)
  {
  }

  /** A character other than `{` in front changes no placeholder name. */
  lemma PlaceholderNamesSkip(c: char, rest: string)
    requires c != '{'
    ensures PlaceholderNames([c] + rest) == PlaceholderNames(rest)
  {
    if rest == [] {
      assert PlaceholderNames([c]) == [];
    } else {
      assert ([c] + rest)[1..] == rest;
    }
  }

  /** A URL that starts with `/` and has no `?` is all path. */
  lemma SplitPathOnly(s: string)
    requires s != [] && s[0] == '/' && '?' !in s
    ensures SplitUrl(s) == ([], s, [])
  {
    SplitUrlHost(s, 0);
    assert Span(s, {'/', '?'}) == 0;
    var rest := s[0..];
    assert rest == s;
    assert Span(rest, {'?'}) == |s|;
    assert rest[..|s|] == s && rest[|s|..] == [];
  }

  /** The text `{{n}}`. */
  function Placeholder(n: string): string {
    "{{" + n + "}}"
  }

  lemma RepeatedNames(n: string)
    requires forall i :: 0 <= i < |n| ==> n[i] != '}' && !IsLineTerminator(n[i])
    ensures PlaceholderNames("/" + Placeholder(n) + "/" + Placeholder(n)) == [n, n]
  {
    var second := Placeholder(n) + [];
    var first := Placeholder(n) + ("/" + second);
    assert "/" + Placeholder(n) + "/" + Placeholder(n) == [ '/' ] + first;
    PlaceholderNameFound(n, []);
    PlaceholderNamesSkip('/', second);
    PlaceholderNameFound(n, "/" + second);
    PlaceholderNamesSkip('/', first);
  }

  /** A path naming one placeholder twice, as in "/{{id}}/{{id}}", is
    * rejected whatever the URL parser says. */
  lemma UrlRejectsRepeatedName(n: string, urlParses: string -> bool)
    requires forall i :: 0 <= i < |n| ==> n[i] != '}' && n[i] != '?' && !IsLineTerminator(n[i])
    ensures !IsValidUrl("/" + Placeholder(n) + "/" + Placeholder(n), urlParses)
  {
    var s := "/" + Placeholder(n) + "/" + Placeholder(n);
    RepeatedNames(n);
    assert '?' !in Placeholder(n);
    SplitPathOnly(s);
    var names := PlaceholderNames(SplitUrl(s).1);
    assert names == [n, n];
    assert !Distinct(names) by { assert names[0] == names[1]; }
    UrlRejectsBadNames(s, urlParses);
  }

  // ---------------------------------------------------------------------
  // URL normalisation for the uniqueness check
  // ---------------------------------------------------------------------

  /** `s.replace(/{{(.+?)}}/g, '{{-}}')`: every placeholder with a non-empty
    * name on one line becomes `{{-}}`. */
  function NormaliseUrl(s: string): string
    decreases |s|
  {
    if s == [] then []
    else if |s| >= 3 && s[0] == '{' && s[1] == '{' && !IsLineTerminator(s[2]) then
      match CloseAt(s, 3)
      case Some(k) => "{{-}}" + NormaliseUrl(s[k + 2..])
      case None => [s[0]] + NormaliseUrl(s[1..])
    else [s[0]] + NormaliseUrl(s[1..])
  }

  /** Over a name without `}` and line terminators, the closing braces are
    * the first `}}` seen from any position inside the name. */
  lemma {:induction false} CloseAfterName(n: string, rest: string, j: nat)
    requires forall i :: 0 <= i < |n| ==> n[i] != '}' && !IsLineTerminator(n[i])
    requires 2 <= j <= 2 + |n|
    ensures CloseAt("{{" + n + "}}" + rest, j) == Some(2 + |n|)
    decreases 2 + |n| - j
  {
    var s := "{{" + n + "}}" + rest;
    if j < 2 + |n| {
      assert s[j] == n[j - 2];
      CloseAfterName(n, rest, j + 1);
    } else {
      assert s[j] == '}' && s[j + 1] == '}';
    }
  }

  /** Placeholder names do not matter to the uniqueness check: `{{a}}/x` and
    * `{{b}}/x` normalise alike. */
  lemma NormaliseIgnoresName(n: string, rest: string)
    requires n != []
    requires forall i :: 0 <= i < |n| ==> n[i] != '}' && !IsLineTerminator(n[i])
    ensures NormaliseUrl("{{" + n + "}}" + rest) == "{{-}}" + NormaliseUrl(rest)
  {
    var s := "{{" + n + "}}" + rest;
    CloseAfterName(n, rest, 3);
    assert s[2] == n[0];
    assert s[2 + |n| + 2..] == rest;
  }

  /** The names found by the path check are the ones written between braces. */
  lemma PlaceholderNameFound(n: string, rest: string)
    requires forall i :: 0 <= i < |n| ==> n[i] != '}' && !IsLineTerminator(n[i])
    ensures PlaceholderNames(Placeholder(n) + rest) == [n] + PlaceholderNames(rest)
  {
    var s := "{{" + n + "}}" + rest;
    assert Placeholder(n) + rest == s;
    CloseAfterName(n, rest, 2);
    assert s[2..2 + |n|] == n;
    assert s[2 + |n| + 2..] == rest;
  }
}
