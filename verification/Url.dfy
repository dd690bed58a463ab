/** `Url::parse` and `Url::href` of url.cpp, and exactly when they are inverse to each other. */
module Urls {
  import opened Options
  import opened Strings
  import opened DotSegments

  datatype Url = Url(
    scheme: string, userInfo: string, host: string, port: int,
    path: string, query: string, fragment: string)

  // ---------- characters and numbers ----------

  function Lower(s: string): (r: string)
    ensures |r| == |s| && forall i | 0 <= i < |s| :: r[i] == LowerChar(s[i])
  {
    if s == "" then "" else [LowerChar(s[0])] + Lower(s[1..])
  }

  predicate IsAlpha(c: char) { 'a' <= c <= 'z' || 'A' <= c <= 'Z' }

  predicate IsDigit(c: char) { '0' <= c <= '9' }

  predicate IsInt32(n: int) { -0x8000_0000 <= n < 0x8000_0000 }

  // The digits a string begins with.
  function Digits(s: string): string {
    if s == "" || !IsDigit(s[0]) then "" else [s[0]] + Digits(s[1..])
  }

  function DigitValue(c: char): nat {
    if IsDigit(c) then c as int - '0' as int else 0
  }

  function Number(digits: string): nat {
    if digits == "" then 0
    else 10 * Number(digits[..|digits| - 1]) + DigitValue(digits[|digits| - 1])
  }

  // std::from_chars for a decimal int: text after the number is ignored.
  function ReadInt(s: string): (r: Option<int>)
    ensures r.Some? ==> IsInt32(r.value)
  {
    var negative := s != "" && s[0] == '-';
    var digits := Digits(if negative then s[1..] else s);
    if digits == "" then None
    else
      var n: int := Number(digits);
      var v := if negative then -n else n;
      if IsInt32(v) then Some(v) else None
  }

  // std::to_string.
  function ShowNat(n: nat): string {
    if n < 10 then ['0' + n as char] else ShowNat(n / 10) + ['0' + (n % 10) as char]
  }

  function ShowInt(n: int): string {
    if n < 0 then "-" + ShowNat(-n) else ShowNat(n)
  }

  // ---------- parsing ----------

  datatype Authority = Authority(userInfo: string, host: string, port: int)

  // The brackets of an IPv6 literal are not part of the host.
  function Unbracket(h: string): string {
    if |h| >= 2 && h[0] == '[' && h[|h| - 1] == ']' then h[1..|h| - 1] else h
  }

  // Where the port starts, or |a|: the last colon, unless it is inside brackets.
  function PortColon(a: string): (i: nat)
    ensures i <= |a|
  {
    var colon, bracket := RFind(a, ':'), RFind(a, ']');
    if colon < |a| && (bracket == |a| || colon > bracket) then colon else |a|
  }

  function ParseHostPort(a: string): Option<(string, int)> {
    var colon := PortColon(a);
    if colon < |a| then
      match ReadInt(a[colon + 1..])
      case None => None
      case Some(port) => Some((Unbracket(Lower(a[..colon])), port))
    else Some((Unbracket(Lower(a)), -1))
  }

  function ParseAuthority(a: string): Option<Authority> {
    var at := Find(a, '@');
    var userInfo := if at < |a| then a[..at] else "";
    var rest := if at < |a| then a[at + 1..] else a;
    match ParseHostPort(rest)
    case None => None
    case Some((host, port)) => Some(Authority(userInfo, host, port))
  }

  predicate IsDelimiter(c: char) { c == '/' || c == '?' || c == '#' }

  // The first of "/?#", or |s|.
  function AuthorityEnd(s: string): (i: nat)
    ensures i <= |s| && (i < |s| ==> IsDelimiter(s[i]))
    ensures forall k | 0 <= k < i :: !IsDelimiter(s[k])
  {
    if s == "" || IsDelimiter(s[0]) then 0 else 1 + AuthorityEnd(s[1..])
  }

  datatype Tail = Tail(path: string, query: string, fragment: string)

  // Path, query and fragment.
  function ParseTail(rest: string): Tail {
    var queryPos, fragmentPos := Find(rest, '?'), Find(rest, '#');
    var fragment := if fragmentPos < |rest| then rest[fragmentPos + 1..] else "";
    var head := rest[..fragmentPos];
    if queryPos < fragmentPos then
      Tail(Text(Resolve(head[..queryPos])), head[queryPos + 1..], fragment)
    else
      Tail(Text(Resolve(head)), "", fragment)
  }

  // What follows the scheme and its colon.
  function ParseRest(scheme: string, rest: string): Option<Url> {
    if StartsWith(rest, "//") then ParseHierarchical(scheme, rest[2..])
    else
      var t := ParseTail(rest);
      Some(Url(scheme, "", "", -1, t.path, t.query, t.fragment))
  }

  function ParseHierarchical(scheme: string, rest: string): Option<Url> {
    var end := AuthorityEnd(rest);
    match ParseAuthority(rest[..end])
    case None => None
    case Some(a) =>
      var t := ParseTail(rest[end..]);
      Some(Url(scheme, a.userInfo, a.host, a.port, t.path, t.query, t.fragment))
  }

  function Parse(input: string): Option<Url> {
    var schemeEnd := Find(input, ':');
    if schemeEnd == |input| then None
    else
      var scheme := Lower(input[..schemeEnd]);
      if scheme == "" || !IsAlpha(scheme[0]) then None
      else ParseRest(scheme, input[schemeEnd + 1..])
  }

  // ---------- printing ----------

  function ShowHost(host: string): string {
    if ':' in host && host[0] != '[' then "[" + host + "]" else host
  }

  function ShowAuthority(a: Authority): string {
    (if a.userInfo != "" then a.userInfo + "@" else "") +
    (ShowHost(a.host) + if a.port != -1 then ":" + ShowInt(a.port) else "")
  }

  function ShowTail(t: Tail): string {
    t.path + ((if t.query != "" then "?" + t.query else "") + (if t.fragment != "" then "#" + t.fragment else ""))
  }

  function Href(u: Url): string {
    u.scheme + ("://" + (ShowAuthority(Authority(u.userInfo, u.host, u.port)) + ShowTail(Tail(u.path, u.query, u.fragment))))
  }

  // ---------- numbers round trip ----------

  lemma {:induction false} ShowNatDigits(n: nat)
    ensures ShowNat(n) != "" && forall i | 0 <= i < |ShowNat(n)| :: IsDigit(ShowNat(n)[i])
    ensures Number(ShowNat(n)) == n
  {
    if n >= 10 {
      ShowNatDigits(n / 10);
      assert ShowNat(n)[..|ShowNat(n)| - 1] == ShowNat(n / 10);
    }
  }

  lemma {:induction false} DigitsOfDigits(s: string)
    requires forall i | 0 <= i < |s| :: IsDigit(s[i])
    ensures Digits(s) == s
  {
    if s != "" { DigitsOfDigits(s[1..]); }
  }

  lemma ShowIntReads(n: int)
    requires IsInt32(n)
    ensures ReadInt(ShowInt(n)) == Some(n)
    ensures forall c | c in ShowInt(n) :: IsDigit(c) || c == '-'
  {
    hide Digits, ShowNat, Number;
    var m := if n < 0 then -n else n;
    ShowNatDigits(m);
    DigitsOfDigits(ShowNat(m));
    if n < 0 { assert ShowInt(n)[1..] == ShowNat(m); }
  }

  // ---------- what a parsed URL looks like ----------

  predicate Undelimited(s: string) {
    forall i | 0 <= i < |s| :: !IsDelimiter(s[i])
  }

  ghost predicate Parsed(u: Url) {
    && u.scheme != "" && IsAlpha(u.scheme[0]) && ':' !in u.scheme && Lower(u.scheme) == u.scheme
    && ParsedAuthority(Authority(u.userInfo, u.host, u.port))
    && ParsedTail(Tail(u.path, u.query, u.fragment))
  }

  ghost predicate ParsedAuthority(a: Authority) {
    && '@' !in a.userInfo && Undelimited(a.userInfo)
    && Undelimited(a.host) && Lower(a.host) == a.host
    && IsInt32(a.port)
  }

  ghost predicate ParsedTail(t: Tail) {
    && '?' !in t.path && '#' !in t.path && Text(Resolve(t.path)) == t.path && '#' !in t.query
  }

  lemma LowerTwice(s: string)
    ensures Lower(Lower(s)) == Lower(s)
  {
  }

  lemma LowerOf(s: string)
    ensures Undelimited(s) ==> Undelimited(Lower(s))
    ensures ':' !in s ==> ':' !in Lower(s)
  {
  }

  lemma HostPortParsed(a: string)
    requires Undelimited(a) && ParseHostPort(a).Some?
    ensures var (host, port) := ParseHostPort(a).value;
            Undelimited(host) && Lower(host) == host && IsInt32(port)
    ensures |ParseHostPort(a).value.0| <= PortColon(a)
  {
    var raw := a[..PortColon(a)];
    assert PortColon(a) == |a| ==> raw == a;
    LowerOf(raw);
    LowerTwice(raw);
    UnbracketLower(Lower(raw));
  }

  lemma UnbracketLower(h: string)
    requires Undelimited(h) && Lower(h) == h
    ensures Undelimited(Unbracket(h)) && Lower(Unbracket(h)) == Unbracket(h) && |Unbracket(h)| <= |h|
  {
    var b := Unbracket(h);
    if b != h {
      forall i | 0 <= i < |b|
        ensures b[i] !in "/?#" && LowerChar(b[i]) == b[i]
      {
        assert b[i] == h[i + 1] && Lower(h)[i + 1] == h[i + 1];
      }
    }
  }

  lemma AuthorityParsed(a: string)
    requires Undelimited(a) && ParseAuthority(a).Some?
    ensures ParsedAuthority(ParseAuthority(a).value)
  {
    hide ParseHostPort, Lower;
    var at := Find(a, '@');
    var rest := if at < |a| then a[at + 1..] else a;
    assert Undelimited(rest);
    HostPortParsed(rest);
  }

  lemma TailParsed(rest: string)
    ensures ParsedTail(ParseTail(rest))
    ensures rest == "" || IsDelimiter(rest[0]) ==> Rooted(ParseTail(rest).path)
  {
    var queryPos, fragmentPos := Find(rest, '?'), Find(rest, '#');
    var head := rest[..fragmentPos];
    var raw := if queryPos < fragmentPos then head[..queryPos] else head;
    ResolveChars(raw, '?');
    ResolveChars(raw, '#');
    ResolveKeeps(raw);
    Idempotent(raw);
    if Resolve(raw).segs != [] { JoinFront(Resolve(raw).segs); }
  }

  predicate Rooted(path: string) { path == "" || path[0] == '/' }

  lemma HierarchicalParsed(scheme: string, rest: string)
    requires ParseHierarchical(scheme, rest).Some?
    ensures var u := ParseHierarchical(scheme, rest).value;
            && u.scheme == scheme && ParsedAuthority(Authority(u.userInfo, u.host, u.port))
            && ParsedTail(Tail(u.path, u.query, u.fragment)) && Rooted(u.path)
  {
    hide ParseAuthority, ParseTail, ParsedAuthority, ParsedTail, Rooted;
    var end := AuthorityEnd(rest);
    AuthorityParsed(rest[..end]);
    TailParsed(rest[end..]);
  }

  lemma SchemeParsed(input: string)
    ensures var i := Find(input, ':');
            var scheme := Lower(input[..i]); ':' !in scheme && Lower(scheme) == scheme
  {
    var i := Find(input, ':');
    LowerTwice(input[..i]);
    LowerOf(input[..i]);
  }

  lemma NoAuthorityParsed()
    ensures ParsedAuthority(Authority("", "", -1))
  {
  }

  lemma RestParsed(scheme: string, rest: string)
    requires ParseRest(scheme, rest).Some?
    ensures var u := ParseRest(scheme, rest).value;
            && u.scheme == scheme && ParsedAuthority(Authority(u.userInfo, u.host, u.port))
            && ParsedTail(Tail(u.path, u.query, u.fragment))
            && (StartsWith(rest, "//") ==> Rooted(u.path))
  {
    hide ParseHierarchical, ParseTail, ParsedAuthority, ParsedTail, Rooted;
    if StartsWith(rest, "//") {
      HierarchicalParsed(scheme, rest[2..]);
    } else {
      TailParsed(rest);
      NoAuthorityParsed();
    }
  }

  // Every URL the parser accepts has this form.
  lemma ParseGives(input: string)
    requires Parse(input).Some?
    ensures Parsed(Parse(input).value)
  {
    hide ParseRest, ParsedAuthority, ParsedTail, Lower;
    SchemeParsed(input);
    var i := Find(input, ':');
    RestParsed(Lower(input[..i]), input[i + 1..]);
  }

  // ---------- scheme and host are lower case ----------

  predicate FoldedAt(part: string, s: string, k: nat) {
    k + |part| <= |s| && NoCapitals(part) && SameText(part, s[k..k + |part|])
  }

  // The part stands somewhere in s, with its capitals made small.
  ghost predicate FoldedIn(part: string, s: string) {
    exists k :: FoldedAt(part, s, k)
  }

  lemma LowerFolds(s: string)
    ensures FoldedAt(Lower(s), s, 0)
  {
    hide LowerChar, SameLetter, IsCapital;
    assert s[0..|s|] == s;
    forall i | 0 <= i < |s|
      ensures !IsCapital(Lower(s)[i]) && SameLetter(Lower(s)[i], s[i])
    {
      LowerCharMeaning(s[i], s[i]);
    }
  }

  lemma FoldedSlice(part: string, s: string, lo: nat, hi: nat)
    requires lo <= hi <= |s| && FoldedIn(part, s[lo..hi])
    ensures FoldedIn(part, s)
  {
    hide SameText, NoCapitals;
    var k: nat :| FoldedAt(part, s[lo..hi], k);
    SliceOfSlice(s, lo, hi, k, k + |part|);
    assert FoldedAt(part, s, lo + k);
  }

  lemma SliceOfSlice(s: string, lo: nat, hi: nat, a: nat, b: nat)
    requires lo <= hi <= |s| && a <= b <= hi - lo
    ensures s[lo..hi][a..b] == s[lo + a..lo + b]
  {
    var x, y := s[lo..hi][a..b], s[lo + a..lo + b];
    forall i | 0 <= i < |x|
      ensures x[i] == y[i]
    {
      assert x[i] == s[lo..hi][a + i] == s[lo + (a + i)];
      assert y[i] == s[(lo + a) + i];
    }
  }

  lemma FoldedUnbracket(h: string, s: string)
    requires FoldedAt(h, s, 0)
    ensures FoldedIn(Unbracket(h), s)
  {
    hide SameLetter, IsCapital;
    var b := Unbracket(h);
    if b == h {
      assert FoldedAt(b, s, 0);
    } else {
      forall i | 0 <= i < |b|
        ensures !IsCapital(b[i]) && SameLetter(b[i], s[1..1 + |b|][i])
      {
        assert b[i] == h[i + 1] && s[0..|h|][i + 1] == s[i + 1];
      }
      assert FoldedAt(b, s, 1);
    }
  }

  lemma HostFolded(a: string)
    requires ParseHostPort(a).Some?
    ensures FoldedIn(ParseHostPort(a).value.0, a)
  {
    hide PortColon, Lower, ReadInt, Unbracket, FoldedIn, FoldedAt;
    var raw := a[..PortColon(a)];
    assert PortColon(a) == |a| ==> raw == a;
    assert raw == a[0..|raw|];
    LowerFolds(raw);
    FoldedUnbracket(Lower(raw), raw);
    FoldedSlice(Unbracket(Lower(raw)), a, 0, |raw|);
  }

  lemma AuthorityFolded(a: string)
    requires ParseAuthority(a).Some?
    ensures FoldedIn(ParseAuthority(a).value.host, a)
  {
    hide ParseHostPort, FoldedIn;
    var at := Find(a, '@');
    if at < |a| {
      HostFolded(a[at + 1..]);
      assert a[at + 1..] == a[at + 1..|a|];
      FoldedSlice(ParseAuthority(a).value.host, a, at + 1, |a|);
    } else {
      HostFolded(a);
    }
  }

  lemma NoHostFolded(s: string)
    ensures FoldedIn("", s)
  {
    assert s[0..0] == "" && FoldedAt("", s, 0);
  }

  lemma RestFolded(scheme: string, rest: string)
    requires ParseRest(scheme, rest).Some?
    ensures ParseRest(scheme, rest).value.scheme == scheme && FoldedIn(ParseRest(scheme, rest).value.host, rest)
  {
    hide ParseAuthority, ParseTail, FoldedIn;
    if StartsWith(rest, "//") {
      var s := rest[2..];
      var end := AuthorityEnd(s);
      AuthorityFolded(s[..end]);
      assert s[..end] == rest[2..2 + end];
      FoldedSlice(ParseRest(scheme, rest).value.host, rest, 2, 2 + end);
    } else {
      NoHostFolded(rest);
    }
  }

  // The scheme is what stands before the first colon and the host is a part of the input, both with
  // their capitals made small and otherwise unchanged.
  lemma ParseFolds(input: string)
    requires Parse(input).Some?
    ensures var u := Parse(input).value;
            && NoCapitals(u.scheme) && SameText(u.scheme, input[..Find(input, ':')])
            && NoCapitals(u.host) && FoldedIn(u.host, input)
  {
    hide ParseRest, Lower, FoldedIn, SameText, NoCapitals;
    var i := Find(input, ':');
    var raw, rest := input[..i], input[i + 1..];
    LowerFolds(raw);
    assert raw[0..|raw|] == raw;
    RestFolded(Lower(raw), rest);
    assert rest == input[i + 1..|input|];
    FoldedSlice(Parse(input).value.host, input, i + 1, |input|);
    FoldedPlain(Parse(input).value.host, input);
  }

  lemma FoldedPlain(part: string, s: string)
    requires FoldedIn(part, s)
    ensures NoCapitals(part)
  {
    hide SameText, NoCapitals;
  }

  // ---------- host and port ----------

  lemma RFindIs(s: string, c: char, i: nat)
    requires i < |s| && s[i] == c && forall k | i < k < |s| :: s[k] != c
    ensures RFind(s, c) == i
  {
  }

  // A port printed after the host is found again.
  lemma PortColonIs(h: string, digits: string)
    requires ':' !in digits && ']' !in digits
    ensures PortColon(h + (":" + digits)) == |h|
  {
    var s := h + (":" + digits);
    forall k | |h| < k < |s|
      ensures s[k] != ':' && s[k] != ']'
    {
      assert s[k] == digits[k - |h| - 1];
    }
    RFindIs(s, ':', |h|);
  }

  // Brackets around a host hide its colons.
  lemma PortColonBracketed(h: string)
    ensures PortColon("[" + h + "]") == |h| + 2
    ensures Unbracket("[" + h + "]") == h
  {
    var s := "[" + h + "]";
    RFindIs(s, ']', |h| + 1);
  }

  // The last colon of the printed host is taken for the start of a port.
  predicate ColonExposed(host: string) {
    ':' in host && host[0] == '[' && PortColon(host) < |host|
  }

  predicate PrintableHost(host: string, port: int) {
    Unbracket(host) == host && !(port == -1 && ColonExposed(host))
  }

  function ShowHostPort(host: string, port: int): string {
    ShowHost(host) + if port != -1 then ":" + ShowInt(port) else ""
  }

  lemma ShowIntPlain(n: int)
    requires IsInt32(n)
    ensures ':' !in ShowInt(n) && ']' !in ShowInt(n) && '@' !in ShowInt(n) && Undelimited(ShowInt(n))
  {
    hide ShowInt, ReadInt;
    ShowIntReads(n);
    forall i | 0 <= i < |ShowInt(n)|
      ensures !IsDelimiter(ShowInt(n)[i])
    {
      assert ShowInt(n)[i] in ShowInt(n);
    }
  }

  lemma LowerBrackets(h: string)
    requires Lower(h) == h
    ensures Lower("[" + h + "]") == "[" + h + "]"
  {
    var s := "[" + h + "]";
    forall i | 0 <= i < |s|
      ensures LowerChar(s[i]) == s[i]
    {
      if 0 < i <= |h| { assert Lower(h)[i - 1] == h[i - 1] && s[i] == h[i - 1]; }
    }
    assert Lower(s) == s;
  }

  lemma ShowHostReads(host: string)
    requires Lower(host) == host
    ensures Lower(ShowHost(host)) == ShowHost(host)
    ensures Unbracket(ShowHost(host)) == host <==> Unbracket(host) == host
  {
    if ':' in host && host[0] != '[' {
      LowerBrackets(host);
      PortColonBracketed(host);
    }
  }

  lemma PortPrinted(host: string, port: int)
    requires Lower(host) == host && IsInt32(port) && port != -1
    ensures ParseHostPort(ShowHostPort(host, port)) == Some((host, port)) <==> Unbracket(host) == host
  {
    hide Lower, Unbracket, ShowHost, ShowInt, ReadInt, PortColon;
    var h, digits := ShowHost(host), ShowInt(port);
    ShowIntPlain(port);
    ShowIntReads(port);
    PortColonIs(h, digits);
    ShowHostReads(host);
    var s := h + (":" + digits);
    assert s[..|h|] == h && s[|h| + 1..] == digits;
  }

  lemma NoPortPrinted(host: string)
    requires Lower(host) == host
    ensures ParseHostPort(ShowHost(host)) == Some((host, -1)) <==> PrintableHost(host, -1)
  {
    hide PortColon, Lower, ReadInt;
    if ':' in host && host[0] != '[' {
      PortColonBracketed(host);
      LowerBrackets(host);
    } else if PortColon(host) < |host| {
      PortTaken(host);
    }
  }

  lemma PortTaken(host: string)
    requires PortColon(host) < |host|
    ensures ':' in host
    ensures forall port :: ParseHostPort(host) != Some((host, port))
  {
    var colon := PortColon(host);
    assert host[colon] == ':';
    if ParseHostPort(host).Some? {
      assert |Unbracket(Lower(host[..colon]))| <= colon;
    }
  }

  lemma HostPortRoundTrip(host: string, port: int)
    requires Lower(host) == host && IsInt32(port)
    ensures ParseHostPort(ShowHostPort(host, port)) == Some((host, port)) <==> PrintableHost(host, port)
  {
    hide Lower, Unbracket, ShowHost, ShowInt, ParseHostPort, PortColon;
    if port != -1 {
      PortPrinted(host, port);
    } else {
      assert ShowHostPort(host, port) == ShowHost(host);
      NoPortPrinted(host);
    }
  }

  // ---------- authority ----------

  // An empty user part is not printed, so an '@' in the host would be taken for its end.
  predicate PrintableAuthority(a: Authority) {
    PrintableHost(a.host, a.port) && (a.userInfo == "" ==> '@' !in a.host)
  }

  lemma AtSignInHost(a: Authority)
    requires ParsedAuthority(a) && a.userInfo == "" && '@' in a.host
    ensures ParseAuthority(ShowHostPort(a.host, a.port)) != Some(a)
  {
    var p := ShowHostPort(a.host, a.port);
    var at := Find(p, '@');
    assert '@' in p by {
      var k :| 0 <= k < |a.host| && a.host[k] == '@';
      assert ShowHost(a.host)[if ShowHost(a.host) == a.host then k else k + 1] == '@';
    }
    if at == 0 {
      AtSignFirst(a.host, a.port);
    }
  }

  lemma AtSignFirst(host: string, port: int)
    requires IsInt32(port) && host != "" && ShowHostPort(host, port)[0] == '@'
    ensures var rest := ShowHostPort(host, port)[1..];
            ParseHostPort(rest).Some? ==> ParseHostPort(rest).value.0 != host
  {
    hide ShowInt, ParseHostPort, PortColon;
    var rest := ShowHostPort(host, port)[1..];
    assert ShowHost(host) == host;
    if port != -1 {
      ShowIntPlain(port);
      PortColonIs(host[1..], ShowInt(port));
      assert rest == host[1..] + (":" + ShowInt(port));
    } else {
      assert rest == host[1..];
    }
    HostLength(rest);
  }

  lemma HostLength(a: string)
    ensures PortColon(a) <= |a|
    ensures ParseHostPort(a).Some? ==> |ParseHostPort(a).value.0| <= PortColon(a)
  {
  }

  lemma NoAtSign(host: string, port: int)
    requires '@' !in host && IsInt32(port)
    ensures '@' !in ShowHostPort(host, port)
  {
    hide ShowInt;
    ShowIntPlain(port);
  }

  lemma AuthorityRoundTrip(a: Authority)
    requires ParsedAuthority(a)
    ensures ParseAuthority(ShowAuthority(a)) == Some(a) <==> PrintableAuthority(a)
  {
    var p := ShowHostPort(a.host, a.port);
    hide ShowHostPort, ParseHostPort, PrintableHost, Undelimited, Lower;
    HostPortRoundTrip(a.host, a.port);
    if a.userInfo != "" {
      var s := a.userInfo + "@" + p;
      assert ShowAuthority(a) == s by { ShowAuthorityIs(a); }
      FindIs(s, '@', |a.userInfo|);
      assert s[..|a.userInfo|] == a.userInfo && s[|a.userInfo| + 1..] == p;
    } else {
      assert ShowAuthority(a) == p by { ShowAuthorityIs(a); }
      if '@' in a.host {
        AtSignInHost(a);
      } else {
        NoAtSign(a.host, a.port);
        FindIs(p, '@', |p|);
      }
    }
  }

  lemma ShowAuthorityIs(a: Authority)
    ensures ShowAuthority(a) ==
            (if a.userInfo != "" then a.userInfo + "@" else "") + ShowHostPort(a.host, a.port)
    ensures a.userInfo == "" ==> ShowAuthority(a) == ShowHostPort(a.host, a.port)
  {
  }

  lemma ShowAuthorityPlain(a: Authority)
    requires ParsedAuthority(a)
    ensures Undelimited(ShowAuthority(a))
  {
    hide ShowInt, Lower;
    ShowIntPlain(a.port);
    assert Undelimited(ShowHost(a.host));
  }

  // ---------- path, query, fragment ----------

  lemma TailRoundTrip(t: Tail)
    requires ParsedTail(t)
    ensures ParseTail(ShowTail(t)) == t
  {
    hide Resolve, Text, Find;
    var q := if t.query != "" then "?" + t.query else "";
    var f := if t.fragment != "" then "#" + t.fragment else "";
    TailPositions(t.path, t.query, q, f);
    TailPieces(t, q, f);
    TailFragment(t, q, f);
  }

  lemma TailFragment(t: Tail, q: string, f: string)
    requires q == if t.query != "" then "?" + t.query else ""
    requires f == if t.fragment != "" then "#" + t.fragment else ""
    ensures var s := ShowTail(t); t.fragment == if |t.path| + |q| < |s| then s[|t.path| + |q| + 1..] else ""
  {
    TailPieces(t, q, f);
  }

  lemma TailStart(t: Tail)
    requires Rooted(t.path)
    ensures ShowTail(t) == "" || IsDelimiter(ShowTail(t)[0])
  {
  }

  lemma TailPieces(t: Tail, q: string, f: string)
    requires q == if t.query != "" then "?" + t.query else ""
    requires f == if t.fragment != "" then "#" + t.fragment else ""
    ensures var s := t.path + (q + f);
            && s[..|t.path| + |q|] == t.path + q
            && (t.query != "" ==> (t.path + q)[..|t.path|] == t.path && (t.path + q)[|t.path| + 1..] == t.query)
            && (t.query == "" ==> t.path + q == t.path)
            && (t.fragment != "" ==> s[|t.path| + |q| + 1..] == t.fragment)
  {
  }

  lemma TailPositions(path: string, query: string, q: string, f: string)
    requires '?' !in path && '#' !in path && '#' !in query
    requires q == if query != "" then "?" + query else ""
    requires f != "" ==> f[0] == '#'
    ensures var s := path + (q + f);
            Find(s, '#') == |path| + |q| && (q != "" <==> Find(s, '?') < Find(s, '#')) && (q != "" ==> Find(s, '?') == |path|)
  {
    var s := path + (q + f);
    FindIs(s, '#', |path| + |q|);
    if q != "" {
      FindIs(s, '?', |path|);
    } else {
      assert forall k | 0 <= k < |path| :: s[k] == path[k];
    }
  }

  // ---------- main result ----------

  predicate Printable(u: Url) {
    PrintableAuthority(Authority(u.userInfo, u.host, u.port)) && Rooted(u.path)
  }

  lemma HierarchicalRoundTrip(u: Url)
    requires Parsed(u)
    ensures var a, t := Authority(u.userInfo, u.host, u.port), Tail(u.path, u.query, u.fragment);
            ParseHierarchical(u.scheme, ShowAuthority(a) + ShowTail(t)) == Some(u) <==> Printable(u)
  {
    hide ShowAuthority, ShowTail, ParseTail, ParseAuthority, ParsedAuthority, ParsedTail, PrintableAuthority, Rooted;
    var a, t := Authority(u.userInfo, u.host, u.port), Tail(u.path, u.query, u.fragment);
    var s := ShowAuthority(a) + ShowTail(t);
    if ParseHierarchical(u.scheme, s).Some? { HierarchicalParsed(u.scheme, s); }
    if Rooted(u.path) {
      TailRoundTrip(t);
      TailStart(t);
      AuthorityRoundTrip(a);
      ShowAuthorityPlain(a);
      AuthorityEndIs(ShowAuthority(a), ShowTail(t));
      assert s[..|ShowAuthority(a)|] == ShowAuthority(a) && s[|ShowAuthority(a)|..] == ShowTail(t);
    }
  }

  lemma AuthorityEndIs(a: string, t: string)
    requires Undelimited(a) && (t == "" || IsDelimiter(t[0]))
    ensures AuthorityEnd(a + t) == |a|
  {
    var s := a + t;
    assert forall k | 0 <= k < |a| :: s[k] == a[k];
    assert |a| < |s| ==> s[|a|] == t[0];
  }

  // Printing a parsed URL and parsing it again gives the same URL exactly when the URL is printable:
  // its path is empty or rooted, its host carries no brackets of its own that would be stripped or
  // that would expose a colon, and no '@' unless a user part is printed before it.
  lemma UrlRoundTrip(input: string)
    requires Parse(input).Some?
    ensures var u := Parse(input).value; Parse(Href(u)) == Some(u) <==> Printable(u)
  {
    hide ShowAuthority, ShowTail, ParseHierarchical, Printable, ParsedAuthority, ParsedTail, Lower;
    var u := Parse(input).value;
    ParseGives(input);
    HierarchicalRoundTrip(u);
    var rest := ShowAuthority(Authority(u.userInfo, u.host, u.port)) + ShowTail(Tail(u.path, u.query, u.fragment));
    var s := Href(u);
    assert s == u.scheme + ("://" + rest);
    FindIs(s, ':', |u.scheme|);
    assert s[..|u.scheme|] == u.scheme;
    var after := s[|u.scheme| + 1..];
    assert after == "//" + rest;
    assert after[..2] == "//" && after[2..] == rest;
  }

  lemma OrdinaryHost(u: Url)
    requires '@' !in u.host && '[' !in u.host && Rooted(u.path)
    ensures Printable(u)
  {
    if u.host != "" { assert u.host[0] in u.host; }
  }

  predicate HasAuthority(input: string) {
    var i := Find(input, ':');
    i < |input| && StartsWith(input[i + 1..], "//")
  }

  lemma AuthorityRoots(input: string)
    requires Parse(input).Some? && HasAuthority(input)
    ensures Rooted(Parse(input).value.path)
  {
    hide ParseRest, Lower, ParsedAuthority, ParsedTail, StartsWith, Rooted;
    var i := Find(input, ':');
    RestParsed(Lower(input[..i]), input[i + 1..]);
  }

  // In particular, every URL with an authority whose host holds no '@' and no bracket.
  lemma OrdinaryUrlRoundTrip(input: string)
    requires Parse(input).Some? && HasAuthority(input)
    requires '@' !in Parse(input).value.host && '[' !in Parse(input).value.host
    ensures Parse(Href(Parse(input).value)) == Parse(input)
  {
    hide Parse, Href, Printable, Rooted, HasAuthority;
    AuthorityRoots(input);
    OrdinaryHost(Parse(input).value);
    UrlRoundTrip(input);
  }

  // Not every accepted URL is printable. "x:y" has a relative path, and what is printed for it
  // names a host.
  lemma RelativePathLost()
    ensures Parse("x:y") == Some(Url("x", "", "", -1, "y", "", ""))
    ensures Href(Parse("x:y").value) == "x://y" && Parse("x://y") != Parse("x:y")
  {
    hide Find, Lower, ParseHierarchical, ParseTail, PrintableAuthority;
    var input, u := "x:y", Url("x", "", "", -1, "y", "", "");
    FindIs(input, ':', 1);
    assert input[..1] == "x" && input[2..] == "y";
    assert Lower("x") == "x" && IsAlpha('x');
    PlainTail();
    assert ParseRest("x", "y") == Some(u);
    assert Href(u) == "x://y";
    assert !Printable(u);
    UrlRoundTrip(input);
  }

  lemma PlainTail()
    ensures ParseTail("y") == Tail("y", "", "")
  {
    hide Find;
    FindIs("y", '?', 1);
    FindIs("y", '#', 1);
    FindIs("y", '/', 1);
    assert "y"[..1] == "y";
    assert Resolve("y") == Stack("y", []);
  }

  function HostOnly(a: Authority): Url { Url("x", a.userInfo, a.host, a.port, "", "", "") }

  // A URL that is an authority and nothing else.
  lemma AuthorityOnly(a: string)
    requires (forall k | 0 <= k < |a| :: !IsDelimiter(a[k])) && ParseAuthority(a).Some?
    ensures var u := HostOnly(ParseAuthority(a).value);
            && Parse("x://" + a) == Some(u)
            && (Parse(Href(u)) == Some(u) <==> PrintableAuthority(ParseAuthority(a).value))
  {
    hide Find, ParseAuthority, Href, PrintableAuthority, Lower;
    var input, rest := "x://" + a, "//" + a;
    FindIs(input, ':', 1);
    assert input[..1] == "x" && input[2..] == rest;
    assert Lower("x") == "x" && IsAlpha('x');
    assert rest[..2] == "//" && rest[2..] == a;
    assert AuthorityEnd(a) == |a| && a[..|a|] == a && a[|a|..] == "";
    EmptyTail();
    UrlRoundTrip(input);
  }

  lemma EmptyTail()
    ensures ParseTail("") == Tail("", "", "")
  {
    assert Resolve("") == EMPTY_STACK;
  }

  // A host that nothing is cut from but its brackets.
  lemma HostAlone(a: string)
    requires PortColon(a) == |a| && forall k | 0 <= k < |a| :: LowerChar(a[k]) == a[k]
    ensures ParseHostPort(a) == Some((Unbracket(a), -1))
    ensures '@' !in a ==> ParseAuthority(a) == Some(Authority("", Unbracket(a), -1))
  {
    hide Find, PortColon, Unbracket, ReadInt;
    assert Lower(a) == a;
    if '@' !in a { FindIs(a, '@', |a|); }
  }

  // A host with an '@' and no user part in front of it.
  lemma AtSignLost()
    ensures Parse("x://@a@b") == Some(Url("x", "", "a@b", -1, "", "", ""))
    ensures Parse(Href(Parse("x://@a@b").value)) != Parse("x://@a@b")
  {
    hide Find, RFind, Parse, Href, ParseHostPort;
    var a, host := "@a@b", "a@b";
    FindIs(a, '@', 0);
    assert a[..0] == "" && a[1..] == host && host[1] == '@';
    HostAlone(host);
    assert "x://" + a == "x://@a@b";
    AuthorityOnly(a);
  }

  // A host in brackets of its own: they go when it is read again.
  lemma BracketsLost()
    ensures Parse("x://[[a]]") == Some(Url("x", "", "[a]", -1, "", "", ""))
    ensures Parse(Href(Parse("x://[[a]]").value)) != Parse("x://[[a]]")
  {
    hide Find, RFind, Parse, Href, ParseAuthority, Lower;
    var a, host := "[[a]]", "[a]";
    HostAlone(a);
    assert a[1..4] == host;
    assert |Unbracket(host)| == 1;
    assert "x://" + a == "x://[[a]]";
    AuthorityOnly(a);
  }

  // A host that starts with a bracket and holds a colon: it is printed bare, and read as a port.
  lemma ColonLost()
    ensures Parse("x://[[a:5]") == Some(Url("x", "", "[a:5", -1, "", "", ""))
    ensures Parse(Href(Parse("x://[[a:5]").value)) != Parse("x://[[a:5]")
  {
    hide Find, RFind, Parse, Href, ParseAuthority, Lower, PrintableHost;
    var a, host := "[[a:5]", "[a:5";
    assert a[5] == ']';
    HostAlone(a);
    assert a[1..5] == host;
    ColonExposedHere();
    assert "x://" + a == "x://[[a:5]";
    AuthorityOnly(a);
  }

  lemma ColonExposedHere()
    ensures !PrintableHost("[a:5", -1)
  {
    hide RFind;
    var host := "[a:5";
    assert host[2] == ':' && RFind(host, ']') == |host|;
  }

  // ---------- an example ----------

  lemma ExampleAuthority()
    ensures ParseAuthority("Me@Host:80") == Some(Authority("Me", "host", 80))
  {
    hide Find, RFind, ReadInt;
    var a, rest := "Me@Host:80", "Host:80";
    FindIs(a, '@', 2);
    assert a[..2] == "Me" && a[3..] == rest;
    RFindIs(rest, ':', 4);
    assert ']' !in rest;
    assert PortColon(rest) == 4;
    assert rest[..4] == "Host" && rest[5..] == "80";
    ExamplePort();
    assert Lower("Host") == "host";
  }

  lemma ExamplePort()
    ensures ReadInt("80") == Some(80)
  {
    ShowIntReads(80);
    assert ShowInt(80) == "80";
  }

  lemma ExampleTail()
    ensures ParseTail("/a/../b?q#f") == Tail("/b", "q", "f")
  {
    hide Find, Resolve;
    var s := "/a/../b?q#f";
    FindIs(s, '?', 7);
    FindIs(s, '#', 9);
    assert s[..9][..7] == "/a/../b" && s[..9][8..] == "q" && s[10..] == "f";
    ExamplePath();
  }

  lemma ExamplePath()
    ensures Text(Resolve("/a/../b")) == "/b"
  {
    hide Find, AfterSlash;
    var tail := "a" + ("/" + (".." + ("/" + "b")));
    assert "/a/../b" == "/" + tail;
    RootedIs(tail);
    UpAfterSegment(EMPTY_STACK, "a", "b");
    ExampleSegment();
    assert Join(["b"]) == "/b" by { assert ["b"][..0] == []; }
  }

  lemma ExampleSegment()
    ensures AfterSlash(EMPTY_STACK, "b") == Stack("", ["b"])
  {
    hide Find;
    FindIs("b", '/', 1);
  }

  lemma EndOfAuthority(a: string, t: string)
    requires Undelimited(a) && (t == "" || IsDelimiter(t[0]))
    ensures AuthorityEnd(a + t) == |a|
    ensures (a + t)[..|a|] == a && (a + t)[|a|..] == t
  {
    hide AuthorityEnd;
    assert forall k | 0 <= k < |a| :: (a + t)[k] == a[k];
    if t != "" { assert (a + t)[|a|] == t[0]; }
  }

  // A scheme, an authority and a tail put together are parsed each on its own.
  lemma ParseParts(scheme: string, a: string, t: string)
    requires scheme != "" && ':' !in scheme && IsAlpha(Lower(scheme)[0])
    requires Undelimited(a) && (t == "" || IsDelimiter(t[0])) && ParseAuthority(a).Some?
    ensures var who, rest := ParseAuthority(a).value, ParseTail(t);
            Parse(scheme + ("://" + (a + t))) ==
            Some(Url(Lower(scheme), who.userInfo, who.host, who.port, rest.path, rest.query, rest.fragment))
  {
    hide Find, ParseAuthority, ParseTail, Lower, AuthorityEnd, Undelimited;
    var input, rest := scheme + ("://" + (a + t)), "//" + (a + t);
    assert input[|scheme|] == ':' && forall k | 0 <= k < |scheme| :: input[k] == scheme[k];
    FindIs(input, ':', |scheme|);
    assert input[..|scheme|] == scheme && input[|scheme| + 1..] == rest;
    assert rest[..2] == "//" && rest[2..] == a + t;
    EndOfAuthority(a, t);
  }

  // Every part of a URL.
  lemma ParseExample()
    ensures Parse("HTTP://Me@Host:80/a/../b?q#f") == Some(Url("http", "Me", "host", 80, "/b", "q", "f"))
  {
    hide Parse, ParseAuthority, ParseTail, Lower, Undelimited;
    ExampleScheme();
    ExampleAuthority();
    ExampleTail();
    ExampleText();
    ParseParts("HTTP", "Me@Host:80", "/a/../b?q#f");
  }

  lemma ExampleText()
    ensures Undelimited("Me@Host:80")
    ensures "HTTP" + ("://" + ("Me@Host:80" + "/a/../b?q#f")) == "HTTP://Me@Host:80/a/../b?q#f"
  {
  }

  lemma ExampleScheme()
    ensures Lower("HTTP") == "http" && IsAlpha("http"[0])
  {
  }
}
