/** WebSocket and HTTP URIs, parsed and printed as uri.hpp does. */
module Uri {
  import opened Options

  datatype Value = Value(scheme: string, secure: bool, host: string, port: nat, resource: string)

  // ---------------------------------------------------------------------------
  // Numbers
  // ---------------------------------------------------------------------------

  predicate IsDigit(c: char) {
    '0' <= c <= '9'
  }

  function DigitValue(c: char): (d: nat)
    requires IsDigit(c)
    ensures d < 10
  {
    c as nat - '0' as nat
  }

  function DigitChar(d: nat): (c: char)
    requires d < 10
    ensures IsDigit(c) && DigitValue(c) == d
  {
    ('0' as nat + d) as char
  }

  /** Decimal output of an unsigned number. */
  function Decimal(n: nat): (s: string)
    ensures |s| > 0 && forall i :: 0 <= i < |s| ==> IsDigit(s[i])
  {
    (if n < 10 then [] else Decimal(n / 10)) + [DigitChar(n % 10)]
  }

  /** The digits at the start of `s`. */
  function Digits(s: string): (n: nat)
    ensures n <= |s| && forall i :: 0 <= i < n ==> IsDigit(s[i])
    ensures n < |s| ==> !IsDigit(s[n])
  {
    if s == [] || !IsDigit(s[0]) then 0 else 1 + Digits(s[1..])
  }

  function Number(s: string): nat
    requires forall i :: 0 <= i < |s| ==> IsDigit(s[i])
  {
    if s == [] then 0 else 10 * Number(s[..|s| - 1]) + DigitValue(s[|s| - 1])
  }

  predicate IsSpace(c: char) {
    c == ' ' || '\t' <= c <= '\r'
  }

  /** `atoi`: white space, a sign, digits; what follows is ignored. */
  function Atoi(s: string): int {
    if s != [] && IsSpace(s[0]) then Atoi(s[1..])
    else if s != [] && s[0] == '-' then 0 - Number(s[1..][..Digits(s[1..])])
    else if s != [] && s[0] == '+' then Number(s[1..][..Digits(s[1..])])
    else Number(s[..Digits(s)])
  }

  lemma NumberSnoc(s: string, c: char)
    requires IsDigit(c) && forall i :: 0 <= i < |s| ==> IsDigit(s[i])
    ensures Number(s + [c]) == 10 * Number(s) + DigitValue(c)
  {
    assert (s + [c])[..|s|] == s;
  }

  lemma {:induction false} DecimalNumber(n: nat)
    ensures Number(Decimal(n)) == n
  {
    if n < 10 {
      NumberSnoc([], DigitChar(n));
    } else {
      DecimalNumber(n / 10);
      hide Number, DigitValue;
      NumberSnoc(Decimal(n / 10), DigitChar(n % 10));
    }
  }

  lemma {:induction false} AllDigits(s: string)
    requires forall i :: 0 <= i < |s| ==> IsDigit(s[i])
    ensures Digits(s) == |s|
  {
    if s != [] {
      AllDigits(s[1..]);
    }
  }

  lemma DecimalAtoi(n: nat)
    ensures Atoi(Decimal(n)) == n
  {
    var s := Decimal(n);
    hide Decimal, Number;
    AllDigits(s);
    assert s[..|s|] == s;
    DecimalNumber(n);
  }

  // ---------------------------------------------------------------------------
  // Printing and parsing
  // ---------------------------------------------------------------------------

  function DefaultPort(secure: bool): nat {
    if secure then 443 else 80
  }

  function Prefix(scheme: string): string {
    scheme + "://"
  }

  /** The port, unless it is the default one. */
  function PortPart(u: Value): string {
    if u.port == DefaultPort(u.secure) then "" else ":" + Decimal(u.port)
  }

  /** `str`. */
  function Str(u: Value): string {
    Prefix(u.scheme) + u.host + PortPart(u) + u.resource
  }

  /** The scheme of `s`, if it is one of the four and something follows its prefix. */
  function SchemeOf(s: string): (r: Option<string>)
    ensures r.Some? ==> |Prefix(r.value)| < |s| && Prefix(r.value) <= s
  {
    if "wss://" < s then Some("wss")
    else if "ws://" < s then Some("ws")
    else if "http://" < s then Some("http")
    else if "https://" < s then Some("https")
    else None
  }

  predicate IsSecure(scheme: string) {
    scheme == "wss" || scheme == "https"
  }

  const WORD: nat := 0x1_0000_0000

  /** `get_port_from_string`. */
  function PortOf(secure: bool, port: string): Option<nat> {
    if port == "" then Some(DefaultPort(secure))
    else
      var t := Atoi(port) % WORD;
      if 1 <= t <= 65535 then Some(t) else None
  }

  /** How many characters come before the first `/`, or `:` if `colon`. */
  function Before(s: string, colon: bool): (n: nat)
    ensures n <= |s| && forall i :: 0 <= i < n ==> s[i] != '/' && (colon ==> s[i] != ':')
    ensures n < |s| ==> s[n] == '/' || (colon && s[n] == ':')
  {
    if s == [] || s[0] == '/' || (colon && s[0] == ':') then 0 else 1 + Before(s[1..], colon)
  }

  function BeforeBracket(s: string): (n: nat)
    ensures n <= |s| && (forall i :: 0 <= i < n ==> s[i] != ']') && (n < |s| ==> s[n] == ']')
  {
    if s == [] || s[0] == ']' then 0 else 1 + BeforeBracket(s[1..])
  }

  function Drop(s: string, n: nat): string {
    if n <= |s| then s[n..] else []
  }

  /** After the host: a path, or a port and a path; the first character of each is dropped. */
  function Tail(scheme: string, host: string, s: string): Option<Value> {
    var secure := IsSecure(scheme);
    if s == [] || s[0] == '/' then
      Some(Value(scheme, secure, host, DefaultPort(secure), "/" + Drop(s, 1)))
    else
      var t := s[1..];
      var n := Before(t, false);
      match PortOf(secure, t[..n])
      case None => None
      case Some(port) => Some(Value(scheme, secure, host, port, "/" + Drop(t, n + 1)))
  }

  /** A host in brackets, and what follows it. */
  function Bracketed(scheme: string, t: string): Option<Value>
    requires t != []
  {
    var n := BeforeBracket(t[1..]);
    var rest := Drop(t, n + 2);
    if n == |t[1..]| then None
    else if rest != [] && rest[0] != '/' && rest[0] != ':' then None
    else Tail(scheme, t[1..n + 1], rest)
  }

  /** Any other host, and what follows it. */
  function Plain(scheme: string, t: string): Option<Value> {
    var n := Before(t, true);
    Tail(scheme, t[..n], t[n..])
  }

  /** What the parsing constructor makes of `s`. */
  function Parsed(s: string): Option<Value> {
    match SchemeOf(s)
    case None => None
    case Some(scheme) =>
      var t := s[|Prefix(scheme)|..];
      if t[0] == '[' then Bracketed(scheme, t) else Plain(scheme, t)
  }

  // ---------------------------------------------------------------------------
  // Parsing what was printed
  // ---------------------------------------------------------------------------

  predicate IsScheme(scheme: string) {
    scheme == "ws" || scheme == "wss" || scheme == "http" || scheme == "https"
  }

  predicate PlainHost(host: string) {
    && (forall i :: 0 <= i < |host| ==> host[i] != '/' && host[i] != ':')
    && (host != [] ==> host[0] != '[')
  }

  /** What a constructor from a scheme and the other parts makes, with a 16-bit port. */
  predicate Made(u: Value) {
    IsScheme(u.scheme) && u.secure == IsSecure(u.scheme) && u.port <= 65535 && u.resource != []
  }

  lemma {:induction false} BeforeSkips(a: string, b: string, colon: bool)
    requires forall i :: 0 <= i < |a| ==> a[i] != '/' && (colon ==> a[i] != ':')
    ensures Before(a + b, colon) == |a| + Before(b, colon)
  {
    if a == [] {
      assert a + b == b;
    } else {
      assert (a + b)[1..] == a[1..] + b;
      BeforeSkips(a[1..], b, colon);
    }
  }

  lemma PrefixFound(scheme: string, t: string)
    requires IsScheme(scheme) && t != []
    ensures SchemeOf(Prefix(scheme) + t) == Some(scheme)
    ensures (Prefix(scheme) + t)[|Prefix(scheme)|..] == t
  {
    var s := Prefix(scheme) + t;
    assert s[0] == scheme[0] && s[1] == Prefix(scheme)[1] && s[2] == Prefix(scheme)[2];
    assert s[3] == Prefix(scheme)[3] && s[4] == Prefix(scheme)[4];
  }

  lemma PortRead(secure: bool, port: nat)
    requires 1 <= port <= 65535
    ensures PortOf(secure, Decimal(port)) == Some(port)
  {
    hide Decimal, Atoi;
    DecimalAtoi(port);
  }

  /** What follows the host starts with a colon or a slash. */
  lemma PartsOf(u: Value)
    requires Made(u) && u.resource[0] == '/'
    ensures var t := PortPart(u) + u.resource;
      t != [] && (t[0] == '/' || t[0] == ':') && Str(u) == Prefix(u.scheme) + (u.host + t)
  {
    hide Decimal, Prefix;
    assert Str(u) == Prefix(u.scheme) + (u.host + (PortPart(u) + u.resource));
  }

  /** Port and path read back. */
  lemma TailPrinted(u: Value)
    requires Made(u) && u.port >= 1 && u.resource[0] == '/'
    ensures Tail(u.scheme, u.host, PortPart(u) + u.resource) == Some(u)
  {
    assert u.resource == "/" + u.resource[1..];
    if u.port == DefaultPort(u.secure) {
      assert PortPart(u) + u.resource == u.resource;
    } else {
      PortPrinted(u, Decimal(u.port));
    }
  }

  lemma PortPrinted(u: Value, d: string)
    requires Made(u) && u.port >= 1 && u.resource[0] == '/' && d == Decimal(u.port)
    ensures Tail(u.scheme, u.host, ":" + d + u.resource) == Some(u)
  {
    PortRead(u.secure, u.port);
    DigitsNoSlash(d);
    hide Decimal, Before, IsDigit, PortOf;
    var t := d + u.resource;
    assert (":" + d + u.resource)[1..] == t;
    BeforeSkips(d, u.resource, false);
    BeforeSlash(u.resource, false);
    assert t[..|d|] == d && Drop(t, |d| + 1) == u.resource[1..];
    assert u.resource == "/" + u.resource[1..];
  }

  lemma DigitsNoSlash(d: string)
    requires forall i :: 0 <= i < |d| ==> IsDigit(d[i])
    ensures forall i :: 0 <= i < |d| ==> d[i] != '/'
  {
  }

  lemma BeforeSlash(s: string, colon: bool)
    requires s != [] && (s[0] == '/' || (colon && s[0] == ':'))
    ensures Before(s, colon) == 0
  {
  }

  /** The text after the scheme, without its brackets. */
  lemma ParsedPlain(u: Value, t: string)
    requires IsScheme(u.scheme) && t != [] && t[0] != '['
    ensures var n := Before(t, true); Parsed(Prefix(u.scheme) + t) == Tail(u.scheme, t[..n], t[n..])
  {
    PrefixFound(u.scheme, t);
    hide SchemeOf, Tail, Before, Prefix;
  }

  lemma RoundTrip(u: Value)
    requires Made(u) && PlainHost(u.host) && u.port >= 1 && u.resource[0] == '/'
    ensures Parsed(Str(u)) == Some(u)
  {
    var tail := PortPart(u) + u.resource;
    var t := u.host + tail;
    hide Parsed, Tail, Prefix, Str, PortPart, Before;
    PartsOf(u);
    TailPrinted(u);
    ParsedPlain(u, t);
    BeforeSkips(u.host, tail, true);
    BeforeSlash(tail, true);
    assert t[..|u.host|] == u.host && t[|u.host|..] == tail;
  }

  /** What each of the four prefixes makes of a host and a path: security and the port that goes without saying. */
  lemma FourSchemes(host: string, path: string)
    requires PlainHost(host)
    ensures Parsed("ws://" + host + "/" + path) == Some(Value("ws", false, host, 80, "/" + path))
    ensures Parsed("wss://" + host + "/" + path) == Some(Value("wss", true, host, 443, "/" + path))
    ensures Parsed("http://" + host + "/" + path) == Some(Value("http", false, host, 80, "/" + path))
    ensures Parsed("https://" + host + "/" + path) == Some(Value("https", true, host, 443, "/" + path))
  {
    hide Parsed, Prefix, PlainHost;
    PrefixLiterals();
    PrefixParsed("ws", "ws://", host, path);
    PrefixParsed("wss", "wss://", host, path);
    PrefixParsed("http", "http://", host, path);
    PrefixParsed("https", "https://", host, path);
  }

  lemma PrefixLiterals()
    ensures Prefix("ws") == "ws://" && Prefix("wss") == "wss://"
    ensures Prefix("http") == "http://" && Prefix("https") == "https://"
  {
  }

  lemma PrefixParsed(scheme: string, prefix: string, host: string, path: string)
    requires IsScheme(scheme) && PlainHost(host) && prefix == Prefix(scheme)
    ensures var secure := scheme == "wss" || scheme == "https";
      Parsed(prefix + host + "/" + path) == Some(Value(scheme, secure, host, if secure then 443 else 80, "/" + path))
  {
    var tail := "/" + path;
    var t := host + tail;
    var u := Value(scheme, false, host, 0, tail);
    assert Drop(tail, 1) == path;
    BeforeSkips(host, tail, true);
    BeforeSlash(tail, true);
    assert prefix + host + "/" + path == prefix + t;
    assert t[..|host|] == host && t[|host|..] == tail;
    hide Parsed, Prefix, Before, PlainHost;
    ParsedPlain(u, t);
  }

  /** The port is printed exactly if it is not 443 with a secure scheme or 80 with another. */
  lemma PortPrintedExact(u: Value)
    requires Made(u)
    ensures var usual := if u.scheme == "wss" || u.scheme == "https" then 443 else 80;
      Str(u) == u.scheme + "://" + u.host + (if u.port == usual then "" else ":" + Decimal(u.port)) + u.resource
  {
    hide Decimal;
  }

  lemma TailMade(scheme: string, host: string, s: string)
    requires IsScheme(scheme) && Tail(scheme, host, s).Some?
    ensures var u := Tail(scheme, host, s).value; Made(u) && u.port >= 1 && u.resource[0] == '/' && u.host == host
  {
  }

  /** Whatever is parsed has a scheme, a port, and a path that starts with a slash. */
  lemma ParsedMade(s: string)
    requires Parsed(s).Some?
    ensures var u := Parsed(s).value; Made(u) && u.port >= 1 && u.resource[0] == '/'
  {
    var scheme := SchemeOf(s).value;
    var t := s[|Prefix(scheme)|..];
    hide Tail, Made, Prefix, SchemeOf, Before, BeforeBracket, Drop, PortOf;
    KnownScheme(s);
    if t[0] == '[' {
      TailMade(scheme, t[1..BeforeBracket(t[1..]) + 1], Drop(t, BeforeBracket(t[1..]) + 2));
    } else {
      TailMade(scheme, t[..Before(t, true)], t[Before(t, true)..]);
    }
  }

  lemma KnownScheme(s: string)
    requires SchemeOf(s).Some?
    ensures IsScheme(SchemeOf(s).value)
  {
  }

  /** What a bracketed host is read as. */
  lemma ParsedBracketed(u: Value, t: string)
    requires IsScheme(u.scheme) && t != [] && t[0] == '[' && Parsed(Prefix(u.scheme) + t).Some?
    ensures var n := BeforeBracket(t[1..]); n + 1 < |t| && Parsed(Prefix(u.scheme) + t).value.host == t[1..n + 1]
  {
    PrefixFound(u.scheme, t);
    hide SchemeOf, Prefix, Before;
  }

  /** A host that starts with a bracket is not read back. */
  lemma BracketsLost(u: Value)
    requires Made(u) && u.host != [] && u.host[0] == '[' && u.resource[0] == '/'
    ensures Parsed(Str(u)) != Some(u)
  {
    var tail := PortPart(u) + u.resource;
    hide Parsed, Prefix, Str, PortPart;
    PartsOf(u);
    if Parsed(Str(u)).Some? {
      ParsedBracketed(u, u.host + tail);
      NotTwice(u.host, tail);
    }
  }

  lemma NotTwice(h: string, tail: string)
    requires h != [] && h[0] == '[' && tail != [] && tail[0] != '['
    ensures (h + tail)[1..|h| + 1] != h
  {
    var t := h + tail;
    if t[1..|h| + 1] == h {
      AllBrackets(h, t, |h|);
    }
  }

  /** A text that has `h` from its second character on, and at its start, repeats its first character. */
  lemma {:induction false} AllBrackets(h: string, t: string, k: nat)
    requires |h| < |t| && h <= t && t[1..|h| + 1] == h && k <= |h| && t[0] == '['
    ensures t[k] == '['
  {
    if k > 0 {
      AllBrackets(h, t, k - 1);
      assert t[1..|h| + 1][k - 1] == t[k] && h[k - 1] == t[k - 1];
    }
  }

  /** Printing and parsing gives the same URI exactly for plain hosts, nonzero ports and absolute paths. */
  lemma RoundTripExact(u: Value)
    requires Made(u)
    ensures Parsed(Str(u)) == Some(u) <==> PlainHost(u.host) && u.port >= 1 && u.resource[0] == '/'
  {
    if PlainHost(u.host) && u.port >= 1 && u.resource[0] == '/' {
      RoundTrip(u);
    } else if Parsed(Str(u)) == Some(u) {
      ParsedMade(Str(u));
      if u.host != [] && u.host[0] == '[' {
        BracketsLost(u);
      } else {
        HostPlain(u);
      }
    }
  }

  lemma HostPlain(u: Value)
    requires Made(u) && Parsed(Str(u)) == Some(u) && (u.host != [] ==> u.host[0] != '[')
    requires u.resource[0] == '/'
    ensures PlainHost(u.host)
  {
    var tail := PortPart(u) + u.resource;
    var t := u.host + tail;
    hide Parsed, Prefix, Str, PortPart, Tail;
    PartsOf(u);
    assert t[0] == if u.host == [] then tail[0] else u.host[0];
    ParsedPlain(u, t);
    TailMade(u.scheme, t[..Before(t, true)], t[Before(t, true)..]);
  }

  /** Parsing, printing and parsing again: the same URI, unless the host came in brackets that it needs. */
  lemma ParsePrintParse(s: string)
    requires Parsed(s).Some?
    ensures Parsed(Str(Parsed(s).value)) == Parsed(s) <==> PlainHost(Parsed(s).value.host)
  {
    ParsedMade(s);
    RoundTripExact(Parsed(s).value);
  }

  /** An IPv6 address in brackets is parsed, but its printed form, without them, is not read back. */
  lemma LoopbackLost()
    ensures var u := Value("ws", false, "::1", 80, "/");
      Parsed("ws://[::1]/") == Some(u) && Parsed(Str(u)) != Some(u)
  {
    hide Parsed, Str;
    LoopbackText();
    BracketedParsed("ws", "::1", "/");
    assert !PlainHost("::1") by {
      assert "::1"[0] == ':';
    }
    ParsePrintParse("ws://[::1]/");
  }

  lemma LoopbackText()
    ensures Prefix("ws") + ("[" + ("::1" + "]" + "/")) == "ws://[::1]/"
  {
  }

  /** A host in brackets before a path is parsed without them. */
  lemma BracketedParsed(scheme: string, host: string, path: string)
    requires IsScheme(scheme) && (forall i :: 0 <= i < |host| ==> host[i] != ']') && path != [] && path[0] == '/'
    ensures Parsed(Prefix(scheme) + ("[" + (host + "]" + path)))
         == Some(Value(scheme, IsSecure(scheme), host, DefaultPort(IsSecure(scheme)), path))
  {
    var t := "[" + (host + "]" + path);
    Around(host, path);
    PrefixFound(scheme, t);
    BracketFound(host, path);
    TailOfPath(scheme, host, path);
    hide SchemeOf, Prefix, BeforeBracket, Tail, Drop;
  }

  lemma Around(host: string, path: string)
    ensures var inner := host + "]" + path; var t := "[" + inner;
      && |inner| == |host| + 1 + |path| && t[0] == '[' && t[1..] == inner
      && t[1..|host| + 1] == host && Drop(t, |host| + 2) == path
  {
    var inner := host + "]" + path;
    var t := "[" + inner;
    assert t[1..|host| + 1] == inner[..|host|];
    assert t[|host| + 2..] == inner[|host| + 1..];
  }

  lemma TailOfPath(scheme: string, host: string, path: string)
    requires path != [] && path[0] == '/'
    ensures Tail(scheme, host, path) == Some(Value(scheme, IsSecure(scheme), host, DefaultPort(IsSecure(scheme)), path))
  {
    assert path == "/" + path[1..];
  }

  lemma {:induction false} BracketFound(a: string, b: string)
    requires forall i :: 0 <= i < |a| ==> a[i] != ']'
    ensures BeforeBracket(a + "]" + b) == |a|
  {
    if a != [] {
      assert (a + "]" + b)[1..] == a[1..] + "]" + b;
      BracketFound(a[1..], b);
    }
  }

  // ---------------------------------------------------------------------------
  // The parsing constructor
  // ---------------------------------------------------------------------------

  class ParsedUri {
    var scheme: string
    var host: string
    var resource: string
    var port: nat
    var secure: bool
    var valid: bool

    constructor (s: string)
      ensures valid <==> Parsed(s).Some?
      ensures valid ==> Parsed(s) == Some(Value(scheme, secure, host, port, resource))
    {
      scheme, host, resource, port, secure, valid := "", "", "", 0, false, false;
      new;
      var it := 0;
      if |s| >= 7 && s[..6] == "wss://" {
        secure, scheme, it := true, "wss", 6;
      } else if |s| >= 6 && s[..5] == "ws://" {
        secure, scheme, it := false, "ws", 5;
      } else if |s| >= 8 && s[..7] == "http://" {
        secure, scheme, it := false, "http", 7;
      } else if |s| >= 9 && s[..8] == "https://" {
        secure, scheme, it := true, "https", 8;
      } else {
        return;
      }
      assert SchemeOf(s) == Some(scheme) && it == |Prefix(scheme)|;
      ParseHost(s, it);
    }

    /** Everything after the scheme. */
    method ParseHost(s: string, start: nat)
      requires SchemeOf(s) == Some(scheme) && start == |Prefix(scheme)| && secure == IsSecure(scheme)
      requires !valid && host == ""
      modifies this
      ensures valid <==> Parsed(s).Some?
      ensures valid ==> Parsed(s) == Some(Value(scheme, secure, host, port, resource))
    {
      hide SchemeOf, Prefix, Tail, Bracketed, Plain;
      if s[start] == '[' {
        ParseBracketed(s, start);
      } else {
        ParsePlain(s, start);
      }
    }

    method ParseBracketed(s: string, start: nat)
      requires start < |s| && s[start] == '[' && secure == IsSecure(scheme) && !valid && host == ""
      modifies this`host, this`port, this`resource, this`valid
      ensures valid <==> Bracketed(scheme, s[start..]).Some?
      ensures valid ==> Bracketed(scheme, s[start..]) == Some(Value(scheme, secure, host, port, resource))
    {
      hide Tail, BeforeBracket, Drop;
      ghost var t := s[start..];
      var it := start + 1;
      var temp := FindBracket(s, it);
      Slices(s, start, temp);
      assert temp - start == BeforeBracket(t[1..]) + 1;
      if temp == |s| {
        return;
      }
      host := host + s[it..temp];
      assert host == t[1..BeforeBracket(t[1..]) + 1];
      ParseRest(s, temp + 1, Drop(t, BeforeBracket(t[1..]) + 2));
    }

    /** The slices of `s` from `start` on that the specification speaks of. */
    lemma Slices(s: string, start: nat, temp: nat)
      requires start < temp <= |s|
      ensures var t := s[start..];
        && s[start + 1..] == t[1..] && s[start + 1..temp] == t[1..temp - start]
        && |t[1..]| == |s| - start - 1 && (temp < |s| ==> Drop(t, temp - start + 1) == s[temp + 1..])
    {
    }

    /** What follows the bracket. */
    method ParseRest(s: string, start: nat, ghost rest: string)
      requires secure == IsSecure(scheme) && !valid && start <= |s| && rest == s[start..]
      modifies this`port, this`resource, this`valid
      ensures rest != [] && rest[0] != '/' && rest[0] != ':' ==> !valid
      ensures rest == [] || rest[0] == '/' || rest[0] == ':' ==>
        && (valid <==> Tail(scheme, host, rest).Some?)
        && (valid ==> Tail(scheme, host, rest) == Some(Value(scheme, secure, host, port, resource)))
    {
      hide Tail;
      var it, state := start, 0;
      assert it < |s| ==> rest == [s[it]] + s[it + 1..];
      if it == |s| {
        state := 2;
      } else if s[it] == '/' {
        state := 2;
        it := it + 1;
      } else if s[it] == ':' {
        state := 1;
        it := it + 1;
      } else {
        return;
      }
      ParsePort(s, it, state, rest);
    }

    method ParsePlain(s: string, start: nat)
      requires start <= |s| && secure == IsSecure(scheme) && !valid && host == ""
      modifies this`host, this`port, this`resource, this`valid
      ensures valid <==> Plain(scheme, s[start..]).Some?
      ensures valid ==> Plain(scheme, s[start..]) == Some(Value(scheme, secure, host, port, resource))
    {
      hide Tail, Before;
      var it, state := ScanHost(s, start);
      ParsePort(s, it, state, s[start..][Before(s[start..], true)..]);
    }

    method FindBracket(s: string, start: nat) returns (temp: nat)
      requires start <= |s|
      ensures temp == start + BeforeBracket(s[start..])
    {
      temp := start;
      while temp < |s|
        invariant start <= temp <= |s|
        invariant temp + BeforeBracket(s[temp..]) == start + BeforeBracket(s[start..])
      {
        if s[temp] == ']' {
          break;
        }
        temp := temp + 1;
      }
    }

    /** The text that `Tail` sees, from where it stands and in which state: 1 behind a colon, else 2. */
    ghost predicate Behind(s: string, it: nat, state: nat, rest: string) {
      it <= |s| &&
      if state == 1 then rest == [':'] + s[it..]
      else state == 2 && (rest == ['/'] + s[it..] || (rest == [] && it == |s|))
    }

    method ScanHost(s: string, start: nat) returns (it: nat, state: nat)
      requires start <= |s| && host == ""
      modifies this`host
      ensures var n := Before(s[start..], true); host == s[start..][..n] && Behind(s, it, state, s[start..][n..])
    {
      hide Before;
      ghost var t := s[start..];
      it, state := start, 0;
      while state == 0
        invariant state == 0 ==> start <= it <= |s| && it - start <= Before(t, true) && host == t[..it - start]
        invariant state != 0 ==> host == t[..Before(t, true)] && Behind(s, it, state, t[Before(t, true)..])
        decreases if state == 0 then 1 else 0, |s| - it
      {
        assert s[it..] == t[it - start..];
        assert it < |s| ==> s[it] == t[it - start];
        if it == |s| {
          state := 2;
          break;
        } else if s[it] == '/' {
          state := 2;
        } else if s[it] == ':' {
          state := 1;
        } else {
          host := host + [s[it]];
        }
        it := it + 1;
      }
    }

    /** The digits of the port, and where the resource starts behind its slash. */
    method ScanPort(s: string, start: nat, state0: nat) returns (digits: string, it: nat)
      requires start <= |s| && (state0 == 1 || state0 == 2)
      ensures state0 == 2 ==> digits == "" && it == start
      ensures state0 == 1 ==> var n := Before(s[start..], false); digits == s[start..][..n] && it <= |s| && s[it..] == Drop(s[start..], n + 1)
    {
      hide Before;
      ghost var t := s[start..];
      ghost var n := Before(t, false);
      var state := state0;
      it, digits := start, "";
      while state == 1
        invariant start <= it <= |s| && (state == state0 || (state == 3 && state0 == 1))
        invariant state == 1 ==> digits == t[..it - start] && it - start <= n
        invariant state == 2 ==> it == start && digits == ""
        invariant state == 3 ==> digits == t[..n] && it == start + n + 1
        decreases if state == 1 then 1 else 0, |s| - it
      {
        assert it < |s| ==> s[it] == t[it - start];
        if it == |s| {
          break;
        } else if s[it] == '/' {
          state := 3;
        } else {
          digits := digits + [s[it]];
        }
        it := it + 1;
      }
    }

    /** The port, if there is one, and the resource. */
    method ParsePort(s: string, start: nat, state0: nat, ghost rest: string)
      requires secure == IsSecure(scheme) && !valid && Behind(s, start, state0, rest)
      modifies this`port, this`resource, this`valid
      ensures valid <==> Tail(scheme, host, rest).Some?
      ensures valid ==> Tail(scheme, host, rest) == Some(Value(scheme, secure, host, port, resource))
    {
      hide Atoi, Before;
      var digits, it := ScanPort(s, start, state0);
      assert state0 == 1 ==> rest[1..] == s[start..];
      assert state0 == 2 ==> s[it..] == Drop(rest, 1);
      var p := PortOf(secure, digits);
      if p == None {
        return;
      }
      port := p.value;
      resource := "/";
      resource := resource + s[it..];
      valid := true;
    }
  }
}
