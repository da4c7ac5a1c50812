/** WebSocket URIs: the parsing constructor, port numbers, and printing. */
module Uris {
  import opened Messages

  const DEFAULT_PORT: nat := 80
  const DEFAULT_SECURE_PORT: nat := 443

  function DefaultPort(secure: bool): nat { if secure then DEFAULT_SECURE_PORT else DEFAULT_PORT }

  /** The fields of a valid URI. */
  datatype Parts = Parts(scheme: string, secure: bool, host: string, port: nat, resource: string)

  // ---- port numbers ----

  predicate IsDigit(c: char) { '0' <= c <= '9' }

  predicate IsSpace(c: char) { c == ' ' || 9 as char <= c <= 13 as char }

  /** The number that the digits at the start of t continue. */
  function DigitsValue(t: string, value: nat): nat {
    if t == [] || !IsDigit(t[0]) then value
    else DigitsValue(t[1..], value * 10 + (t[0] as nat - '0' as nat))
  }

  function SkipSpace(t: string): string {
    if t == [] || !IsSpace(t[0]) then t else SkipSpace(t[1..])
  }

  /** atoi, without its overflow. */
  function Atoi(t: string): int {
    var t := SkipSpace(t);
    if t != [] && t[0] == '-' then -(DigitsValue(t[1..], 0) as int)
    else if t != [] && t[0] == '+' then DigitsValue(t[1..], 0)
    else DigitsValue(t, 0)
  }

  /** get_port_from_string: the number as an unsigned int, if it is a port. */
  function PortFrom(text: string, secure: bool): (port: Option<nat>)
    ensures port.Some? ==> 1 <= port.value <= 65535
  {
    if text == [] then Some(DefaultPort(secure))
    else
      var port := Atoi(text) % 0x1_0000_0000;
      if port > 65535 || port == 0 then None else Some(port)
  }

  function Decimal(n: nat): (t: string)
    ensures t != []
  {
    var last := [('0' as nat + n % 10) as char];
    if n < 10 then last else Decimal(n / 10) + last
  }

  predicate AllDigits(t: string) { forall i | 0 <= i < |t| :: IsDigit(t[i]) }

  lemma {:induction false} DigitsValueSnoc(t: string, c: char, value: nat)
    requires AllDigits(t) && IsDigit(c)
    ensures DigitsValue(t + [c], value) == DigitsValue(t, value) * 10 + (c as nat - '0' as nat)
    decreases |t|
  {
    if t == [] {
      assert t + [c] == [c];
      assert DigitsValue([], value * 10 + (c as nat - '0' as nat)) == value * 10 + (c as nat - '0' as nat);
    } else {
      assert (t + [c])[1..] == t[1..] + [c];
      DigitsValueSnoc(t[1..], c, value * 10 + (t[0] as nat - '0' as nat));
    }
  }

  lemma {:induction false} DecimalValue(n: nat)
    ensures AllDigits(Decimal(n)) && DigitsValue(Decimal(n), 0) == n
    decreases n
  {
    var c := ('0' as nat + n % 10) as char;
    if n < 10 {
      DigitsValueSnoc([], c, 0);
      assert [] + [c] == [c];
    } else {
      DecimalValue(n / 10);
      DigitsValueSnoc(Decimal(n / 10), c, 0);
    }
  }

  lemma AtoiDecimal(n: nat)
    ensures Atoi(Decimal(n)) == n
  {
    hide Decimal, DigitsValue;
    var t := Decimal(n);
    DecimalValue(n);
    assert IsDigit(t[0]);
    assert SkipSpace(t) == t;
  }

  /** Every port reads back from its decimal form. */
  lemma PortReadsBack(n: nat, secure: bool)
    requires 1 <= n <= 65535
    ensures PortFrom(Decimal(n), secure) == Some(n)
  {
    hide Decimal, Atoi;
    AtoiDecimal(n);
  }

  /** White space as isspace takes it, and no other sign or digit. */
  predicate Blanks(t: string) { forall i | 0 <= i < |t| :: t[i] in {' ', '\t', '\n', 11 as char, 12 as char, '\r'} }

  /** No digit to go on with. */
  predicate EndsNumber(t: string) { t == [] || !('0' <= t[0] <= '9') }

  lemma {:induction false} DigitsThen(t: string, rest: string, value: nat)
    requires AllDigits(t) && EndsNumber(rest)
    ensures DigitsValue(t + rest, value) == DigitsValue(t, value)
    decreases |t|
  {
    if t == [] {
      assert t + rest == rest;
    } else {
      assert (t + rest)[1..] == t[1..] + rest;
      DigitsThen(t[1..], rest, value * 10 + (t[0] as nat - '0' as nat));
    }
  }

  lemma {:induction false} SkipBlanks(blanks: string, t: string)
    requires Blanks(blanks) && SkipSpace(t) == t
    ensures SkipSpace(blanks + t) == t
    decreases |blanks|
  {
    if blanks == [] {
      assert blanks + t == t;
    } else {
      assert (blanks + t)[1..] == blanks[1..] + t;
      SkipBlanks(blanks[1..], t);
    }
  }

  /** A number is read after white space and a sign, up to the first character that is no digit. */
  lemma NumberRead(blanks: string, sign: string, n: nat, rest: string)
    requires Blanks(blanks) && sign in {"", "+", "-"} && EndsNumber(rest)
    ensures Atoi(blanks + (sign + (Decimal(n) + rest))) == if sign == "-" then -(n as int) else n
  {
    var t := sign + (Decimal(n) + rest);
    DecimalValue(n);
    assert IsDigit(Decimal(n)[0]);
    DigitsThen(Decimal(n), rest, 0);
    hide Decimal, DigitsValue;
    if sign == "" {
      assert t == Decimal(n) + rest && t[0] == Decimal(n)[0];
    } else {
      assert t[0] == sign[0] && t[1..] == Decimal(n) + rest;
    }
    assert SkipSpace(t) == t;
    SkipBlanks(blanks, t);
  }

  /** Text without a number is zero. */
  lemma NoNumber(blanks: string, rest: string)
    requires Blanks(blanks) && EndsNumber(rest) && SkipSpace(rest) == rest
    requires rest != [] ==> rest[0] !in {'+', '-'}
    ensures Atoi(blanks + rest) == 0
  {
    SkipBlanks(blanks, rest);
  }

  /** Which port texts are ports: a number from 1 to 65535, whatever follows it, after white space
      and an optional plus sign; not a negative number of an int, not a larger unsigned int, and
      not text without a number. */
  lemma PortTexts(blanks: string, sign: string, n: nat, rest: string, secure: bool)
    requires Blanks(blanks) && sign in {"", "+", "-"} && EndsNumber(rest)
    requires n < if sign == "-" then 0x8000_0000 else 0x1_0000_0000
    ensures PortFrom(blanks + (sign + (Decimal(n) + rest)), secure) ==
            if sign != "-" && 1 <= n <= 65535 then Some(n) else None
  {
    hide Atoi, Decimal, Blanks, EndsNumber, PortFrom;
    NumberRead(blanks, sign, n, rest);
    if sign == "-" { Negated(n); }
    PortOf(blanks + (sign + (Decimal(n) + rest)), if sign == "-" then -(n as int) else n, secure);
  }

  lemma PortOf(text: string, value: int, secure: bool)
    requires text != [] && Atoi(text) == value
    ensures var port := value % 0x1_0000_0000;
            PortFrom(text, secure) == if port > 65535 || port == 0 then None else Some(port)
  {
    hide Atoi;
  }

  lemma Negated(n: nat)
    requires n < 0x8000_0000
    ensures (-(n as int)) % 0x1_0000_0000 == if n == 0 then 0 else 0x1_0000_0000 - n
  {
  }

  /** Decimal forms have no leading zeros. */
  lemma {:induction false} NoLeadingZero(n: nat)
    ensures Decimal(n)[0] == '0' <==> n == 0
    decreases n
  {
    if n >= 10 {
      NoLeadingZero(n / 10);
      assert Decimal(n)[0] == Decimal(n / 10)[0];
    }
  }

  // ---- parsing ----

  /** The scheme at the start; something must follow it. */
  function SchemeOf(s: string): (scheme: Option<string>)
    ensures scheme.Some? ==> |scheme.value| + 3 < |s|
  {
    if |s| >= 7 && s[..6] == "wss://" then Some("wss")
    else if |s| >= 6 && s[..5] == "ws://" then Some("ws")
    else if |s| >= 8 && s[..7] == "http://" then Some("http")
    else if |s| >= 9 && s[..8] == "https://" then Some("https")
    else None
  }

  predicate IsSecure(scheme: string) { scheme == "wss" || scheme == "https" }

  /** How far t goes without any of the stops. */
  function Until(t: string, stops: set<char>): (k: nat)
    ensures k <= |t| && (k < |t| ==> t[k] in stops)
    ensures forall i | 0 <= i < k :: t[i] !in stops
  {
    if t == [] || t[0] in stops then 0 else 1 + Until(t[1..], stops)
  }

  /** Host text, whether a port is introduced after it, and what is left. */
  datatype Host = Host(name: string, portFollows: bool, rest: string)

  function ReadHost(t: string): Option<Host>
    requires t != []
  {
    if t[0] == '[' then
      var k := 1 + Until(t[1..], {']'});
      if k == |t| then None
      else if k + 1 == |t| then Some(Host(t[1..k], false, []))
      else if t[k + 1] == '/' then Some(Host(t[1..k], false, t[k + 2..]))
      else if t[k + 1] == ':' then Some(Host(t[1..k], true, t[k + 2..]))
      else None
    else
      var k := Until(t, {':', '/'});
      if k == |t| then Some(Host(t, false, []))
      else Some(Host(t[..k], t[k] == ':', t[k + 1..]))
  }

  /** Text of a port, up to a slash, and what follows the slash. */
  function PortText(t: string): (string, string) {
    var k := Until(t, {'/'});
    (t[..k], if k < |t| then t[k + 1..] else [])
  }

  /** Host, port and resource. */
  function AfterHost(secure: bool, host: Host): Option<(string, nat, string)> {
    var (text, rest) := if host.portFollows then PortText(host.rest) else ("", host.rest);
    match PortFrom(text, secure)
    case None => None
    case Some(port) => Some((host.name, port, "/" + rest))
  }

  function Parse(s: string): Option<Parts> {
    match SchemeOf(s)
    case None => None
    case Some(scheme) =>
      match ReadHost(s[|scheme| + 3..])
      case None => None
      case Some(h) =>
        match AfterHost(IsSecure(scheme), h)
        case None => None
        case Some((host, port, resource)) => Some(Parts(scheme, IsSecure(scheme), host, port, resource))
  }

  // ---- printing ----

  function Str(p: Parts): string {
    p.scheme + "://" + p.host
    + (if p.port != DefaultPort(p.secure) then ":" + Decimal(p.port) else "")
    + p.resource
  }

  /** A host that stands for itself without brackets. */
  predicate PlainHost(host: string) {
    && (host != [] ==> host[0] != '[')
    && ':' !in host && '/' !in host
  }

  lemma {:induction false} UntilConcat(a: string, b: string, stops: set<char>)
    requires forall c | c in a :: c !in stops
    requires b != [] ==> b[0] in stops
    ensures Until(a + b, stops) == |a|
  {
    if a == [] {
      assert a + b == b;
    } else {
      assert (a + b)[1..] == a[1..] + b;
      UntilConcat(a[1..], b, stops);
    }
  }

  /** What follows the host in print. */
  function Tail(p: Parts): string {
    (if p.port != DefaultPort(p.secure) then ":" + Decimal(p.port) else "") + p.resource
  }

  lemma SchemePrinted(scheme: string, rest: string)
    requires scheme in {"wss", "ws", "http", "https"} && rest != []
    ensures var s := scheme + "://" + rest; SchemeOf(s) == Some(scheme) && s[|scheme| + 3..] == rest
  {
    var s := scheme + "://" + rest;
    if scheme == "wss" {
      assert s[..6] == "wss://";
    } else if scheme == "ws" {
      assert s[2] == ':' && s[..5] == "ws://";
    } else if scheme == "http" {
      assert s[0] == 'h' && s[..7] == "http://";
    } else {
      assert s[0] == 'h' && s[4] == 's' && s[..8] == "https://";
    }
  }

  /** What the parser guarantees of any URI it calls valid. */
  lemma ParsedShape(s: string)
    requires Parse(s).Some?
    ensures var p := Parse(s).value;
            && p.scheme in {"wss", "ws", "http", "https"} && p.secure == IsSecure(p.scheme)
            && 1 <= p.port <= 65535 && p.resource != [] && p.resource[0] == '/'
            && (p.host != [] && p.host[0] == '[' ==> ']' !in p.host)
            && (s[|p.scheme| + 3] != '[' ==> PlainHost(p.host))
  {
    hide ReadHost, AfterHost;
    var scheme := SchemeOf(s).value;
    var t := s[|scheme| + 3..];
    HostShape(t);
    AfterShape(IsSecure(scheme), ReadHost(t).value);
  }

  lemma HostShape(t: string)
    requires t != [] && ReadHost(t).Some?
    ensures var host := ReadHost(t).value.name;
            if t[0] == '[' then ']' !in host else PlainHost(host)
  {
    hide Until;
    if t[0] == '[' {
      var k := 1 + Until(t[1..], {']'});
      assert t[1..k] == t[1..][..k - 1];
    }
  }

  lemma AfterShape(secure: bool, h: Host)
    requires AfterHost(secure, h).Some?
    ensures var (host, port, resource) := AfterHost(secure, h).value;
            host == h.name && 1 <= port <= 65535 && resource != [] && resource[0] == '/'
  {
    hide PortFrom, PortText;
  }

  lemma TailShape(p: Parts)
    requires p.resource != [] && p.resource[0] == '/'
    ensures var tail := Tail(p);
            tail != [] && tail[0] == (if p.port != DefaultPort(p.secure) then ':' else '/')
  {
  }

  lemma AfterPlainHost(p: Parts)
    requires 1 <= p.port <= 65535 && p.resource != [] && p.resource[0] == '/'
    ensures var tail := Tail(p);
            tail != [] && AfterHost(p.secure, Host(p.host, tail[0] == ':', tail[1..])) == Some((p.host, p.port, p.resource))
  {
    hide PortFrom, Until;
    TailShape(p);
    assert p.resource == "/" + p.resource[1..];
    if p.port != DefaultPort(p.secure) {
      var d := Decimal(p.port);
      assert Tail(p)[1..] == d + p.resource;
      DecimalValue(p.port);
      UntilConcat(d, p.resource, {'/'});
      assert (d + p.resource)[..|d|] == d && (d + p.resource)[|d| + 1..] == p.resource[1..];
      PortReadsBack(p.port, p.secure);
    } else {
      assert Tail(p) == p.resource;
      NoPort(p.secure);
    }
  }

  lemma NoPort(secure: bool)
    ensures PortFrom("", secure) == Some(DefaultPort(secure))
  {
  }

  lemma {:induction false} AllBrackets(host: string, tail: string, i: nat)
    requires i < |host| && host[0] == '[' && tail != []
    requires host == (host + tail)[1..|host| + 1]
    ensures host[i] == '['
  {
    if i > 0 {
      AllBrackets(host, tail, i - 1);
      assert (host + tail)[1..|host| + 1][i - 1] == (host + tail)[i] == host[i];
    }
  }

  /** Which printed hosts are read back as they were. */
  lemma HostReadsBack(host: string, tail: string)
    requires tail != [] && tail[0] in {':', '/'}
    requires host != [] && host[0] == '[' ==> ']' !in host
    ensures var h := ReadHost(host + tail);
            if PlainHost(host) then h == Some(Host(host, tail[0] == ':', tail[1..]))
            else h == None || h.value.name != host
  {
    hide Until;
    var t := host + tail;
    if PlainHost(host) {
      UntilConcat(host, tail, {':', '/'});
      assert t[..|host|] == host && t[|host| + 1..] == tail[1..];
      assert t[0] == if host == [] then tail[0] else host[0];
    } else if host[0] != '[' {
      var k := Until(t, {':', '/'});
      var i :| 0 <= i < |host| && host[i] in {':', '/'};
      assert t[i] == host[i];
      assert k <= i;
    } else {
      var k := 1 + Until(t[1..], {']'});
      if t[1..k] == host {
        AllBrackets(host, tail, |host| - 1);
      }
    }
  }

  /** Parsing what a valid URI prints gives the URI back exactly if its host stands for
      itself without brackets, which printing drops. */
  lemma Reparse(s: string)
    requires Parse(s).Some?
    ensures var p := Parse(s).value; Parse(Str(p)) == Some(p) <==> PlainHost(p.host)
  {
    hide SchemeOf, ReadHost, AfterHost, IsSecure;
    var p := Parse(s).value;
    ParsedShape(s);
    TailShape(p);
    var t := p.host + Tail(p);
    assert Str(p) == p.scheme + "://" + t by { hide PlainHost; }
    SchemePrinted(p.scheme, t);
    HostReadsBack(p.host, Tail(p));
    AfterPlainHost(p);
    assert ReadHost(t).Some? ==> HostKept(p.secure, ReadHost(t).value) by {
      if ReadHost(t).Some? { AfterHostKeepsName(p.secure, ReadHost(t).value); }
    }
  }

  predicate HostKept(secure: bool, h: Host) {
    AfterHost(secure, h).Some? ==> AfterHost(secure, h).value.0 == h.name
  }

  lemma AfterHostKeepsName(secure: bool, h: Host)
    ensures HostKept(secure, h)
  {
  }

  /** So every URI parsed from a host without brackets survives printing and parsing. */
  lemma ReparseUnbracketed(s: string)
    requires Parse(s).Some? && s[|Parse(s).value.scheme| + 3] != '['
    ensures Parse(Str(Parse(s).value)) == Parse(s)
  {
    ParsedShape(s);
    Reparse(s);
  }

  lemma BracketedHost()
    ensures ReadHost("[::1]/") == Some(Host("::1", false, ""))
  {
    var t := "[::1]/";
    assert t[1..] == "::1" + "]/";
    UntilConcat("::1", "]/", {']'});
    hide Until;
    assert t[1..4] == "::1" && t[6..] == "";
  }

  /** A bracketed host that does not: the text printed is "ws://::1/". */
  lemma BracketsAreLost()
    ensures Parse("ws://[::1]/") == Some(Parts("ws", false, "::1", 80, "/"))
    ensures Parse(Str(Parts("ws", false, "::1", 80, "/"))) != Parse("ws://[::1]/")
  {
    hide ReadHost, SchemeOf, Until, Str;
    var s := "ws://[::1]/";
    assert s == "ws" + "://" + "[::1]/";
    SchemePrinted("ws", "[::1]/");
    BracketedHost();
    assert "/" + "" == "/";
    assert "::1"[0] == ':';
    Reparse(s);
  }

  /** A URI as text: a host, then perhaps a port after a colon, then perhaps a path. */
  function Written(host: string, port: Option<string>, path: Option<string>): string {
    host + Ending(port, path)
  }

  function Ending(port: Option<string>, path: Option<string>): string {
    (if port.Some? then ":" + port.value else "") + (if path.Some? then "/" + path.value else "")
  }

  lemma HostWritten(host: string, port: Option<string>, path: Option<string>)
    requires PlainHost(host) && Written(host, port, path) != []
    ensures var end := Ending(port, path);
            ReadHost(Written(host, port, path)) == Some(Host(host, port.Some?, if end == [] then [] else end[1..]))
  {
    var end := Ending(port, path);
    hide ReadHost, Ending;
    if end == [] {
      NoEnding(port, path);
      HostAlone(host);
      assert host + [] == host;
    } else {
      EndingStarts(port, path);
      HostReadsBack(host, end);
    }
  }

  lemma HostAlone(host: string)
    requires PlainHost(host) && host != []
    ensures ReadHost(host) == Some(Host(host, false, []))
  {
    UntilConcat(host, [], {':', '/'});
    assert host + [] == host && host[..|host|] == host;
  }

  lemma NoEnding(port: Option<string>, path: Option<string>)
    ensures Ending(port, path) == [] <==> port == None && path == None
  {
  }

  lemma EndingStarts(port: Option<string>, path: Option<string>)
    requires Ending(port, path) != []
    ensures Ending(port, path)[0] == if port.Some? then ':' else '/'
  {
  }

  lemma EndingRead(secure: bool, host: string, port: Option<string>, path: Option<string>)
    requires port.Some? ==> '/' !in port.value
    ensures var end := Ending(port, path);
            AfterHost(secure, Host(host, port.Some?, if end == [] then [] else end[1..])) ==
            match PortFrom(if port.Some? then port.value else "", secure)
            case None => None
            case Some(number) => Some((host, number, "/" + if path.Some? then path.value else ""))
  {
    hide PortFrom, Until;
    var end := Ending(port, path);
    var rest := if path.Some? then path.value else "";
    if port.Some? {
      var after := if path.Some? then "/" + path.value else "";
      assert end[1..] == port.value + after;
      UntilConcat(port.value, after, {'/'});
      assert (port.value + after)[..|port.value|] == port.value;
      assert path.Some? ==> (port.value + after)[|port.value| + 1..] == rest;
    } else if path.Some? {
      assert end[1..] == rest;
    }
  }

  /** Host, port and path of a URI: the port is 443 or 80 if it is left out or empty, the path
      is "/" if it is left out. */
  function Meant(scheme: string, host: string, port: Option<string>, path: Option<string>): Option<Parts> {
    var secure := scheme in {"wss", "https"};
    var number := if port.Some? && port.value != "" then PortFrom(port.value, secure) else Some(if secure then 443 else 80);
    match number
    case None => None
    case Some(n) => Some(Parts(scheme, secure, host, n, "/" + if path.Some? then path.value else ""))
  }

  lemma MeantParsed(scheme: string, host: string, port: Option<string>, path: Option<string>)
    requires scheme in {"wss", "ws", "http", "https"} && (port.Some? ==> '/' !in port.value)
    ensures var end := Ending(port, path);
            var h := Host(host, port.Some?, if end == [] then [] else end[1..]);
            match AfterHost(IsSecure(scheme), h)
            case None => Meant(scheme, host, port, path) == None
            case Some((name, number, resource)) =>
              Meant(scheme, host, port, path) == Some(Parts(scheme, IsSecure(scheme), name, number, resource))
  {
    EndingRead(IsSecure(scheme), host, port, path);
    NoPort(IsSecure(scheme));
    PortIgnoresScheme(if port.Some? then port.value else "");
    hide Ending, AfterHost, PortFrom;
  }

  lemma PortIgnoresScheme(text: string)
    ensures text != "" ==> PortFrom(text, true) == PortFrom(text, false)
  {
    hide Atoi;
  }

  /** Every text of this shape with a host that needs no brackets is read as its parts, and only
      a port that is no port makes the URI invalid. */
  lemma ParseWritten(scheme: string, host: string, port: Option<string>, path: Option<string>)
    requires scheme in {"wss", "ws", "http", "https"} && PlainHost(host)
    requires Written(host, port, path) != [] && (port.Some? ==> '/' !in port.value)
    ensures Parse(scheme + "://" + Written(host, port, path)) == Meant(scheme, host, port, path)
  {
    hide SchemeOf, ReadHost, AfterHost, PortFrom, IsSecure, Ending, Meant;
    SchemePrinted(scheme, Written(host, port, path));
    HostWritten(host, port, path);
    MeantParsed(scheme, host, port, path);
  }

  /** So is a host in brackets: any text without a closing bracket. */
  lemma ParseBracketed(scheme: string, host: string, port: Option<string>, path: Option<string>)
    requires scheme in {"wss", "ws", "http", "https"} && ']' !in host
    requires port.Some? ==> '/' !in port.value
    ensures Parse(scheme + "://" + ("[" + host + "]" + Ending(port, path))) == Meant(scheme, host, port, path)
  {
    hide SchemeOf, ReadHost, AfterHost, PortFrom, IsSecure, Ending, Meant;
    SchemePrinted(scheme, "[" + host + "]" + Ending(port, path));
    BracketsWritten(host, port, path);
    MeantParsed(scheme, host, port, path);
  }

  lemma BracketsWritten(host: string, port: Option<string>, path: Option<string>)
    requires ']' !in host
    ensures var end := Ending(port, path);
            ReadHost("[" + host + "]" + end) == Some(Host(host, port.Some?, if end == [] then [] else end[1..]))
  {
    var end := Ending(port, path);
    var t := "[" + host + "]" + end;
    if end == [] { NoEnding(port, path); } else { EndingStarts(port, path); }
    hide Ending;
    BracketFound(host, end);
    var k := |host| + 1;
    assert t[1..k] == host;
    assert end != [] ==> t[k + 1] == end[0] && t[k + 2..] == end[1..];
  }

  lemma BracketFound(host: string, after: string)
    requires ']' !in host
    ensures var t := "[" + host + "]" + after; t[0] == '[' && Until(t[1..], {']'}) == |host|
  {
    var t := "[" + host + "]" + after;
    assert t[1..] == host + ("]" + after);
    UntilConcat(host, "]" + after, {']'});
  }

  /** A bracket that is not closed, or is followed by anything but a port or a path, makes the
      URI invalid. */
  lemma BadBrackets(scheme: string, host: string, after: string)
    requires scheme in {"wss", "ws", "http", "https"} && ']' !in host
    ensures Parse(scheme + "://" + ("[" + host)) == None
    ensures after != [] && after[0] !in {':', '/'} ==> Parse(scheme + "://" + ("[" + host + "]" + after)) == None
  {
    SchemePrinted(scheme, "[" + host);
    SchemePrinted(scheme, "[" + host + "]" + after);
    hide SchemeOf, AfterHost;
    Unclosed(host);
    BracketFound(host, after);
    hide Until;
    var t := "[" + host + "]" + after;
    assert after != [] ==> t[|host| + 2] == after[0];
  }

  lemma Unclosed(host: string)
    requires ']' !in host
    ensures var t := "[" + host; t[0] == '[' && Until(t[1..], {']'}) == |host|
  {
    assert ("[" + host)[1..] == host + [];
    UntilConcat(host, [], {']'});
  }

  /** Printing leaves the port out exactly if it is the default one of the scheme: 443 or 80. */
  lemma Printed(p: Parts)
    ensures Str(p) == p.scheme + "://" + p.host
                      + (if p.port == (if p.secure then 443 else 80) then "" else ":" + Decimal(p.port)) + p.resource
  {
  }

  // ---- the constructor ----

  /** The host after an opening bracket: from there to the closing one. */
  method ReadBracketed(s: string, begin: nat) returns (ok: bool, host: string, it: nat, state: nat)
    requires begin < |s| && s[begin] == '['
    ensures begin < it <= |s| && (state == 1 || state == 2)
    ensures ReadHost(s[begin..]) == if ok then Some(Host(host, state == 1, s[it..])) else None
  {
    ghost var t := s[begin..];
    ghost var k := 1 + Until(t[1..], {']'});
    it, state, host := begin + 1, 2, "";
    var temp := it;
    while temp < |s| && s[temp] != ']'
      invariant it <= temp <= begin + k <= |s|
    {
      assert t[1..][temp - begin - 1] == s[temp];
      temp := temp + 1;
    }
    assert temp < |s| ==> t[1..][temp - begin - 1] == s[temp];
    if temp == |s| { return false, host, it, state; }
    host := host + s[it..temp];
    assert host == t[1..k];
    it := temp + 1;
    if it == |s| {
      assert s[it..] == [];
      return true, host, it, 2;
    } else if s[it] == '/' {
      assert t[k + 2..] == s[it + 1..];
      return true, host, it + 1, 2;
    } else if s[it] == ':' {
      assert t[k + 2..] == s[it + 1..];
      return true, host, it + 1, 1;
    } else {
      return false, host, it, state;
    }
  }

  /** A host without brackets: up to a colon, a slash, or the end. */
  method ReadPlain(s: string, begin: nat) returns (host: string, it: nat, state: nat)
    requires begin < |s| && s[begin] != '['
    ensures begin <= it <= |s| && (state == 1 || state == 2)
    ensures ReadHost(s[begin..]) == Some(Host(host, state == 1, s[it..]))
  {
    ghost var t := s[begin..];
    ghost var k := Until(t, {':', '/'});
    host, it, state := "", begin, 0;
    while state == 0
      invariant begin <= it <= |s| && state <= 2
      invariant state == 0 ==> it <= begin + k && host == s[begin..it]
      invariant state != 0 ==> host == t[..k]
      invariant state != 0 ==> if k == |t| then state == 2 && it == |s|
                               else it == begin + k + 1 && state == if t[k] == ':' then 1 else 2
      decreases state == 0, |s| - it
    {
      if it == |s| {
        assert t[..k] == s[begin..it];
        state := 2;
        break;
      } else if s[it] == '/' {
        assert k == it - begin by { assert t[it - begin] == '/'; }
        assert t[..k] == s[begin..it];
        state := 2;
      } else if s[it] == ':' {
        assert k == it - begin by { assert t[it - begin] == ':'; }
        assert t[..k] == s[begin..it];
        state := 1;
      } else {
        assert t[it - begin] == s[it];
        assert s[begin..it] + [s[it]] == s[begin..it + 1];
        host := host + [s[it]];
      }
      it := it + 1;
    }
    if k < |t| {
      assert t[k + 1..] == s[it..];
    } else {
      assert t[..k] == t && s[it..] == [];
    }
  }

  /** The text of a port: up to a slash, which is passed over, or the end. */
  method ReadPort(s: string, begin: nat) returns (text: string, it: nat)
    requires begin <= |s|
    ensures begin <= it <= |s| && PortText(s[begin..]) == (text, s[it..])
  {
    ghost var t := s[begin..];
    ghost var k := Until(t, {'/'});
    var state := 1;
    text, it := "", begin;
    while state == 1
      invariant begin <= it <= |s|
      invariant state == 1 ==> it <= begin + k && text == s[begin..it]
      invariant state != 1 ==> k < |t| && it == begin + k + 1 && text == t[..k]
      decreases state == 1, |s| - it
    {
      if it == |s| {
        break;
      } else if s[it] == '/' {
        assert k == it - begin by { assert t[it - begin] == '/'; }
        assert t[..k] == s[begin..it];
        state := 3;
      } else {
        assert t[it - begin] == s[it];
        assert s[begin..it] + [s[it]] == s[begin..it + 1];
        text := text + [s[it]];
      }
      it := it + 1;
    }
    if state == 1 {
      assert t[..k] == t == s[begin..it] && s[it..] == [];
    } else {
      assert t[k + 1..] == s[it..];
    }
  }

  method ReadScheme(s: string) returns (secure: bool, scheme: string, it: nat)
    ensures match SchemeOf(s)
      case None => it == 0
      case Some(name) => scheme == name && it == |scheme| + 3 && secure == IsSecure(scheme)
  {
    if |s| >= 7 && s[..6] == "wss://" {
      secure, scheme, it := true, "wss", 6;
    } else if |s| >= 6 && s[..5] == "ws://" {
      secure, scheme, it := false, "ws", 5;
    } else if |s| >= 8 && s[..7] == "http://" {
      secure, scheme, it := false, "http", 7;
    } else if |s| >= 9 && s[..8] == "https://" {
      secure, scheme, it := true, "https", 8;
    } else {
      secure, scheme, it := false, "", 0;
    }
  }

  /** What comes after the scheme. */
  method ReadRest(s: string, begin: nat, secure: bool) returns (ok: bool, host: string, port: nat, resource: string)
    requires begin < |s|
    ensures match ReadHost(s[begin..])
      case None => !ok
      case Some(h) => AfterHost(secure, h) == if ok then Some((host, port, resource)) else None
  {
    hide ReadHost, PortFrom, PortText;
    var it, state;
    host, port, resource := "", 0, "";
    if s[begin] == '[' {
      ok, host, it, state := ReadBracketed(s, begin);
      if !ok { return; }
    } else {
      host, it, state := ReadPlain(s, begin);
    }
    var text := "";
    if state == 1 {
      text, it := ReadPort(s, it);
    }
    var number := PortFrom(text, secure);
    if number == None { return false, host, port, resource; }
    resource := "/";
    resource := resource + s[it..];
    return true, host, number.value, resource;
  }

  method ReadUri(s: string)
    returns (valid: bool, secure: bool, scheme: string, host: string, port: nat, resource: string)
    ensures Parse(s) == if valid then Some(Parts(scheme, secure, host, port, resource)) else None
  {
    hide Parse, ReadHost, AfterHost, SchemeOf, IsSecure;
    ParseBySteps(s);
    var it;
    secure, scheme, it := ReadScheme(s);
    host, port, resource := "", 0, "";
    if it == 0 { return false, secure, scheme, host, port, resource; }
    valid, host, port, resource := ReadRest(s, it, secure);
  }

  class Uri {
    var scheme: string
    var host: string
    var resource: string
    var port: nat
    var secure: bool
    var valid: bool

    function Value(): Parts
      reads this
    {
      Parts(scheme, secure, host, port, resource)
    }

    /** Parses s; the fields mean nothing unless the URI is valid. */
    constructor (s: string)
      ensures valid <==> Parse(s).Some?
      ensures valid ==> Value() == Parse(s).value
    {
      scheme, host, resource, port, secure, valid := "", "", "", 0, false, false;
      new;
      hide Parse;
      valid, secure, scheme, host, port, resource := ReadUri(s);
    }
  }

  lemma ParseBySteps(s: string)
    ensures SchemeOf(s) == None ==> Parse(s) == None
    ensures SchemeOf(s).Some? ==>
              var scheme := SchemeOf(s).value;
              var h := ReadHost(s[|scheme| + 3..]);
              && (h == None ==> Parse(s) == None)
              && (h.Some? ==> match AfterHost(IsSecure(scheme), h.value)
                              case None => Parse(s) == None
                              case Some((host, port, resource)) =>
                                Parse(s) == Some(Parts(scheme, IsSecure(scheme), host, port, resource)))
  {
    hide ReadHost, AfterHost, SchemeOf;
  }
}
