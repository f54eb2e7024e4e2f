/** URL normalization for deduplication, on the components a URL parses into. */
module UrlNormalization {
  import opened Options
  import opened Text
  import opened TextLaws
  import opened QueryString

  /**
   A parsed URL. `host` is the authority without user information, as text; `path` stands for
   the path in whichever escaping it arrived; `forceQuery` records a bare trailing `?`.
   */
  datatype URL = URL(scheme: string, hasUser: bool, host: string, path: string,
                     forceQuery: bool, rawQuery: string, fragment: string)

  // ---------- The host text ----------

  predicate AllDigits(s: string) {
    forall i :: 0 <= i < |s| ==> '0' <= s[i] <= '9'
  }

  function LastIndex(s: string, c: char): (r: int)
    ensures -1 <= r < |s|
    ensures r >= 0 ==> s[r] == c
    ensures forall j :: r < j < |s| ==> s[j] != c
  {
    if s == "" then -1
    else if s[|s| - 1] == c then |s| - 1
    else LastIndex(s[..|s| - 1], c)
  }

  /** Splits at the last colon when only digits follow it. */
  function SplitPort(host: string): (string, string) {
    var colon := LastIndex(host, ':');
    if colon >= 0 && AllDigits(host[colon + 1..]) then (host[..colon], host[colon + 1..]) else (host, "")
  }

  function StripBrackets(name: string): string {
    if |name| >= 2 && name[0] == '[' && name[|name| - 1] == ']' then name[1..|name| - 1] else name
  }

  function SplitHost(host: string): (string, string) {
    (StripBrackets(SplitPort(host).0), SplitPort(host).1)
  }

  function TrimBrackets(s: string): string {
    if s != "" && (s[0] == '[' || s[0] == ']') then TrimBrackets(s[1..])
    else if s != "" && (s[|s| - 1] == '[' || s[|s| - 1] == ']') then TrimBrackets(s[..|s| - 1])
    else s
  }

  function JoinHostPort(name: string, port: string): string {
    if ':' in name then "[" + name + "]:" + port else name + ":" + port
  }

  function DropDefaultPort(scheme: string, port: string): string {
    if (scheme == "http" && port == "80") || (scheme == "https" && port == "443") then "" else port
  }

  /** The host text written back for a lower-case name and the port that is kept. */
  function HostText(name: string, port: string): string {
    var bracketed := if ':' in name then "[" + name + "]" else name;
    if port != "" then JoinHostPort(TrimBrackets(bracketed), port) else bracketed
  }

  function NormalizeHost(scheme: string, host: string): string {
    var (name, port) := SplitHost(host);
    HostText(ToLower(name), DropDefaultPort(scheme, port))
  }

  /** What URL parsing delivers: brackets only around the whole name. */
  predicate WellFormedHost(host: string) {
    '[' !in SplitHost(host).0 && ']' !in SplitHost(host).0
  }

  lemma {:induction false} BracketsComeOff(name: string)
    requires '[' !in name && ']' !in name
    ensures TrimBrackets(name) == name && TrimBrackets("[" + name + "]") == name
    ensures StripBrackets(name) == name && StripBrackets("[" + name + "]") == name
  {
    if name != "" {
      assert name[0] in name && name[|name| - 1] in name;
    }
    assert TrimBrackets(name) == name;
    var b := "[" + name + "]";
    assert b[1..] == name + "]" && (name + "]")[..|name|] == name;
    assert b[1..|b| - 1] == name;
    var open := name + "]";
    assert open[|open| - 1] == ']' && open[..|open| - 1] == name;
    if name != "" { assert open[0] == name[0]; }
    assert TrimBrackets(open) == name;
  }

  lemma {:induction false} SplitAtPort(front: string, port: string)
    requires AllDigits(port)
    ensures SplitPort(front + ":" + port) == (front, port)
  {
    var host := front + ":" + port;
    assert host[|front|] == ':';
    assert forall j :: |front| < j < |host| ==> host[j] == port[j - |front| - 1];
    assert host[..|front|] == front && host[|front| + 1..] == port;
  }

  lemma {:induction false} SplitWithoutPort(host: string)
    requires ':' !in host || host[|host| - 1] == ']'
    ensures SplitPort(host) == (host, "")
  {
    var colon := LastIndex(host, ':');
    if colon >= 0 {
      assert host[colon] in host;
      var tail := host[colon + 1..];
      assert tail[|tail| - 1] == host[|host| - 1];
    }
  }

  /** Splitting the text written for a name and a port gives them back. */
  lemma {:induction false} SplitHostText(name: string, port: string)
    requires '[' !in name && ']' !in name && AllDigits(port)
    ensures SplitHost(HostText(name, port)) == (name, port)
  {
    BracketsComeOff(name);
    var front := if ':' in name then "[" + name + "]" else name;
    if port != "" {
      assert HostText(name, port) == front + ":" + port;
      SplitAtPort(front, port);
    } else {
      assert ':' in name ==> front[|front| - 1] == ']';
      SplitWithoutPort(front);
    }
  }

  lemma {:induction false} SplitPortIsDigits(host: string)
    ensures AllDigits(SplitHost(host).1)
  {
  }

  lemma {:induction false} LowerKeepsBracketFree(name: string)
    requires '[' !in name && ']' !in name
    ensures '[' !in ToLower(name) && ']' !in ToLower(name) && ToLower(ToLower(name)) == ToLower(name)
  {
    var l := ToLower(name);
    forall i | 0 <= i < |l| ensures l[i] != '[' && l[i] != ']' && LowerChar(l[i]) == l[i] {
      assert l[i] == LowerChar(name[i]) && name[i] in name;
    }
    assert ToLower(l) == l;
  }

  // ---------- The whole URL ----------

  function Normalize(u: URL): Option<URL> {
    if u.scheme == "" || u.host == "" || u.hasUser then None
    else
      var scheme := ToLower(u.scheme);
      Some(URL(scheme, false, NormalizeHost(scheme, u.host), if u.path == "" then "/" else u.path,
               u.forceQuery, NormalizeQuery(u.rawQuery), ""))
  }

  /** The port that distinguishes this URL from others: empty when absent or the scheme's default. */
  function KeptPort(u: URL): string {
    DropDefaultPort(ToLower(u.scheme), SplitHost(u.host).1)
  }

  ghost predicate Parsed(u: URL) {
    WellFormedHost(u.host) && IsBytes(u.rawQuery)
  }

  /** What normalization leaves of the host, as the next pass will read it. */
  lemma {:induction false} NormalizedHost(u: URL)
    requires Parsed(u) && Normalize(u).Some?
    ensures SplitHost(Normalize(u).value.host) == (ToLower(SplitHost(u.host).0), KeptPort(u))
    ensures Normalize(u).value.host == "" <==> SplitHost(u.host).0 == "" && KeptPort(u) == ""
  {
    var name := SplitHost(u.host).0;
    LowerKeepsBracketFree(name);
    SplitPortIsDigits(u.host);
    BracketsComeOff(ToLower(name));
    SplitHostText(ToLower(name), KeptPort(u));
  }

  lemma {:induction false} LowerIdempotent(s: string)
    ensures ToLower(ToLower(s)) == ToLower(s)
  {
  }

  /**
   Normalizing twice is normalizing once exactly when something is left of the host. `http://:80/x`
   has a host, but dropping its default port leaves none and the second pass rejects the URL.
   */
  lemma {:induction false} NormalizeIdempotentExactly(u: URL)
    requires Parsed(u) && Normalize(u).Some?
    ensures Normalize(Normalize(u).value) == Normalize(u) <==> SplitHost(u.host).0 != "" || KeptPort(u) != ""
  {
    NormalizedHost(u);
    NormalizeQueryIdempotent(u.rawQuery);
    LowerIdempotent(u.scheme);
    LowerIdempotent(SplitHost(u.host).0);
  }

  /**
   Two URLs normalize alike exactly when they agree up to case of scheme and host, the scheme's
   default port, an empty path, the fragment, and the order of differently named parameters.
   */
  lemma {:induction false} NormalizeIdentifies(u: URL, v: URL)
    requires Parsed(u) && Parsed(v) && Normalize(u).Some? && Normalize(v).Some?
    ensures Normalize(u) == Normalize(v) <==>
      && ToLower(u.scheme) == ToLower(v.scheme)
      && ToLower(SplitHost(u.host).0) == ToLower(SplitHost(v.host).0)
      && KeptPort(u) == KeptPort(v)
      && (u.path == v.path || (u.path in {"", "/"} && v.path in {"", "/"}))
      && u.forceQuery == v.forceQuery
      && SameValues(Parse(u.rawQuery), Parse(v.rawQuery))
  {
    NormalizedHost(u);
    NormalizedHost(v);
    NormalizeQueryIdentifies(u.rawQuery, v.rawQuery);
  }

  lemma {:induction false} DefaultPortOnlyHost()
    ensures var u := URL("http", false, ":80", "/x", false, "", "");
      Parsed(u) && Normalize(u).Some? && Normalize(Normalize(u).value) == None
  {
    var u := URL("http", false, ":80", "/x", false, "", "");
    assert LastIndex(":80", ':') == 0;
    assert ":80"[1..] == "80";
    assert SplitHost(":80") == ("", "80");
    assert ToLower("http") == "http";
    NormalizedHost(u);
  }

  // ---------- What is normal ----------

  /** A port is dropped exactly when there is none, or 80 under http, or 443 under https. */
  lemma {:induction false} KeptPortExactly(u: URL)
    ensures var port := SplitHost(u.host).1;
      KeptPort(u) == if SameUpToCase(u.scheme, "http") && port == "80" then ""
                     else if SameUpToCase(u.scheme, "https") && port == "443" then ""
                     else port
  {
    CasesExactly(u.scheme, "http");
    CasesExactly(u.scheme, "https");
    assert ToLower("http") == "http" && ToLower("https") == "https";
  }

  predicate NoCapitals(s: string) {
    forall i :: 0 <= i < |s| ==> !('A' <= s[i] <= 'Z')
  }

  lemma {:induction false} LoweredExactly(s: string)
    ensures ToLower(s) == s <==> NoCapitals(s)
  {
    if ToLower(s) == s {
      assert forall i :: 0 <= i < |s| ==> s[i] == ToLower(s)[i] == LowerChar(s[i]);
    }
  }

  /** What normalization leaves alone. */
  ghost predicate IsNormal(u: URL) {
    && u.scheme != "" && NoCapitals(u.scheme) && !u.hasUser
    && u.host != "" && NoCapitals(SplitHost(u.host).0) && KeptPort(u) == SplitHost(u.host).1
    && u.host == HostText(SplitHost(u.host).0, SplitHost(u.host).1)
    && u.path != "" && u.fragment == ""
    && SortedByName(Parse(u.rawQuery)) && u.rawQuery == Print(Parse(u.rawQuery))
  }

  lemma {:induction false} NormalQueryExactly(raw: string)
    requires IsBytes(raw)
    ensures NormalizeQuery(raw) == raw <==> SortedByName(Parse(raw)) && raw == Print(Parse(raw))
  {
    ParseNormalized(raw);
    SortFacts(Parse(raw));
    if SortedByName(Parse(raw)) {
      SortedIsDetermined(SortByName(Parse(raw)), Parse(raw));
    }
  }

  /**
   A URL is its own normal form exactly when scheme and host are in lower case, the host is written
   plainly with no default port, path and no fragment are there, and the query is encoded and sorted.
   */
  lemma {:induction false} NormalExactly(u: URL)
    requires Parsed(u)
    ensures Normalize(u) == Some(u) <==> IsNormal(u)
  {
    LoweredExactly(u.scheme);
    LoweredExactly(SplitHost(u.host).0);
    NormalQueryExactly(u.rawQuery);
    if Normalize(u) == Some(u) {
      NormalizedHost(u);
    }
  }
}
