/**
 The query part of URL normalization: parse into name/value pairs, order by name, print.
 Go groups the values in a map and prints the map by sorted name; a stable sort of the
 pairs by name is the same thing, because a name's values keep their order.
 */
module QueryString {
  import opened Options
  import opened Text

  /** Go strings are bytes; a character here is one byte. */
  ghost predicate IsBytes(s: string) {
    forall i :: 0 <= i < |s| ==> s[i] < 256 as char
  }

  datatype Param = Param(name: string, value: string)

  ghost predicate ParamsAreBytes(ps: seq<Param>) {
    forall p :: p in ps ==> IsBytes(p.name) && IsBytes(p.value)
  }

  // ---------- Percent escaping of one component ----------

  predicate Unreserved(c: char) {
    'a' <= c <= 'z' || 'A' <= c <= 'Z' || '0' <= c <= '9' || c == '-' || c == '_' || c == '.' || c == '~'
  }

  function HexDigit(n: nat): char
    requires n < 16
  {
    if n < 10 then '0' + n as char else 'A' + (n - 10) as char
  }

  predicate IsHex(c: char) {
    '0' <= c <= '9' || 'a' <= c <= 'f' || 'A' <= c <= 'F'
  }

  function HexValue(c: char): (n: nat)
    requires IsHex(c)
    ensures n < 16
  {
    if c <= '9' then (c - '0') as int else if c <= 'F' then (c - 'A') as int + 10 else (c - 'a') as int + 10
  }

  function EscapeChar(c: char): string {
    if Unreserved(c) then [c]
    else if c == ' ' then "+"
    else if c < 256 as char then ['%', HexDigit(c as int / 16), HexDigit(c as int % 16)]
    else [c]
  }

  function Escape(s: string): string {
    if s == "" then "" else EscapeChar(s[0]) + Escape(s[1..])
  }

  function Unescape(s: string): Option<string>
    decreases |s|
  {
    if s == "" then Some("")
    else if s[0] == '%' then
      if |s| < 3 || !IsHex(s[1]) || !IsHex(s[2]) then None
      else match Unescape(s[3..])
        case None => None
        case Some(rest) => Some([(16 * HexValue(s[1]) + HexValue(s[2])) as char] + rest)
    else match Unescape(s[1..])
      case None => None
      case Some(rest) => Some([if s[0] == '+' then ' ' else s[0]] + rest)
  }

  lemma {:induction false} HexRoundTrip(n: nat)
    requires n < 16
    ensures IsHex(HexDigit(n)) && HexValue(HexDigit(n)) == n
  {
  }

  lemma {:induction false} UnescapeEscapedChar(c: char, rest: string)
    requires c < 256 as char && Unescape(rest).Some?
    ensures Unescape(EscapeChar(c) + rest) == Some([c] + Unescape(rest).value)
  {
    var e := EscapeChar(c);
    if !Unreserved(c) && c != ' ' {
      HexRoundTrip(c as int / 16);
      HexRoundTrip(c as int % 16);
      assert (e + rest)[3..] == rest;
    } else {
      assert (e + rest)[1..] == rest;
    }
  }

  lemma {:induction false} UnescapeEscape(s: string)
    requires IsBytes(s)
    ensures Unescape(Escape(s)) == Some(s)
  {
    if s != "" {
      UnescapeEscape(s[1..]);
      UnescapeEscapedChar(s[0], Escape(s[1..]));
      assert s == [s[0]] + s[1..];
    }
  }

  /** An escaped component holds none of the characters that delimit components. */
  lemma {:induction false} EscapedHasNoDelimiter(s: string)
    requires IsBytes(s)
    ensures '&' !in Escape(s) && '=' !in Escape(s) && ';' !in Escape(s)
  {
    if s != "" {
      EscapedHasNoDelimiter(s[1..]);
    }
  }

  // ---------- Parsing ----------

  /** One `name=value` piece; malformed pieces and empty ones are skipped. */
  function ParsePiece(piece: string): seq<Param> {
    if ';' in piece || piece == "" then []
    else
      var kv := Cut(piece, '=');
      match (Unescape(kv.0), Unescape(kv.1))
      case (Some(name), Some(value)) => [Param(name, value)]
      case _ => []
  }

  function Parse(query: string): seq<Param>
    decreases |query|
  {
    if query == "" then []
    else
      var r := Cut(query, '&');
      ParsePiece(r.0) + (if '&' in query then Parse(r.1) else [])
  }

  // ---------- Printing ----------

  function PrintParam(p: Param): string {
    Escape(p.name) + "=" + Escape(p.value)
  }

  function Print(ps: seq<Param>): string {
    if ps == [] then ""
    else if |ps| == 1 then PrintParam(ps[0])
    else PrintParam(ps[0]) + "&" + Print(ps[1..])
  }

  lemma {:induction false} ParsePrintedParam(p: Param)
    requires IsBytes(p.name) && IsBytes(p.value)
    ensures ParsePiece(PrintParam(p)) == [p] && '&' !in PrintParam(p) && PrintParam(p) != ""
  {
    EscapedHasNoDelimiter(p.name);
    EscapedHasNoDelimiter(p.value);
    CutAt(Escape(p.name), '=', Escape(p.value));
    UnescapeEscape(p.name);
    UnescapeEscape(p.value);
  }

  /** Decoding what was encoded gives the pairs back, in order. */
  lemma {:induction false} ParsePrint(ps: seq<Param>)
    requires ParamsAreBytes(ps)
    ensures Parse(Print(ps)) == ps
  {
    if ps != [] {
      ParsePrintedParam(ps[0]);
      if |ps| > 1 {
        ParsePrint(ps[1..]);
        CutAt(PrintParam(ps[0]), '&', Print(ps[1..]));
        assert Print(ps) == PrintParam(ps[0]) + ['&'] + Print(ps[1..]);
        assert ps == [ps[0]] + ps[1..];
      }
    }
  }

  // ---------- Ordering by name ----------

  /** Go's order on strings: bytewise, a proper prefix first. */
  predicate Before(a: string, b: string) {
    b != "" && (a == "" || a[0] < b[0] || (a[0] == b[0] && Before(a[1..], b[1..])))
  }

  lemma {:induction false} BeforeIsTotal(a: string, b: string)
    ensures a == b || Before(a, b) || Before(b, a)
    ensures !(Before(a, b) && Before(b, a)) && !Before(a, a)
  {
    if a != "" && b != "" {
      BeforeIsTotal(a[1..], b[1..]);
      assert a == [a[0]] + a[1..] && b == [b[0]] + b[1..];
    }
    if a != "" { BeforeIsTotal(a[1..], a[1..]); }
  }

  lemma {:induction false} BeforeIsTransitive(a: string, b: string, c: string)
    requires Before(a, b) && Before(b, c)
    ensures Before(a, c)
  {
    if a != "" && b[0] == a[0] && c[0] == b[0] {
      BeforeIsTransitive(a[1..], b[1..], c[1..]);
    }
  }

  /** Puts `p` before everything whose name is not smaller, so equal names keep their order. */
  function Insert(p: Param, ps: seq<Param>): seq<Param> {
    if ps == [] || !Before(ps[0].name, p.name) then [p] + ps
    else [ps[0]] + Insert(p, ps[1..])
  }

  function SortByName(ps: seq<Param>): seq<Param> {
    if ps == [] then [] else Insert(ps[0], SortByName(ps[1..]))
  }

  /** The values given for a name, in order. */
  function ValuesOf(name: string, ps: seq<Param>): seq<string> {
    if ps == [] then []
    else (if ps[0].name == name then [ps[0].value] else []) + ValuesOf(name, ps[1..])
  }

  ghost predicate SortedByName(ps: seq<Param>) {
    forall i, j :: 0 <= i && j == i + 1 < |ps| ==> !Before(ps[j].name, ps[i].name)
  }

  lemma {:induction false} InsertFacts(p: Param, ps: seq<Param>, name: string)
    requires SortedByName(ps)
    ensures SortedByName(Insert(p, ps))
    ensures Insert(p, ps) != [] && (Insert(p, ps)[0] == p || (ps != [] && Insert(p, ps)[0] == ps[0]))
    ensures ValuesOf(name, Insert(p, ps)) == (if p.name == name then [p.value] else []) + ValuesOf(name, ps)
    ensures forall q :: q in Insert(p, ps) <==> q == p || q in ps
  {
    if ps == [] || !Before(ps[0].name, p.name) {
      assert ([p] + ps)[1..] == ps;
    } else {
      InsertFacts(p, ps[1..], name);
      BeforeIsTotal(ps[0].name, p.name);
      var rest := Insert(p, ps[1..]);
      assert ([ps[0]] + rest)[1..] == rest;
      HeadKeepsSorted(ps[0], rest);
    }
  }

  lemma {:induction false} HeadKeepsSorted(p: Param, rest: seq<Param>)
    requires SortedByName(rest) && (rest != [] ==> !Before(rest[0].name, p.name))
    ensures SortedByName([p] + rest)
  {
    var all := [p] + rest;
    forall i, j | 0 <= i && j == i + 1 < |all| ensures !Before(all[j].name, all[i].name) {
      if i > 0 { assert !Before(rest[j - 1].name, rest[i - 1].name); }
    }
  }

  ghost predicate SameValues(ps: seq<Param>, qs: seq<Param>) {
    forall name :: ValuesOf(name, ps) == ValuesOf(name, qs)
  }

  lemma {:induction false} SortFacts(ps: seq<Param>)
    ensures SortedByName(SortByName(ps))
    ensures SameValues(SortByName(ps), ps)
    ensures forall q :: q in SortByName(ps) <==> q in ps
  {
    if ps != [] {
      SortFacts(ps[1..]);
      InsertFacts(ps[0], SortByName(ps[1..]), "");
      forall name ensures ValuesOf(name, SortByName(ps)) == ValuesOf(name, ps) {
        InsertFacts(ps[0], SortByName(ps[1..]), name);
      }
    }
  }

  /** The head of a sorted list has the smallest name in it. */
  lemma {:induction false} HeadIsSmallest(ps: seq<Param>, q: Param)
    requires SortedByName(ps) && q in ps
    ensures !Before(q.name, ps[0].name)
  {
    BeforeIsTotal(ps[0].name, ps[0].name);
    if q != ps[0] {
      assert q in ps[1..];
      HeadIsSmallest(ps[1..], q);
      assert !Before(ps[1].name, ps[0].name);
      if Before(q.name, ps[0].name) {
        BeforeIsTotal(ps[0].name, ps[1].name);
        if Before(ps[0].name, ps[1].name) { BeforeIsTransitive(q.name, ps[0].name, ps[1].name); }
      }
    }
  }

  lemma {:induction false} NamedIffValues(ps: seq<Param>, name: string)
    ensures ValuesOf(name, ps) != [] <==> exists q :: q in ps && q.name == name
  {
    if ps != [] {
      NamedIffValues(ps[1..], name);
      if q :| q in ps && q.name == name {
        if q.name != ps[0].name { assert q in ps[1..]; }
      }
    }
  }

  /** A list sorted by name is determined by the values it gives each name. */
  lemma {:induction false} SortedIsDetermined(ps: seq<Param>, qs: seq<Param>)
    requires SortedByName(ps) && SortedByName(qs)
    requires SameValues(ps, qs)
    ensures ps == qs
  {
    if ps == [] || qs == [] {
      if ps != [] { NamedIffValues(ps, ps[0].name); }
      if qs != [] { NamedIffValues(qs, qs[0].name); }
    } else {
      SameHeadName(ps, qs);
      var name := ps[0].name;
      assert ValuesOf(name, ps)[0] == ps[0].value && ValuesOf(name, qs)[0] == qs[0].value;
      forall other ensures ValuesOf(other, ps[1..]) == ValuesOf(other, qs[1..]) {
        assert ValuesOf(other, ps) == ValuesOf(other, qs);
        if other == name {
          assert ValuesOf(name, ps)[1..] == ValuesOf(name, ps[1..]);
          assert ValuesOf(name, qs)[1..] == ValuesOf(name, qs[1..]);
        } else {
          assert ValuesOf(other, ps) == ValuesOf(other, ps[1..]);
          assert ValuesOf(other, qs) == ValuesOf(other, qs[1..]);
        }
      }
      SortedIsDetermined(ps[1..], qs[1..]);
      assert ps == [ps[0]] + ps[1..] && qs == [qs[0]] + qs[1..];
    }
  }

  lemma {:induction false} SameHeadName(ps: seq<Param>, qs: seq<Param>)
    requires SortedByName(ps) && SortedByName(qs) && ps != [] && qs != []
    requires SameValues(ps, qs)
    ensures ps[0].name == qs[0].name
  {
    assert ps[0] in ps && qs[0] in qs;
    NamedIffValues(ps, ps[0].name);
    NamedIffValues(qs, ps[0].name);
    NamedIffValues(qs, qs[0].name);
    NamedIffValues(ps, qs[0].name);
    var p :| p in ps && p.name == qs[0].name;
    var q :| q in qs && q.name == ps[0].name;
    HeadIsSmallest(ps, p);
    HeadIsSmallest(qs, q);
    BeforeIsTotal(ps[0].name, qs[0].name);
  }

  // ---------- The whole transformation ----------

  function NormalizeQuery(raw: string): string {
    Print(SortByName(Parse(raw)))
  }

  lemma {:induction false} UnescapedIsBytes(s: string)
    requires IsBytes(s)
    ensures Unescape(s).Some? ==> IsBytes(Unescape(s).value)
    decreases |s|
  {
    if s != "" {
      if s[0] == '%' {
        if |s| >= 3 { UnescapedIsBytes(s[3..]); }
      } else {
        UnescapedIsBytes(s[1..]);
      }
    }
  }

  lemma {:induction false} ParsedIsBytes(raw: string)
    requires IsBytes(raw)
    ensures ParamsAreBytes(Parse(raw))
    decreases |raw|
  {
    if raw != "" {
      var r := Cut(raw, '&');
      var kv := Cut(r.0, '=');
      PartsAreBytes(raw, '&');
      PartsAreBytes(r.0, '=');
      UnescapedIsBytes(kv.0);
      UnescapedIsBytes(kv.1);
      if '&' in raw { ParsedIsBytes(r.1); }
    }
  }

  lemma {:induction false} PartsAreBytes(s: string, c: char)
    requires IsBytes(s)
    ensures IsBytes(Cut(s, c).0) && IsBytes(Cut(s, c).1)
  {
    var r := Cut(s, c);
    if c in s {
      assert forall i :: 0 <= i < |r.0| ==> r.0[i] == s[i];
      assert forall i :: 0 <= i < |r.1| ==> r.1[i] == s[|r.0| + 1 + i];
    }
  }

  lemma {:induction false} ParseNormalized(raw: string)
    requires IsBytes(raw)
    ensures Parse(NormalizeQuery(raw)) == SortByName(Parse(raw))
  {
    ParsedIsBytes(raw);
    SortFacts(Parse(raw));
    ParsePrint(SortByName(Parse(raw)));
  }

  /** Normalizing keeps the value list of every name, and a second pass changes nothing. */
  lemma {:induction false} NormalizeQueryIdempotent(raw: string)
    requires IsBytes(raw)
    ensures SameValues(Parse(NormalizeQuery(raw)), Parse(raw))
    ensures NormalizeQuery(NormalizeQuery(raw)) == NormalizeQuery(raw)
  {
    ParseNormalized(raw);
    var sorted := SortByName(Parse(raw));
    SortFacts(Parse(raw));
    SortFacts(sorted);
    SortedIsDetermined(SortByName(sorted), sorted);
  }

  /**
   Two queries normalize alike exactly when they give every name the same values in the same
   order: differently named parameters may be reordered, repeated ones may not.
   */
  lemma {:induction false} NormalizeQueryIdentifies(a: string, b: string)
    requires IsBytes(a) && IsBytes(b)
    ensures NormalizeQuery(a) == NormalizeQuery(b) <==> SameValues(Parse(a), Parse(b))
  {
    ParseNormalized(a);
    ParseNormalized(b);
    SortFacts(Parse(a));
    SortFacts(Parse(b));
    if SameValues(Parse(a), Parse(b)) {
      SortedIsDetermined(SortByName(Parse(a)), SortByName(Parse(b)));
    }
  }

  // ---------- What the pieces are ----------

  /** Both cases of a hexadecimal digit have its value, and nothing else does. */
  lemma {:induction false} HexValueExactly(c: char, n: nat)
    requires n < 16
    ensures IsHex(c) && HexValue(c) == n <==> c == HexDigit(n) || c == LowerChar(HexDigit(n))
  {
  }

  /** Outside of escapes a plus is read as a space and everything else as itself. */
  lemma {:induction false} UnescapeByCharacter(c: char, rest: string)
    requires c != '%' && Unescape(rest).Some?
    ensures Unescape([c] + rest) == Some([if c == '+' then ' ' else c] + Unescape(rest).value)
  {
    assert ([c] + rest)[1..] == rest;
  }

  /** An escaped text is written in letters, digits, and the characters `-`, `_`, `.`, `~`, `+` and `%`. */
  lemma {:induction false} EscapedAlphabet(s: string)
    requires IsBytes(s)
    ensures forall c :: c in Escape(s) ==>
      'a' <= c <= 'z' || 'A' <= c <= 'Z' || '0' <= c <= '9' || c in {'-', '_', '.', '~', '+', '%'}
  {
    if s != "" {
      EscapedAlphabet(s[1..]);
    }
  }

  /** An ampersand separates: the parameters of a query are those before it and those after it. */
  lemma {:induction false} ParseAtAmpersand(a: string, b: string)
    ensures Parse(a + "&" + b) == Parse(a) + Parse(b)
    decreases |a|
  {
    var s := a + "&" + b;
    if '&' in a {
      var r := Cut(a, '&');
      assert s == r.0 + ['&'] + (r.1 + "&" + b);
      CutAt(r.0, '&', r.1 + "&" + b);
      ParseAtAmpersand(r.1, b);
      assert Parse(s) == ParsePiece(r.0) + (Parse(r.1) + Parse(b));
    } else {
      assert s == a + ['&'] + b;
      CutAt(a, '&', b);
    }
  }

  /**
   One piece is one parameter, named by what stands before its first `=` or by all of it when
   there is none; a piece that is empty, holds a `;` or is badly escaped is none.
   */
  lemma {:induction false} ParseOnePiece(name: string, value: string)
    requires '&' !in name && '&' !in value && '=' !in name
    ensures Parse(name) == (
      if name == "" || ';' in name || Unescape(name).None? then [] else [Param(Unescape(name).value, "")])
    ensures Parse(name + "=" + value) == (
      if ';' in name || ';' in value || Unescape(name).None? || Unescape(value).None? then []
      else [Param(Unescape(name).value, Unescape(value).value)])
  {
    var piece := name + "=" + value;
    assert piece == name + ['='] + value;
    CutAt(name, '=', value);
    assert '&' !in piece && (';' in piece <==> ';' in name || ';' in value);
  }

  /** Names are ordered bytewise: at the first difference, or the shorter first when there is none. */
  lemma {:induction false} BeforeExactly(a: string, b: string)
    ensures Before(a, b) <==> exists n: nat :: DiffersFirstAt(a, b, n)
  {
    if a != "" && b != "" && a[0] == b[0] {
      BeforeExactly(a[1..], b[1..]);
      if n: nat :| DiffersFirstAt(a[1..], b[1..], n) {
        assert a[..n + 1] == [a[0]] + a[1..][..n] && b[..n + 1] == [b[0]] + b[1..][..n];
        assert DiffersFirstAt(a, b, n + 1);
      }
      if n: nat :| DiffersFirstAt(a, b, n) {
        assert a[..n][0] == a[0] && b[..n][0] == b[0];
        assert a[..n][1..] == a[1..][..n - 1] && b[..n][1..] == b[1..][..n - 1];
        assert DiffersFirstAt(a[1..], b[1..], n - 1);
      }
    } else {
      if Before(a, b) { assert DiffersFirstAt(a, b, 0); }
      forall n: nat | 0 < n <= |a| && n <= |b| ensures a[..n] != b[..n] {
        assert a[..n][0] != b[..n][0];
      }
    }
  }

  predicate DiffersFirstAt(a: string, b: string, n: nat) {
    n <= |a| && n < |b| && a[..n] == b[..n] && (n == |a| || a[n] < b[n])
  }
}
