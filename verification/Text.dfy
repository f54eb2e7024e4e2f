/** ASCII models of the string functions the server takes from its standard library. */
module Text {

  predicate IsSpace(c: char) {
    c == ' ' || '\t' <= c <= '\r'
  }

  predicate IsUpper(c: char) {
    'A' <= c <= 'Z'
  }

  function LowerChar(c: char): char {
    if IsUpper(c) then c + 32 as char else c
  }

  function UpperChar(c: char): char {
    if 'a' <= c <= 'z' then c - 32 as char else c
  }

  function ToLower(s: string): string {
    seq(|s|, i requires 0 <= i < |s| => LowerChar(s[i]))
  }

  function ToUpper(s: string): string {
    seq(|s|, i requires 0 <= i < |s| => UpperChar(s[i]))
  }

  predicate Contains(s: string, part: string) {
    exists i {:trigger s[i..]} :: 0 <= i <= |s| && part <= s[i..]
  }

  predicate HasSuffix(s: string, suffix: string) {
    |suffix| <= |s| && s[|s| - |suffix|..] == suffix
  }

  function TrimLeft(s: string): string {
    if s != "" && IsSpace(s[0]) then TrimLeft(s[1..]) else s
  }

  function TrimRight(s: string): string {
    if s != "" && IsSpace(s[|s| - 1]) then TrimRight(s[..|s| - 1]) else s
  }

  function TrimSpace(s: string): string {
    TrimRight(TrimLeft(s))
  }

  predicate Blank(s: string) {
    TrimSpace(s) == ""
  }

  // ---------- Fields and Join ----------

  /** A non-empty run of characters none of which is a space. */
  predicate IsWord(w: string) {
    w != "" && forall i :: 0 <= i < |w| ==> !IsSpace(w[i])
  }

  /** Length of the run of non-space characters at the start. */
  function WordLength(s: string): (n: nat)
    ensures n <= |s| && (s != "" && !IsSpace(s[0]) ==> n > 0)
  {
    if s == "" || IsSpace(s[0]) then 0 else 1 + WordLength(s[1..])
  }

  /** The maximal runs of non-space characters, in order. */
  function Fields(s: string): seq<string>
    decreases |s|
  {
    if s == "" then []
    else if IsSpace(s[0]) then Fields(s[1..])
    else [s[..WordLength(s)]] + Fields(s[WordLength(s)..])
  }

  lemma {:induction false} WordLengthIsMaximal(s: string)
    ensures IsWord(s[..WordLength(s)]) || WordLength(s) == 0
    ensures WordLength(s) < |s| ==> IsSpace(s[WordLength(s)])
  {
    if s != "" && !IsSpace(s[0]) {
      WordLengthIsMaximal(s[1..]);
    }
  }

  lemma {:induction false} FieldsAreWords(s: string)
    ensures forall w :: w in Fields(s) ==> IsWord(w)
    decreases |s|
  {
    if s != "" {
      if IsSpace(s[0]) {
        FieldsAreWords(s[1..]);
      } else {
        WordLengthIsMaximal(s);
        FieldsAreWords(s[WordLength(s)..]);
      }
    }
  }

  function Join(ws: seq<string>, separator: string): string {
    if ws == [] then ""
    else if |ws| == 1 then ws[0]
    else ws[0] + separator + Join(ws[1..], separator)
  }

  /** What `Fields` followed by `Join` with a space returns unchanged. */
  predicate SingleSpaced(s: string) {
    && (s != "" ==> !IsSpace(s[0]) && !IsSpace(s[|s| - 1]))
    && (forall i :: 0 <= i < |s| && IsSpace(s[i]) ==> s[i] == ' ')
    && (forall i :: 0 <= i < |s| ==> SingleSpaceAt(s, i))
  }

  predicate SingleSpaceAt(s: string, i: nat)
    requires i < |s|
  {
    IsSpace(s[i]) && i + 1 < |s| ==> !IsSpace(s[i + 1])
  }

  lemma {:induction false} JoinedIsSingleSpaced(ws: seq<string>)
    requires forall w :: w in ws ==> IsWord(w)
    ensures SingleSpaced(Join(ws, " ")) && (ws != [] ==> Join(ws, " ") != "" && Join(ws, " ")[0] == ws[0][0])
  {
    if |ws| > 1 {
      var rest := Join(ws[1..], " ");
      JoinedIsSingleSpaced(ws[1..]);
      assert IsWord(ws[0]) && IsWord(ws[1]);
      SingleSpacedJoined(ws[0], rest);
    } else if |ws| == 1 {
      assert IsWord(ws[0]);
    }
  }

  lemma {:induction false} SingleSpacedJoined(word: string, rest: string)
    requires IsWord(word) && SingleSpaced(rest) && rest != ""
    ensures SingleSpaced(word + " " + rest)
  {
    var s := word + " " + rest;
    assert forall i :: 0 <= i < |rest| ==> s[|word| + 1 + i] == rest[i];
    forall i | 0 <= i < |s| ensures SingleSpaceAt(s, i) && (IsSpace(s[i]) ==> s[i] == ' ') {
      if |word| < i {
        assert s[i] == rest[i - |word| - 1] && SingleSpaceAt(rest, i - |word| - 1);
        if i + 1 < |s| { assert s[i + 1] == rest[i - |word|]; }
      }
    }
    assert s[|s| - 1] == rest[|rest| - 1];
  }

  lemma {:induction false} SingleSpacedIsFixed(s: string)
    requires SingleSpaced(s)
    ensures Join(Fields(s), " ") == s
    decreases |s|
  {
    if s != "" {
      var n := WordLength(s);
      WordLengthIsMaximal(s);
      if n < |s| {
        var rest := s[n + 1..];
        SingleSpacedTail(s, n);
        SingleSpacedIsFixed(rest);
        WordRestored(s, n, Fields(rest));
      } else {
        assert s[..n] == s && s[n..] == "";
      }
    }
  }

  lemma {:induction false} FieldsAfterWord(s: string, n: nat)
    requires s != "" && !IsSpace(s[0]) && n == WordLength(s) < |s| && IsSpace(s[n])
    ensures Fields(s) == [s[..n]] + Fields(s[n + 1..])
  {
    var after := s[n..];
    assert after != "" && IsSpace(after[0]) && after[1..] == s[n + 1..];
    assert Fields(after) == Fields(after[1..]);
  }

  lemma {:induction false} WordRestored(s: string, n: nat, ws: seq<string>)
    requires s != "" && !IsSpace(s[0]) && n == WordLength(s) < |s| && s[n] == ' '
    requires ws == Fields(s[n + 1..]) && Join(ws, " ") == s[n + 1..] != ""
    ensures Join(Fields(s), " ") == s
  {
    FieldsAfterWord(s, n);
    JoinAfterWord(s[..n], ws);
    assert s == s[..n] + " " + s[n + 1..];
  }

  lemma {:induction false} JoinAfterWord(word: string, ws: seq<string>)
    requires ws != []
    ensures Join([word] + ws, " ") == word + " " + Join(ws, " ")
  {
    assert ([word] + ws)[1..] == ws;
  }

  lemma {:induction false} SingleSpacedTail(s: string, n: nat)
    requires SingleSpaced(s) && n < |s| && IsSpace(s[n])
    ensures s[n] == ' ' && s[n + 1..] != "" && SingleSpaced(s[n + 1..])
  {
    var rest := s[n + 1..];
    assert forall i :: 0 <= i < |rest| ==> rest[i] == s[n + 1 + i];
    assert SingleSpaceAt(s, n);
    forall i | 0 <= i < |rest| ensures SingleSpaceAt(rest, i) {
      assert SingleSpaceAt(s, n + 1 + i);
    }
  }

  // ---------- Splitting ----------

  /** Everything before the first occurrence of `c`, and what follows it. */
  function Cut(s: string, c: char): (r: (string, string))
    ensures c !in r.0
    ensures c !in s ==> r == (s, "")
    ensures c in s ==> s == r.0 + [c] + r.1
  {
    if s == "" then ("", "")
    else if s[0] == c then ("", s[1..])
    else
      var r := Cut(s[1..], c);
      assert s == [s[0]] + s[1..];
      ([s[0]] + r.0, r.1)
  }

  lemma {:induction false} CutAt(a: string, c: char, b: string)
    requires c !in a
    ensures Cut(a + [c] + b, c) == (a, b)
  {
    if a == "" {
      assert ("" + [c] + b)[1..] == b;
    } else {
      assert (a + [c] + b)[1..] == a[1..] + [c] + b;
      CutAt(a[1..], c, b);
      assert a == [a[0]] + a[1..];
    }
  }

  /** Text before the first delimiter, and text after it, are determined by the whole. */
  lemma {:induction false} CutUnique(a: string, b: string, c: char, x: string, y: string)
    requires c !in a && c !in b && a + [c] + x == b + [c] + y
    ensures a == b && x == y
  {
    CutAt(a, c, x);
    CutAt(b, c, y);
  }
}
