/** What the string functions of `Text` do, said on the characters. */
module TextLaws {
  import opened Text

  predicate AllSpace(s: string) {
    forall i :: 0 <= i < |s| ==> s[i] in {' ', '\t', '\n', '\U{0B}', '\U{0C}', '\r'}
  }

  // ---------- Trimming ----------

  /** `s` is `t` between spaces, and `t` neither starts nor ends with one. */
  predicate Padded(s: string, a: string, t: string, b: string) {
    && s == a + t + b && AllSpace(a) && AllSpace(b)
    && (t != "" ==> !AllSpace([t[0]]) && !AllSpace([t[|t| - 1]]))
  }

  lemma {:induction false} SpaceExactly(c: char)
    ensures IsSpace(c) <==> AllSpace([c])
  {
    assert [c][0] == c;
  }

  lemma {:induction false} TrimLeftSkips(a: string, s: string)
    requires AllSpace(a) && (s != "" ==> !IsSpace(s[0]))
    ensures TrimLeft(a + s) == s
  {
    if a == "" {
      assert a + s == s;
    } else {
      SpaceExactly(a[0]);
      assert (a + s)[1..] == a[1..] + s;
      TrimLeftSkips(a[1..], s);
    }
  }

  lemma {:induction false} TrimRightSkips(s: string, b: string)
    requires AllSpace(b) && (s != "" ==> !IsSpace(s[|s| - 1]))
    ensures TrimRight(s + b) == s
    decreases |b|
  {
    if b == "" {
      assert s + b == s;
    } else {
      SpaceExactly(b[|b| - 1]);
      assert (s + b)[..|s + b| - 1] == s + b[..|b| - 1];
      TrimRightSkips(s, b[..|b| - 1]);
    }
  }

  lemma {:induction false} LeadingSpaces(s: string) returns (a: string, t: string)
    ensures s == a + t && AllSpace(a) && (t != "" ==> !IsSpace(t[0]))
  {
    if s != "" && IsSpace(s[0]) {
      SpaceExactly(s[0]);
      a, t := LeadingSpaces(s[1..]);
      a := [s[0]] + a;
    } else {
      a, t := "", s;
    }
  }

  lemma {:induction false} TrailingSpaces(s: string) returns (t: string, b: string)
    ensures s == t + b && AllSpace(b) && (t != "" ==> !IsSpace(t[|t| - 1]) && t[0] == s[0])
  {
    if s != "" && IsSpace(s[|s| - 1]) {
      SpaceExactly(s[|s| - 1]);
      t, b := TrailingSpaces(s[..|s| - 1]);
      b := b + [s[|s| - 1]];
    } else {
      t, b := s, "";
    }
  }

  lemma {:induction false} TrimSpaceOfPadded(s: string, a: string, t: string, b: string)
    requires Padded(s, a, t, b)
    ensures TrimSpace(s) == t
  {
    if t == "" {
      assert s == (a + b) + "";
      TrimLeftSkips(a + b, "");
    } else {
      SpaceExactly(t[0]);
      SpaceExactly(t[|t| - 1]);
      assert s == a + (t + b);
      TrimLeftSkips(a, t + b);
      TrimRightSkips(t, b);
    }
  }

  lemma {:induction false} PaddingOf(s: string) returns (a: string, b: string)
    ensures Padded(s, a, TrimSpace(s), b)
  {
    var rest, t;
    a, rest := LeadingSpaces(s);
    t, b := TrailingSpaces(rest);
    if t != "" {
      SpaceExactly(t[0]);
      SpaceExactly(t[|t| - 1]);
    }
    TrimSpaceOfPadded(s, a, t, b);
  }

  /** Trimming removes exactly the spaces around the text. */
  lemma {:induction false} TrimSpaceExactly(s: string, t: string)
    ensures TrimSpace(s) == t <==> exists a, b :: Padded(s, a, t, b)
  {
    var a, b := PaddingOf(s);
    if x, y :| Padded(s, x, t, y) {
      TrimSpaceOfPadded(s, x, t, y);
    }
  }

  lemma {:induction false} BlankExactly(s: string)
    ensures Blank(s) <==> AllSpace(s)
  {
    var a, b := PaddingOf(s);
    if AllSpace(s) {
      assert Padded(s, s, "", "");
      TrimSpaceOfPadded(s, s, "", "");
    }
  }

  // ---------- Letter cases ----------

  predicate UpperOf(u: char, l: char) {
    'A' <= u <= 'Z' && l as int == u as int + 32
  }

  predicate SameLetter(c: char, d: char) {
    c == d || UpperOf(c, d) || UpperOf(d, c)
  }

  predicate SameUpToCase(s: string, t: string) {
    |s| == |t| && forall i :: 0 <= i < |s| ==> SameLetter(s[i], t[i])
  }

  lemma {:induction false} LetterCases(c: char, d: char)
    ensures LowerChar(c) == LowerChar(d) <==> SameLetter(c, d)
    ensures UpperChar(c) == UpperChar(d) <==> SameLetter(c, d)
    ensures SameLetter(c, LowerChar(c)) && !IsUpper(LowerChar(c))
  {
  }

  /** Lowering, and raising, identify exactly the texts that agree up to case. */
  lemma {:induction false} CasesExactly(s: string, t: string)
    ensures ToLower(s) == ToLower(t) <==> SameUpToCase(s, t)
    ensures ToUpper(s) == ToUpper(t) <==> SameUpToCase(s, t)
  {
    if ToLower(s) == ToLower(t) || ToUpper(s) == ToUpper(t) {
      assert |ToLower(s)| == |s| == |ToUpper(s)| && |ToLower(t)| == |t| == |ToUpper(t)|;
      forall i | 0 <= i < |s| ensures SameLetter(s[i], t[i]) {
        assert ToLower(s)[i] == LowerChar(s[i]) && ToLower(t)[i] == LowerChar(t[i]);
        assert ToUpper(s)[i] == UpperChar(s[i]) && ToUpper(t)[i] == UpperChar(t[i]);
        LetterCases(s[i], t[i]);
      }
    }
    if SameUpToCase(s, t) {
      forall i | 0 <= i < |s| ensures LowerChar(s[i]) == LowerChar(t[i]) && UpperChar(s[i]) == UpperChar(t[i]) {
        LetterCases(s[i], t[i]);
      }
      assert ToLower(s) == ToLower(t) && ToUpper(s) == ToUpper(t);
    }
  }

  // ---------- Containment ----------

  /** `s` has a part that is this word in any mix of letter cases. */
  ghost predicate HoldsWord(s: string, word: string) {
    exists a, part, b :: s == a + part + b && SameUpToCase(part, word)
  }

  lemma {:induction false} UpperSplits(a: string, b: string)
    ensures ToUpper(a + b) == ToUpper(a) + ToUpper(b)
  {
  }

  lemma {:induction false} RaisedHolds(s: string, a: string, part: string, b: string, word: string)
    requires ToUpper(word) == word && s == a + part + b && SameUpToCase(part, word)
    ensures Contains(ToUpper(s), word)
  {
    CasesExactly(part, word);
    UpperSplits(a + part, b);
    UpperSplits(a, part);
    var raised := ToUpper(a) + word + ToUpper(b);
    assert raised[|a|..] == word + ToUpper(b);
  }

  lemma {:induction false} HeldInRaised(s: string, i: nat, word: string)
    requires ToUpper(word) == word && i <= |s| && word <= ToUpper(s)[i..]
    ensures HoldsWord(s, word)
  {
    var part := s[i..i + |word|];
    assert ToUpper(part) == ToUpper(s)[i..i + |word|] == word;
    CasesExactly(part, word);
    assert s == s[..i] + part + s[i + |word|..];
  }

  /** Searching the raised text for a word in capitals finds the word in any case. */
  lemma {:induction false} RaisedHoldsExactly(s: string, word: string)
    requires ToUpper(word) == word
    ensures Contains(ToUpper(s), word) <==> HoldsWord(s, word)
  {
    if Contains(ToUpper(s), word) {
      var i :| 0 <= i <= |ToUpper(s)| && word <= ToUpper(s)[i..];
      HeldInRaised(s, i, word);
    }
    if a, part, b :| s == a + part + b && SameUpToCase(part, word) {
      RaisedHolds(s, a, part, b, word);
    }
  }

  // ---------- Words ----------

  lemma {:induction false} WordLengthBeforeSpace(a: string, c: char, b: string)
    requires IsSpace(c)
    ensures WordLength(a + [c] + b) == WordLength(a)
  {
    if a != "" && !IsSpace(a[0]) {
      assert (a + [c] + b)[1..] == a[1..] + [c] + b;
      WordLengthBeforeSpace(a[1..], c, b);
    }
  }

  /** A space separates: the words of a text are those before it and those after it. */
  lemma {:induction false} FieldsAtSpace(a: string, c: char, b: string)
    requires IsSpace(c)
    ensures Fields(a + [c] + b) == Fields(a) + Fields(b)
    decreases |a|
  {
    var s := a + [c] + b;
    if a == "" {
      assert s[1..] == b;
    } else if IsSpace(a[0]) {
      assert s[1..] == a[1..] + [c] + b;
      FieldsAtSpace(a[1..], c, b);
    } else {
      var n := WordLength(a);
      WordLengthBeforeSpace(a, c, b);
      assert s[..n] == a[..n] && s[n..] == a[n..] + [c] + b;
      FieldsAtSpace(a[n..], c, b);
      assert Fields(s) == [a[..n]] + (Fields(a[n..]) + Fields(b));
    }
  }

  lemma {:induction false} WordLengthOfWord(w: string)
    requires forall i :: 0 <= i < |w| ==> !IsSpace(w[i])
    ensures WordLength(w) == |w|
  {
    if w != "" {
      WordLengthOfWord(w[1..]);
    }
  }

  /** A text without spaces is its own only word. With the law above this determines the words. */
  lemma {:induction false} FieldsOfWord(w: string)
    requires IsWord(w)
    ensures Fields(w) == [w]
  {
    WordLengthOfWord(w);
    assert w[..|w|] == w && w[|w|..] == "";
  }

  /** Words joined with single spaces are read back. */
  lemma {:induction false} FieldsOfJoin(ws: seq<string>)
    requires forall w :: w in ws ==> IsWord(w)
    ensures Fields(Join(ws, " ")) == ws
  {
    if |ws| == 1 {
      FieldsOfWord(ws[0]);
    } else if |ws| > 1 {
      assert ws[0] in ws;
      FieldsOfJoin(ws[1..]);
      FieldsOfWord(ws[0]);
      FieldsAtSpace(ws[0], ' ', Join(ws[1..], " "));
      assert ws == [ws[0]] + ws[1..];
    }
  }
}
