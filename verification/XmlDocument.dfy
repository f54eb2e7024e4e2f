/**
 What the tree builder makes of a token stream, as a machine over open elements, and exactly
 which streams it accepts for which document.
 */
module XmlDocument {
  import opened Options
  import opened Text
  import opened TextLaws

  const MAX_DEPTH := 64
  const MAX_NODES := 100000

  datatype Attr = Attr(name: string, value: string)

  /** Comments and processing instructions are `Other`. */
  datatype Token =
    | Start(name: string, attrs: seq<Attr>)
    | End
    | CharData(text: string)
    | Directive(text: string)
    | Other

  /** A document with its text and elements in stream order. */
  datatype Item = Chars(text: string) | Element(name: string, attrs: seq<Attr>, items: seq<Item>)

  datatype XmlError = EmptyDocument | UnsafeDirective | TooComplex | MultipleRoots | Malformed

  // ---------- Documents ----------

  function Render(item: Item): (ts: seq<Token>)
    decreases item, 1
  {
    match item
    case Chars(text) => [CharData(text)]
    case Element(name, attrs, items) => [Start(name, attrs)] + RenderAll(items) + [End]
  }

  function RenderAll(items: seq<Item>): seq<Token>
    decreases items, 0
  {
    if items == [] then [] else Render(items[0]) + RenderAll(items[1..])
  }

  function Depth(item: Item): nat
    decreases item, 1
  {
    if item.Chars? then 0 else 1 + DepthAll(item.items)
  }

  function DepthAll(items: seq<Item>): nat
    decreases items, 0
  {
    if items == [] then 0
    else if Depth(items[0]) >= DepthAll(items[1..]) then Depth(items[0]) else DepthAll(items[1..])
  }

  /** The number of elements. */
  function Size(item: Item): nat
    decreases item, 1
  {
    if item.Chars? then 0 else 1 + SizeAll(item.items)
  }

  function SizeAll(items: seq<Item>): nat
    decreases items, 0
  {
    if items == [] then 0 else Size(items[0]) + SizeAll(items[1..])
  }

  lemma {:induction false} AppendItem(items: seq<Item>, x: Item)
    ensures RenderAll(items + [x]) == RenderAll(items) + Render(x)
    ensures SizeAll(items + [x]) == SizeAll(items) + Size(x)
    ensures DepthAll(items + [x]) == if Depth(x) >= DepthAll(items) then Depth(x) else DepthAll(items)
    decreases |items|
  {
    if items == [] {
      assert ([] + [x])[1..] == [];
    } else {
      AppendItem(items[1..], x);
      assert (items + [x])[1..] == items[1..] + [x];
    }
  }

  // ---------- The machine ----------

  /** An element whose end has not been seen. */
  datatype Frame = Frame(name: string, attrs: seq<Attr>, items: seq<Item>)

  /** The open elements from the root down, the root once it is closed, and how many were started. */
  datatype State = State(open: seq<Frame>, root: Option<Item>, starts: nat)

  const INITIAL := State([], None, 0)

  predicate Unsafe(directive: string) {
    Contains(ToUpper(directive), "DOCTYPE") || Contains(ToUpper(directive), "ENTITY")
  }

  function Closed(f: Frame): Item {
    Element(f.name, f.attrs, f.items)
  }

  function AddToTop(open: seq<Frame>, x: Item): seq<Frame>
    requires open != []
  {
    var top := open[|open| - 1];
    open[..|open| - 1] + [top.(items := top.items + [x])]
  }

  /** Closes the innermost open element. */
  function Pop(s: State): State
    requires s.open != []
  {
    var e, rest := Closed(s.open[|s.open| - 1]), s.open[..|s.open| - 1];
    if rest == [] then s.(open := [], root := Some(e)) else s.(open := AddToTop(rest, e))
  }

  function Step(s: State, t: Token): Result<State, XmlError> {
    match t
    case Directive(text) => if Unsafe(text) then Err(UnsafeDirective) else Ok(s)
    case Other => Ok(s)
    case Start(name, attrs) =>
      if |s.open| + 1 > MAX_DEPTH || s.starts + 1 > MAX_NODES then Err(TooComplex)
      else if s.open == [] && s.root.Some? then Err(MultipleRoots)
      else Ok(s.(open := s.open + [Frame(name, attrs, [])], starts := s.starts + 1))
    case End => Ok(if s.open == [] then s else Pop(s))
    case CharData(text) => Ok(if s.open == [] then s else s.(open := AddToTop(s.open, Chars(text))))
  }

  function Scan(s: State, ts: seq<Token>): Result<State, XmlError>
    decreases |ts|
  {
    if ts == [] then Ok(s)
    else match Scan(s, ts[..|ts| - 1])
      case Err(e) => Err(e)
      case Ok(mid) => Step(mid, ts[|ts| - 1])
  }

  function CloseAll(s: State): State
    decreases |s.open|
  {
    if s.open == [] then s else CloseAll(Pop(s))
  }

  /** The document of a whole stream, and whether elements were left open. */
  function Decode(ts: seq<Token>, wellFormed: bool): Result<(Item, bool), XmlError> {
    match Scan(INITIAL, ts)
    case Err(e) => Err(e)
    case Ok(s) =>
      if !wellFormed then Err(Malformed)
      else match CloseAll(s).root
        case None => Err(EmptyDocument)
        case Some(root) => Ok((root, s.open != []))
  }

  // ---------- What of a stream counts ----------

  predicate Safe(ts: seq<Token>) {
    forall i :: 0 <= i < |ts| && ts[i].Directive? ==> !Unsafe(ts[i].text)
  }

  /** How many elements are open after the stream. */
  function OpenCount(ts: seq<Token>): nat
    decreases |ts|
  {
    if ts == [] then 0
    else
      var d := OpenCount(ts[..|ts| - 1]);
      match ts[|ts| - 1]
      case Start(_, _) => d + 1
      case End => if d == 0 then 0 else d - 1
      case _ => d
  }

  function StartCount(ts: seq<Token>): nat
    decreases |ts|
  {
    if ts == [] then 0 else StartCount(ts[..|ts| - 1]) + (if ts[|ts| - 1].Start? then 1 else 0)
  }

  predicate Counts(t: Token, open: nat) {
    t.Start? || (open > 0 && (t.End? || t.CharData?))
  }

  /** The stream without directives, comments and whatever stands outside every element. */
  function Significant(ts: seq<Token>): seq<Token>
    decreases |ts|
  {
    if ts == [] then []
    else
      var front, t := ts[..|ts| - 1], ts[|ts| - 1];
      Significant(front) + (if Counts(t, OpenCount(front)) then [t] else [])
  }

  function Ends(n: nat): seq<Token> {
    if n == 0 then [] else [End] + Ends(n - 1)
  }

  // ---------- Accepted streams are renderings ----------

  function RenderOpen(open: seq<Frame>): seq<Token>
    decreases |open|
  {
    if open == [] then []
    else
      var top := open[|open| - 1];
      RenderOpen(open[..|open| - 1]) + [Start(top.name, top.attrs)] + RenderAll(top.items)
  }

  function SizeOpen(open: seq<Frame>): nat
    decreases |open|
  {
    if open == [] then 0 else SizeOpen(open[..|open| - 1]) + 1 + SizeAll(open[|open| - 1].items)
  }

  function RenderState(s: State): seq<Token> {
    if s.root.Some? then Render(s.root.value) else RenderOpen(s.open)
  }

  /** Limits and shape of a state: what is closed inside frame `k` leaves room for `k + 1` levels. */
  ghost predicate Bounded(s: State) {
    && (s.root.Some? ==> s.open == [] && s.root.value.Element? && Depth(s.root.value) <= MAX_DEPTH)
    && s.starts == (if s.root.Some? then Size(s.root.value) else SizeOpen(s.open)) <= MAX_NODES
    && |s.open| <= MAX_DEPTH
    && forall k :: 0 <= k < |s.open| ==> k + 1 + DepthAll(s.open[k].items) <= MAX_DEPTH
  }

  lemma {:induction false} TopGrows(s: State, x: Item)
    requires s.open != [] && Bounded(s)
    ensures RenderOpen(AddToTop(s.open, x)) == RenderOpen(s.open) + Render(x)
    ensures SizeOpen(AddToTop(s.open, x)) == SizeOpen(s.open) + Size(x)
    ensures |s.open| + Depth(x) <= MAX_DEPTH ==>
      forall k :: 0 <= k < |s.open| ==> k + 1 + DepthAll(AddToTop(s.open, x)[k].items) <= MAX_DEPTH
  {
    var top, rest := s.open[|s.open| - 1], s.open[..|s.open| - 1];
    AppendItem(top.items, x);
    assert AddToTop(s.open, x)[..|s.open| - 1] == rest;
    assert RenderOpen(AddToTop(s.open, x))
        == RenderOpen(rest) + [Start(top.name, top.attrs)] + RenderAll(top.items + [x]);
  }

  lemma {:induction false} PopRootRenders(s: State)
    requires |s.open| == 1 && Bounded(s)
    ensures Bounded(Pop(s)) && RenderState(Pop(s)) == RenderState(s) + [End]
  {
    var top := s.open[0];
    assert s.open[..0] == [];
    assert RenderOpen(s.open) == [] + [Start(top.name, top.attrs)] + RenderAll(top.items);
    assert 0 + 1 + DepthAll(top.items) <= MAX_DEPTH;
    assert SizeOpen(s.open) == Size(Closed(top));
  }

  lemma {:induction false} PopInnerRenders(s: State)
    requires |s.open| > 1 && Bounded(s)
    ensures Bounded(Pop(s)) && RenderState(Pop(s)) == RenderState(s) + [End]
  {
    var top, rest := s.open[|s.open| - 1], s.open[..|s.open| - 1];
    var e := Closed(top);
    TopGrows(s.(open := rest, starts := SizeOpen(rest)), e);
    assert |rest| + 1 + DepthAll(top.items) <= MAX_DEPTH;
    assert Pop(s).open == AddToTop(rest, e);
    assert RenderOpen(s.open) + [End]
        == RenderOpen(rest) + ([Start(top.name, top.attrs)] + RenderAll(top.items) + [End]);
  }

  lemma {:induction false} PopRenders(s: State)
    requires s.open != [] && Bounded(s)
    ensures Bounded(Pop(s)) && RenderState(Pop(s)) == RenderState(s) + [End]
    ensures |Pop(s).open| == |s.open| - 1
  {
    if |s.open| == 1 { PopRootRenders(s); } else { PopInnerRenders(s); }
  }

  lemma {:induction false} PushRenders(s: State, t: Token)
    requires t.Start? && Bounded(s) && Step(s, t).Ok?
    ensures Bounded(Step(s, t).value) && RenderState(Step(s, t).value) == RenderState(s) + [t]
  {
    var after := Step(s, t).value;
    assert after.open[..|s.open|] == s.open;
    assert RenderOpen(after.open) == RenderOpen(s.open) + [t] + [];
  }

  /** The state says of the tokens read so far what the counts and the significant tokens say. */
  ghost predicate Reads(s: State, ts: seq<Token>) {
    && Bounded(s)
    && |s.open| == OpenCount(ts) && s.starts == StartCount(ts)
    && RenderState(s) == Significant(ts)
  }

  lemma {:induction false} SafeOneMore(ts: seq<Token>)
    requires ts != []
    ensures Safe(ts) <==> Safe(ts[..|ts| - 1]) && (ts[|ts| - 1].Directive? ==> !Unsafe(ts[|ts| - 1].text))
  {
    var front := ts[..|ts| - 1];
    assert forall i :: 0 <= i < |front| ==> front[i] == ts[i];
  }

  lemma {:induction false} StartReads(s: State, ts: seq<Token>)
    requires ts != [] && ts[|ts| - 1].Start? && Reads(s, ts[..|ts| - 1]) && Step(s, ts[|ts| - 1]).Ok?
    ensures Reads(Step(s, ts[|ts| - 1]).value, ts)
  {
    PushRenders(s, ts[|ts| - 1]);
  }

  lemma {:induction false} EndReads(s: State, ts: seq<Token>)
    requires ts != [] && ts[|ts| - 1] == End && s.open != [] && Reads(s, ts[..|ts| - 1])
    ensures Reads(Pop(s), ts)
  {
    PopRenders(s);
    PopStarts(s);
  }

  lemma {:induction false} PopStarts(s: State)
    requires s.open != []
    ensures Pop(s).starts == s.starts
  {
  }

  lemma {:induction false} TextReads(s: State, ts: seq<Token>)
    requires ts != [] && ts[|ts| - 1].CharData? && s.open != [] && Reads(s, ts[..|ts| - 1])
    ensures Reads(s.(open := AddToTop(s.open, Chars(ts[|ts| - 1].text))), ts)
  {
    TopGrows(s, Chars(ts[|ts| - 1].text));
  }

  lemma {:induction false} NoiseReads(s: State, ts: seq<Token>)
    requires ts != [] && !Counts(ts[|ts| - 1], |s.open|) && Reads(s, ts[..|ts| - 1])
    ensures Reads(s, ts)
  {
    assert Significant(ts) == Significant(ts[..|ts| - 1]) + [];
  }

  lemma {:induction false} StepReads(s: State, ts: seq<Token>)
    requires ts != [] && Reads(s, ts[..|ts| - 1]) && Step(s, ts[|ts| - 1]).Ok?
    ensures Reads(Step(s, ts[|ts| - 1]).value, ts)
  {
    var t := ts[|ts| - 1];
    if !Counts(t, |s.open|) {
      NoiseReads(s, ts);
    } else if t.Start? {
      StartReads(s, ts);
    } else if t.End? {
      EndReads(s, ts);
    } else {
      TextReads(s, ts);
    }
  }

  lemma {:induction false} ScanRenders(ts: seq<Token>)
    requires Scan(INITIAL, ts).Ok?
    ensures var s := Scan(INITIAL, ts).value;
      && Bounded(s) && Safe(ts)
      && |s.open| == OpenCount(ts) && s.starts == StartCount(ts)
      && RenderState(s) == Significant(ts)
    decreases |ts|
  {
    if ts != [] {
      var front := ts[..|ts| - 1];
      ScanRenders(front);
      SafeOneMore(ts);
      StepReads(Scan(INITIAL, front).value, ts);
    }
  }

  lemma {:induction false} EndsAppend(n: nat)
    ensures Ends(n + 1) == Ends(n) + [End]
  {
    if n > 0 { EndsAppend(n - 1); }
  }

  lemma {:induction false} CloseAllRenders(s: State)
    requires Bounded(s)
    ensures Bounded(CloseAll(s)) && CloseAll(s).open == [] && CloseAll(s).starts == s.starts
    ensures RenderState(CloseAll(s)) == RenderState(s) + Ends(|s.open|)
    decreases |s.open|
  {
    if s.open != [] {
      PopRenders(s);
      CloseAllRenders(Pop(s));
      assert Ends(|s.open|) == [End] + Ends(|s.open| - 1);
    }
  }

  /** Whatever is decoded renders to the significant tokens with the missing ends, within the limits. */
  lemma {:induction false} DecodedRenders(ts: seq<Token>)
    requires Decode(ts, true).Ok?
    ensures var (e, warned) := Decode(ts, true).value;
      && e.Element? && Safe(ts)
      && Render(e) == Significant(ts) + Ends(OpenCount(ts))
      && Depth(e) <= MAX_DEPTH && Size(e) == StartCount(ts) <= MAX_NODES
      && (warned <==> OpenCount(ts) > 0)
  {
    ScanRenders(ts);
    CloseAllRenders(Scan(INITIAL, ts).value);
  }

  // ---------- Renderings are accepted ----------

  lemma {:induction false} ScanAppend(s: State, a: seq<Token>, b: seq<Token>)
    ensures Scan(s, a + b) == match Scan(s, a) case Err(e) => Err(e) case Ok(mid) => Scan(mid, b)
    decreases |b|
  {
    if b == [] {
      assert a + b == a;
    } else {
      ScanAppend(s, a, b[..|b| - 1]);
      assert (a + b)[..|a + b| - 1] == a + b[..|b| - 1];
    }
  }

  lemma {:induction false} ScanOne(s: State, t: Token)
    ensures Scan(s, [t]) == Step(s, t)
  {
    assert [t][..0] == [];
  }

  function Grown(s: State, items: seq<Item>): State
    requires s.open != []
  {
    var top := s.open[|s.open| - 1];
    s.(open := s.open[..|s.open| - 1] + [top.(items := top.items + items)], starts := s.starts + SizeAll(items))
  }

  ghost predicate Room(s: State, depth: nat, size: nat) {
    s.open != [] && |s.open| + depth <= MAX_DEPTH && s.starts + size <= MAX_NODES
  }

  /** Reading the rendering of some content, inside an open element with room for it, adds it there. */
  lemma {:induction false} ScanContent(s: State, items: seq<Item>)
    requires Room(s, DepthAll(items), SizeAll(items))
    ensures Scan(s, RenderAll(items)) == Ok(Grown(s, items))
    decreases items, 0
  {
    if items == [] {
      GrownByNothing(s);
    } else {
      ScanItem(s, items[0]);
      GrownTwice(s, items[0], items[1..]);
      ScanContent(Grown(s, [items[0]]), items[1..]);
      ScanAppend(s, Render(items[0]), RenderAll(items[1..]));
      assert [items[0]] + items[1..] == items;
    }
  }

  lemma {:induction false} GrownByNothing(s: State)
    requires s.open != []
    ensures Grown(s, []) == s
  {
    assert s.open[|s.open| - 1].items + [] == s.open[|s.open| - 1].items;
    assert Grown(s, []).open == s.open;
  }

  lemma {:induction false} GrownTwice(s: State, x: Item, items: seq<Item>)
    requires s.open != []
    ensures Grown(Grown(s, [x]), items) == Grown(s, [x] + items)
    ensures SizeAll([x]) == Size(x) && |Grown(s, [x]).open| == |s.open|
  {
    var top, rest := s.open[|s.open| - 1], s.open[..|s.open| - 1];
    var mid := top.(items := top.items + [x]);
    var once := Grown(s, [x]);
    assert once.open == rest + [mid] && once.open[..|once.open| - 1] == rest;
    assert Grown(once, items).open == rest + [mid.(items := top.items + [x] + items)];
    assert top.items + [x] + items == top.items + ([x] + items);
    assert ([x] + items)[1..] == items && [x][1..] == [];
    assert SizeAll([x] + items) == Size(x) + SizeAll(items);
    assert SizeAll([x]) == Size(x) + SizeAll([]);
    assert Grown(s, [x] + items).open == Grown(once, items).open;
  }

  lemma {:induction false} ScanItem(s: State, x: Item)
    requires Room(s, Depth(x), Size(x))
    ensures Scan(s, Render(x)) == Ok(Grown(s, [x]))
    decreases x, 1
  {
    assert SizeAll([x]) == Size(x);
    match x {
      case Chars(text) => ScanOne(s, CharData(text));
      case Element(name, attrs, items) =>
        var pushed := s.(open := s.open + [Frame(name, attrs, [])], starts := s.starts + 1);
        ScanOne(s, Start(name, attrs));
        ScanContent(pushed, items);
        var grown := Grown(pushed, items);
        ScanOne(grown, End);
        ScanAppend(s, [Start(name, attrs)], RenderAll(items));
        ScanAppend(s, [Start(name, attrs)] + RenderAll(items), [End]);
        assert pushed.open[..|s.open|] == s.open && [] + items == items;
        assert grown.open == s.open + [Frame(name, attrs, items)];
        assert grown.open[..|s.open|] == s.open;
        assert Pop(grown) == Grown(s, [x]);
    }
  }

  lemma {:induction false} RenderingIsAccepted(e: Item)
    requires e.Element? && Depth(e) <= MAX_DEPTH && Size(e) <= MAX_NODES
    ensures Scan(INITIAL, Render(e)) == Ok(State([], Some(e), Size(e)))
  {
    var start, bare := Start(e.name, e.attrs), Frame(e.name, e.attrs, []);
    var pushed := State([bare], None, 1);
    var grown := Grown(pushed, e.items);
    assert Scan(INITIAL, [start]) == Ok(pushed) by {
      ScanOne(INITIAL, start);
      assert [] + [bare] == [bare];
    }
    ScanContent(pushed, e.items);
    assert grown.open == [Frame(e.name, e.attrs, e.items)] by {
      assert pushed.open[..0] == [] && [] + e.items == e.items;
    }
    assert Scan(grown, [End]) == Ok(State([], Some(e), Size(e))) by {
      ScanOne(grown, End);
      assert grown.open[..0] == [];
    }
    ScanAppend(INITIAL, [start], RenderAll(e.items));
    ScanAppend(INITIAL, [start] + RenderAll(e.items), [End]);
  }

  /**
   Round trip: a document decodes from its own rendering, without a warning, exactly when it is
   at most 64 deep and has at most 100000 elements.
   */
  lemma {:induction false} RoundTripExactly(e: Item)
    requires e.Element?
    ensures Decode(Render(e), true) == Ok((e, false)) <==> Depth(e) <= 64 && Size(e) <= 100000
  {
    if Depth(e) <= MAX_DEPTH && Size(e) <= MAX_NODES {
      RenderingIsAccepted(e);
    }
    if Decode(Render(e), true) == Ok((e, false)) {
      DecodedRenders(Render(e));
    }
  }

  /** Tokens that do not count leave the machine as it is. */
  lemma {:induction false} ScanIgnoresNoise(ts: seq<Token>)
    requires Safe(ts)
    ensures Scan(INITIAL, ts) == Scan(INITIAL, Significant(ts))
    decreases |ts|
  {
    if ts != [] {
      var front, t := ts[..|ts| - 1], ts[|ts| - 1];
      assert forall i :: 0 <= i < |front| ==> front[i] == ts[i];
      ScanIgnoresNoise(front);
      if Scan(INITIAL, front).Ok? { ScanRenders(front); }
      assert Significant(front) + [] == Significant(front);
      assert t.Directive? ==> !Unsafe(t.text);
      ScanAppend(INITIAL, Significant(front), [t]);
      if Scan(INITIAL, front).Ok? { ScanOne(Scan(INITIAL, front).value, t); }
    }
  }

  lemma {:induction false} ScanEnds(s: State)
    ensures Scan(s, Ends(|s.open|)) == Ok(CloseAll(s))
    decreases |s.open|
  {
    if s.open != [] {
      ScanOne(s, End);
      ScanEnds(Pop(s));
      ScanAppend(s, [End], Ends(|s.open| - 1));
    }
  }

  /**
   An unclosed stream decodes like the stream with the missing ends appended, errors included;
   only the warning differs.
   */
  lemma {:induction false} MissingEndsOnlyWarn(ts: seq<Token>)
    ensures
      match Decode(ts, true)
      case Err(e) => Decode(ts + Ends(OpenCount(ts)), true) == Err(e)
      case Ok(r) => Decode(ts + Ends(OpenCount(ts)), true) == Ok((r.0, false))
  {
    ScanAppend(INITIAL, ts, Ends(OpenCount(ts)));
    if Scan(INITIAL, ts).Ok? {
      ScanRenders(ts);
      ScanEnds(Scan(INITIAL, ts).value);
      CloseAllRenders(Scan(INITIAL, ts).value);
    }
  }

  /**
   A stream decodes to document `e` exactly when it holds no DOCTYPE or ENTITY directive, its
   significant tokens and the missing ends spell `e`, and `e` is within the limits.
   */
  lemma {:induction false} DecodeExactly(ts: seq<Token>, e: Item)
    requires e.Element?
    ensures Decode(ts, true) == Ok((e, OpenCount(ts) > 0)) <==>
      && Safe(ts)
      && Render(e) == Significant(ts) + Ends(OpenCount(ts))
      && Depth(e) <= MAX_DEPTH && Size(e) <= MAX_NODES
  {
    if Decode(ts, true) == Ok((e, OpenCount(ts) > 0)) {
      DecodedRenders(ts);
    }
    if && Safe(ts) && Render(e) == Significant(ts) + Ends(OpenCount(ts))
       && Depth(e) <= MAX_DEPTH && Size(e) <= MAX_NODES
    {
      RoundTripExactly(e);
      ScanIgnoresNoise(ts);
      ScanAppend(INITIAL, Significant(ts), Ends(OpenCount(ts)));
      ScanRenders(ts);
      var s := Scan(INITIAL, ts).value;
      ScanEnds(s);
      CloseAllRenders(s);
    }
  }

  // ---------- Exactly which error, and when ----------

  /** What is wrong with token `i`, told from the tokens before it. */
  function Offence(ts: seq<Token>, i: nat): Option<XmlError>
    requires i < |ts|
  {
    var before := ts[..i];
    match ts[i]
    case Directive(text) => if Unsafe(text) then Some(UnsafeDirective) else None
    case Start(_, _) =>
      if OpenCount(before) + 1 > MAX_DEPTH || StartCount(before) + 1 > MAX_NODES then Some(TooComplex)
      else if OpenCount(before) == 0 && StartCount(before) > 0 then Some(MultipleRoots)
      else None
    case _ => None
  }

  predicate Inoffensive(ts: seq<Token>, n: nat)
    requires n <= |ts|
  {
    forall i :: 0 <= i < n ==> Offence(ts, i).None?
  }

  /** Token `i` is the first with something wrong. */
  predicate FirstOffence(ts: seq<Token>, i: nat, e: XmlError) {
    i < |ts| && Inoffensive(ts, i) && Offence(ts, i) == Some(e)
  }

  /** A root has been closed exactly when elements were started and none is open. */
  lemma {:induction false} RootExactly(ts: seq<Token>)
    requires Scan(INITIAL, ts).Ok?
    ensures var s := Scan(INITIAL, ts).value;
      s.root.Some? <==> OpenCount(ts) == 0 && StartCount(ts) > 0
  {
    ScanRenders(ts);
  }

  lemma {:induction false} OffendingStep(ts: seq<Token>)
    requires ts != [] && Scan(INITIAL, ts[..|ts| - 1]).Ok?
    ensures match Offence(ts, |ts| - 1)
      case None => Scan(INITIAL, ts).Ok?
      case Some(e) => Scan(INITIAL, ts) == Err(e)
  {
    var front := ts[..|ts| - 1];
    ScanRenders(front);
    RootExactly(front);
  }

  lemma {:induction false} OffenceInFront(ts: seq<Token>, n: nat)
    requires n < |ts|
    ensures forall i :: 0 <= i < n ==> Offence(ts[..n], i) == Offence(ts, i)
  {
    forall i | 0 <= i < n ensures Offence(ts[..n], i) == Offence(ts, i) {
      assert ts[..n][..i] == ts[..i];
    }
  }

  /** Scanning fails at the first token with something wrong, and with what is wrong with it. */
  lemma {:induction false} ScanFailsExactly(ts: seq<Token>)
    ensures Scan(INITIAL, ts).Ok? <==> Inoffensive(ts, |ts|)
    ensures Scan(INITIAL, ts).Err? ==> exists i :: FirstOffence(ts, i, Scan(INITIAL, ts).error)
    decreases |ts|
  {
    if ts != [] {
      var n := |ts| - 1;
      var front := ts[..n];
      ScanFailsExactly(front);
      OffenceInFront(ts, n);
      if Scan(INITIAL, front).Ok? {
        OffendingStep(ts);
        if Offence(ts, n).Some? { assert FirstOffence(ts, n, Offence(ts, n).value); }
      } else {
        var e := Scan(INITIAL, front).error;
        var i :| FirstOffence(front, i, e);
        assert FirstOffence(ts, i, e);
      }
    }
  }

  lemma {:induction false} FirstOffenceUnique(ts: seq<Token>, i: nat, d: XmlError, j: nat, e: XmlError)
    requires FirstOffence(ts, i, d) && FirstOffence(ts, j, e)
    ensures i == j && d == e
  {
  }

  /**
   Which error a stream gives, in terms of its tokens: that of the first offending token if there
   is one; else that the text was malformed; else that there is no element.
   */
  lemma {:induction false} DecodeFailsExactly(ts: seq<Token>, wellFormed: bool, e: XmlError)
    ensures Decode(ts, wellFormed) == Err(e) <==>
      || (exists i :: FirstOffence(ts, i, e))
      || (Inoffensive(ts, |ts|) && !wellFormed && e == Malformed)
      || (Inoffensive(ts, |ts|) && wellFormed && StartCount(ts) == 0 && e == EmptyDocument)
  {
    ScanFailsExactly(ts);
    if Scan(INITIAL, ts).Err? {
      var d := Scan(INITIAL, ts).error;
      var i :| FirstOffence(ts, i, d);
      if j :| FirstOffence(ts, j, e) { FirstOffenceUnique(ts, i, d, j, e); }
    } else {
      RootedExactly(ts);
    }
  }

  /** Closing what is open leaves a root exactly when some element was started. */
  lemma {:induction false} RootedExactly(ts: seq<Token>)
    requires Scan(INITIAL, ts).Ok?
    ensures CloseAll(Scan(INITIAL, ts).value).root.Some? <==> StartCount(ts) > 0
  {
    ScanRenders(ts);
    CloseAllRenders(Scan(INITIAL, ts).value);
  }

  // ---------- Which directives are refused ----------

  /** A directive is refused exactly when it holds DOCTYPE or ENTITY in any mix of letter cases. */
  lemma {:induction false} UnsafeExactly(text: string)
    ensures Unsafe(text) <==> HoldsWord(text, "DOCTYPE") || HoldsWord(text, "ENTITY")
  {
    AlreadyRaised("DOCTYPE");
    AlreadyRaised("ENTITY");
    RaisedHoldsExactly(text, "DOCTYPE");
    RaisedHoldsExactly(text, "ENTITY");
  }

  lemma {:induction false} AlreadyRaised(word: string)
    requires forall i :: 0 <= i < |word| ==> 'A' <= word[i] <= 'Z'
    ensures ToUpper(word) == word
  {
  }

  /** After an accepted beginning, a directive with either word ends the decoding and any other changes nothing. */
  lemma {:induction false} DirectiveDecides(front: seq<Token>, text: string, rest: seq<Token>, wellFormed: bool)
    requires Scan(INITIAL, front).Ok?
    ensures Decode(front + [Directive(text)] + rest, wellFormed) ==
      if HoldsWord(text, "DOCTYPE") || HoldsWord(text, "ENTITY") then Err(UnsafeDirective)
      else Decode(front + rest, wellFormed)
  {
    UnsafeExactly(text);
    ScanAppend(INITIAL, front + [Directive(text)], rest);
    ScanAppend(INITIAL, front, [Directive(text)]);
    ScanOne(Scan(INITIAL, front).value, Directive(text));
    ScanAppend(INITIAL, front, rest);
  }
}
