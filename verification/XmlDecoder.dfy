/** The tree builder on the heap, proved to build the document the machine of `XmlDocument` decodes. */
module XmlDecoder {
  import opened Options
  import opened XmlDocument

  class XmlNode {
    var name: string
    var attrs: seq<Attr>
    var text: string
    var children: seq<XmlNode>

    /** The element this node stands for, once it is closed. */
    ghost var element: Item

    /** The one node this is a child of, and where in its children. */
    ghost var parent: XmlNode?
    ghost var position: nat

    constructor (name: string, attrs: seq<Attr>, ghost parent: XmlNode?, ghost position: nat)
      ensures this.name == name && this.attrs == attrs && text == "" && children == []
      ensures this.parent == parent && this.position == position
    {
      this.name, this.attrs, text, children := name, attrs, "", [];
      this.parent, this.position := parent, position;
    }

    ghost predicate IsChildOf(n: XmlNode, j: nat)
      reads this`parent, this`position
    {
      parent == n && position == j
    }
  }

  /** The text a node ends up with: every piece received directly inside it, in order. */
  function TextOf(items: seq<Item>): string {
    if items == [] then ""
    else TextOf(items[..|items| - 1]) + (if items[|items| - 1].Chars? then items[|items| - 1].text else "")
  }

  /** The elements directly inside, in order. */
  function Elements(items: seq<Item>): seq<Item> {
    if items == [] then []
    else Elements(items[..|items| - 1]) + (if items[|items| - 1].Element? then [items[|items| - 1]] else [])
  }

  lemma {:induction false} ElementsAreInside(items: seq<Item>, e: Item)
    ensures e in Elements(items) <==> e in items && e.Element?
  {
    if items != [] { ElementsAreInside(items[..|items| - 1], e); }
  }

  /** A node's text is its pieces one after the other. */
  lemma {:induction false} TextInOrder(a: seq<Item>, b: seq<Item>)
    ensures TextOf(a + b) == TextOf(a) + TextOf(b)
    decreases |b|
  {
    if b == [] {
      assert a + b == a;
    } else {
      TextInOrder(a, b[..|b| - 1]);
      assert (a + b)[..|a + b| - 1] == a + b[..|b| - 1];
    }
  }

  /** Its children are its elements in order. */
  lemma {:induction false} ElementsInOrder(a: seq<Item>, b: seq<Item>)
    ensures Elements(a + b) == Elements(a) + Elements(b)
    decreases |b|
  {
    if b == [] {
      assert a + b == a;
    } else {
      ElementsInOrder(a, b[..|b| - 1]);
      assert (a + b)[..|a + b| - 1] == a + b[..|b| - 1];
    }
  }

  lemma {:induction false} ContentsOfOne(x: Item)
    ensures TextOf([x]) == if x.Chars? then x.text else ""
    ensures Elements([x]) == if x.Element? then [x] else []
  {
    assert [x][..0] == [];
  }

  lemma {:induction false} ItemAdded(items: seq<Item>, x: Item)
    ensures TextOf(items + [x]) == TextOf(items) + (if x.Chars? then x.text else "")
    ensures Elements(items + [x]) == Elements(items) + (if x.Element? then [x] else [])
  {
    assert (items + [x])[..|items|] == items;
  }

  /**
   `n` holds what frame `f` says: its first children are closed nodes standing for the elements
   closed inside it so far. `extra` counts the children that follow them.
   */
  ghost predicate Holds(n: XmlNode, f: Frame, closed: set<XmlNode>, extra: nat)
    reads n`name, n`attrs, n`text, n`children, closed
  {
    && n.name == f.name && n.attrs == f.attrs && n.text == TextOf(f.items)
    && |n.children| == |Elements(f.items)| + extra
    && forall j :: 0 <= j < |Elements(f.items)| ==>
         n.children[j] in closed && n.children[j].element == Elements(f.items)[j] && n.children[j].IsChildOf(n, j)
  }

  ghost predicate ClosedNode(n: XmlNode, closed: set<XmlNode>)
    reads n, closed
  {
    n.element.Element? && Holds(n, Frame(n.element.name, n.element.attrs, n.element.items), closed, 0)
  }

  ghost predicate AllClosed(closed: set<XmlNode>)
    reads closed
  {
    forall n :: n in closed ==> ClosedNode(n, closed)
  }

  ghost predicate LastChild(n: XmlNode, child: XmlNode)
    reads n`children, child`parent, child`position
  {
    n.children != [] && n.children[|n.children| - 1] == child && child.IsChildOf(n, |n.children| - 1)
  }

  /**
   The stack is the open rightmost spine: distinct nodes that are not closed, each the last child
   of the one below it, and otherwise holding exactly the closed elements of its frame.
   */
  ghost predicate Spine(stack: seq<XmlNode>, open: seq<Frame>, closed: set<XmlNode>)
    reads stack`name, stack`attrs, stack`text, stack`children, stack`parent, stack`position, closed
  {
    && |stack| == |open|
    && (forall i, j :: 0 <= i < j < |stack| ==> stack[i] != stack[j])
    && (forall i :: 0 <= i < |stack| ==> stack[i] !in closed)
    && (forall i :: 0 <= i < |stack| ==> Holds(stack[i], open[i], closed, if i < |stack| - 1 then 1 else 0))
    && (forall i :: 0 <= i < |stack| - 1 ==> LastChild(stack[i], stack[i + 1]))
  }

  /** The heap stands for the machine's state. */
  ghost predicate Matches(root: XmlNode?, stack: seq<XmlNode>, s: State, closed: set<XmlNode>)
    reads stack, closed
  {
    && AllClosed(closed)
    && Spine(stack, s.open, closed)
    && (root == null <==> s.open == [] && s.root.None?)
    && (stack != [] ==> root == stack[0] && root.parent == null)
    && (s.root.Some? ==> s.open == [] && root in closed && root.element == s.root.value && root.parent == null)
    && |closed| + |stack| == s.starts
  }

  /**
   The tree under `n` is the element `e`, node by node, and no node hangs in two places: each knows
   the one it hangs in.
   */
  ghost predicate Represents(n: XmlNode, e: Item, closed: set<XmlNode>)
    reads closed
    decreases e
  {
    && e.Element? && n in closed
    && n.name == e.name && n.attrs == e.attrs && n.text == TextOf(e.items)
    && |n.children| == |Elements(e.items)|
    && forall j :: 0 <= j < |n.children| ==>
         && Elements(e.items)[j] in e.items && Represents(n.children[j], Elements(e.items)[j], closed)
         && n.children[j].IsChildOf(n, j)
  }

  lemma {:induction false} ClosedRepresents(n: XmlNode, e: Item, closed: set<XmlNode>)
    requires AllClosed(closed) && n in closed && n.element == e
    ensures Represents(n, e, closed)
    decreases e
  {
    assert ClosedNode(n, closed);
    forall j | 0 <= j < |n.children|
      ensures Elements(e.items)[j] in e.items && Represents(n.children[j], Elements(e.items)[j], closed)
      ensures n.children[j].IsChildOf(n, j)
    {
      assert Elements(e.items)[j] in Elements(e.items);
      ElementsAreInside(e.items, Elements(e.items)[j]);
      ClosedRepresents(n.children[j], Elements(e.items)[j], closed);
    }
  }

  // ---------- One turn of the loop ----------

  /** Hangs a new node under the top of the stack, or makes it the root, and puts it on the stack. */
  method Push(root: XmlNode?, stack: seq<XmlNode>, name: string, attrs: seq<Attr>,
      ghost s: State, ghost closed: set<XmlNode>)
    returns (root': XmlNode, stack': seq<XmlNode>)
    requires Matches(root, stack, s, closed) && (stack == [] ==> root == null)
    modifies stack
    ensures forall n :: n in stack' ==> n in stack || fresh(n)
    ensures Matches(root', stack', s.(open := s.open + [Frame(name, attrs, [])], starts := s.starts + 1), closed)
  {
    var node := new XmlNode(name, attrs, if stack == [] then null else stack[|stack| - 1],
                            if stack == [] then 0 else |stack[|stack| - 1].children|);
    ghost var f := Frame(name, attrs, []);
    assert Holds(node, f, closed, 0);
    if |stack| == 0 {
      root' := node;
    } else {
      Hang(stack[|stack| - 1], node, f, stack, s.open, closed);
      root' := root;
    }
    stack' := stack + [node];
    assert AllClosed(closed);
    assert Spine(stack', s.open + [f], closed);
  }

  /** Makes `node` the last child of the top of the stack. */
  method Hang(parent: XmlNode, node: XmlNode, ghost f: Frame, ghost stack: seq<XmlNode>, ghost open: seq<Frame>,
              ghost closed: set<XmlNode>)
    requires stack != [] && parent == stack[|stack| - 1] && Spine(stack, open, closed)
    requires node !in stack && node !in closed && Holds(node, f, closed, 0) && node.IsChildOf(parent, |parent.children|)
    modifies parent`children
    ensures Spine(stack + [node], open + [f], closed)
  {
    assert Holds(parent, open[|stack| - 1], closed, 0);
    AddChild(parent, node, open[|stack| - 1], closed);
    assert forall i :: 0 <= i < |stack| ==> Holds(stack[i], open[i], closed, 1);
    assert forall i :: 0 <= i < |stack| - 1 ==> LastChild(stack[i], stack[i + 1]);
    SpinePushed(stack, open, node, f, closed);
  }

  method AddChild(parent: XmlNode, node: XmlNode, ghost f: Frame, ghost closed: set<XmlNode>)
    requires Holds(parent, f, closed, 0) && parent !in closed
    modifies parent`children
    ensures Holds(parent, f, closed, 1) && parent.children == old(parent.children) + [node]
  {
    parent.children := parent.children + [node];
  }

  lemma {:induction false} SpinePushed(stack: seq<XmlNode>, open: seq<Frame>,
      node: XmlNode, f: Frame, closed: set<XmlNode>)
    requires |stack| == |open| && node !in stack && node !in closed && Holds(node, f, closed, 0)
    requires forall i, j :: 0 <= i < j < |stack| ==> stack[i] != stack[j]
    requires forall i :: 0 <= i < |stack| ==> stack[i] !in closed
    requires forall i :: 0 <= i < |stack| ==>
      Holds(stack[i], open[i], closed, 1) && LastChild(stack[i], (stack + [node])[i + 1])
    ensures Spine(stack + [node], open + [f], closed)
  {
    var longer, frames := stack + [node], open + [f];
    assert forall i :: 0 <= i < |stack| ==> longer[i] == stack[i] && frames[i] == open[i];
    assert longer[|stack|] == node && frames[|stack|] == f;
  }

  method AppendText(top: XmlNode, text: string, ghost root: XmlNode?, ghost stack: seq<XmlNode>, ghost s: State,
                    ghost closed: set<XmlNode>)
    requires Matches(root, stack, s, closed) && stack != [] && top == stack[|stack| - 1]
    modifies top
    ensures Matches(root, stack, s.(open := AddToTop(s.open, Chars(text))), closed)
  {
    ghost var n, after := |stack| - 1, AddToTop(s.open, Chars(text));
    WriteText(top, text, s.open[n], closed);
    assert AllClosed(closed);
    assert forall i :: 0 <= i < n ==> Holds(stack[i], s.open[i], closed, 1);
    SpineTopReplaced(stack, s.open, after, closed);
  }

  method WriteText(top: XmlNode, text: string, ghost f: Frame, ghost closed: set<XmlNode>)
    requires Holds(top, f, closed, 0) && top !in closed
    modifies top`text
    ensures Holds(top, f.(items := f.items + [Chars(text)]), closed, 0)
  {
    ItemAdded(f.items, Chars(text));
    top.text := top.text + text;
  }

  /** A spine is one frame by frame, so replacing the top frame by what the top node now holds keeps it. */
  lemma {:induction false} SpineTopReplaced(stack: seq<XmlNode>, open: seq<Frame>,
      after: seq<Frame>, closed: set<XmlNode>)
    requires |stack| == |open| == |after| > 0 && after[..|open| - 1] == open[..|open| - 1]
    requires forall i, j :: 0 <= i < j < |stack| ==> stack[i] != stack[j]
    requires forall i :: 0 <= i < |stack| ==> stack[i] !in closed
    requires forall i :: 0 <= i < |stack| - 1 ==>
      Holds(stack[i], open[i], closed, 1) && LastChild(stack[i], stack[i + 1])
    requires Holds(stack[|stack| - 1], after[|stack| - 1], closed, 0)
    ensures Spine(stack, after, closed)
  {
    assert forall i :: 0 <= i < |stack| - 1 ==> after[i] == open[..|open| - 1][i];
  }

  lemma {:induction false} ClosedInLarger(closed: set<XmlNode>, top: XmlNode)
    requires AllClosed(closed) && ClosedNode(top, closed)
    ensures AllClosed(closed + {top})
  {
    forall m | m in closed + {top} ensures ClosedNode(m, closed + {top}) {
      assert ClosedNode(m, closed);
    }
  }

  lemma {:induction false} LastChildCloses(n: XmlNode, f: Frame, e: Item, closed: set<XmlNode>, child: XmlNode)
    requires Holds(n, f, closed, 1) && LastChild(n, child) && child.element == e && e.Element?
    ensures Holds(n, f.(items := f.items + [e]), closed + {child}, 0)
  {
    ItemAdded(f.items, e);
  }

  lemma {:induction false} HoldsInLarger(n: XmlNode, f: Frame, closed: set<XmlNode>, m: XmlNode, extra: nat)
    requires Holds(n, f, closed, extra)
    ensures Holds(n, f, closed + {m}, extra)
  {
  }

  lemma {:induction false} SpinePopped(stack: seq<XmlNode>, open: seq<Frame>, closed: set<XmlNode>)
    requires |stack| > 1 && Spine(stack, open, closed)
    requires stack[|stack| - 1].element == Closed(open[|stack| - 1])
    ensures var n := |stack| - 1;
      Spine(stack[..n], AddToTop(open[..n], Closed(open[n])), closed + {stack[n]})
  {
    var n := |stack| - 1;
    var e, larger := Closed(open[n]), closed + {stack[n]};
    var after := AddToTop(open[..n], e);
    forall i | 0 <= i < n ensures Holds(stack[i], after[i], larger, if i < n - 1 then 1 else 0) {
      assert LastChild(stack[i], stack[i + 1]);
      if i == n - 1 {
        LastChildCloses(stack[i], open[i], e, closed, stack[n]);
      } else {
        HoldsInLarger(stack[i], open[i], closed, stack[n], 1);
      }
    }
  }

  lemma {:induction false} PoppedMatches(root: XmlNode?, stack: seq<XmlNode>, s: State, closed: set<XmlNode>)
    requires Matches(root, stack, s, closed) && stack != []
    requires var n := |stack| - 1; stack[n].element == Closed(s.open[n])
    ensures Matches(root, stack[..|stack| - 1], Pop(s), closed + {stack[|stack| - 1]})
  {
    var n := |stack| - 1;
    assert Holds(stack[n], s.open[n], closed, 0);
    assert ClosedNode(stack[n], closed);
    ClosedInLarger(closed, stack[n]);
    if n > 0 {
      SpinePopped(stack, s.open, closed);
    }
  }

  /** Closing the top element writes nothing but the ghost record of which element it became. */
  ghost method PopTop(root: XmlNode?, stack: seq<XmlNode>, s: State, closed: set<XmlNode>)
    returns (closed': set<XmlNode>)
    requires Matches(root, stack, s, closed) && stack != []
    modifies stack[|stack| - 1]
    ensures closed' == closed + {stack[|stack| - 1]}
    ensures Matches(root, stack[..|stack| - 1], Pop(s), closed')
  {
    var n := |stack| - 1;
    var top := stack[n];
    Mark(top, s.open[n], closed);
    closed' := closed + {top};
    assert AllClosed(closed);
    assert Spine(stack, s.open, closed);
    PoppedMatches(root, stack, s, closed);
  }

  ghost method Mark(top: XmlNode, f: Frame, closed: set<XmlNode>)
    requires Holds(top, f, closed, 0) && top !in closed
    modifies top`element
    ensures Holds(top, f, closed, 0) && top.element == Closed(f)
  {
    top.element := Closed(f);
  }

  /** Records, from the top down, the elements that the end of the stream closes. */
  ghost method PopAll(root: XmlNode?, stack: seq<XmlNode>, s: State, closed: set<XmlNode>)
    returns (closed': set<XmlNode>)
    requires Matches(root, stack, s, closed)
    modifies stack
    ensures forall n :: n in closed' ==> n in closed || n in stack
    ensures Matches(root, [], CloseAll(s), closed')
    decreases |stack|
  {
    closed' := closed;
    if stack == [] {
      return;
    }
    closed' := PopTop(root, stack, s, closed);
    var rest := stack[..|stack| - 1];
    assert forall n :: n in rest ==> n in stack;
    closed' := PopAll(root, rest, Pop(s), closed');
  }

  method ReadStart(name: string, attrs: seq<Attr>, root: XmlNode?, stack: seq<XmlNode>, nodes: nat,
                   ghost s: State, ghost closed: set<XmlNode>)
    returns (err: Option<XmlError>, root': XmlNode?, stack': seq<XmlNode>, nodes': nat)
    requires Matches(root, stack, s, closed) && nodes == s.starts
    modifies stack
    ensures err.None? <==> Step(s, Start(name, attrs)).Ok?
    ensures err.Some? ==> err.value == Step(s, Start(name, attrs)).error
    ensures err.None? ==>
      var after := Step(s, Start(name, attrs)).value;
      nodes' == after.starts && Matches(root', stack', after, closed)
    ensures err.None? ==> forall n :: n in stack' ==> n in stack || fresh(n)
  {
    err, root', stack', nodes' := None, root, stack, nodes;
    if |stack| + 1 > MAX_DEPTH {
      err := Some(TooComplex);
      return;
    }
    nodes' := nodes + 1;
    if nodes' > MAX_NODES {
      err := Some(TooComplex);
      return;
    }
    if |stack| == 0 && root != null {
      err := Some(MultipleRoots);
      return;
    }
    root', stack' := Push(root, stack, name, attrs, s, closed);
  }

  method ReadToken(t: Token, root: XmlNode?, stack: seq<XmlNode>, nodes: nat,
      ghost s: State, ghost closed: set<XmlNode>)
    returns (err: Option<XmlError>, root': XmlNode?, stack': seq<XmlNode>, nodes': nat, ghost closed': set<XmlNode>)
    requires Matches(root, stack, s, closed) && nodes == s.starts
    modifies stack
    ensures err.None? <==> Step(s, t).Ok?
    ensures err.Some? ==> err.value == Step(s, t).error
    ensures err.None? ==> nodes' == Step(s, t).value.starts && Matches(root', stack', Step(s, t).value, closed')
    ensures err.None? ==> forall n :: n in stack' ==> n in stack || fresh(n)
    ensures err.None? ==> forall n :: n in closed' ==> n in closed || n in stack
  {
    err, root', stack', nodes', closed' := None, root, stack, nodes, closed;
    match t {
      case Directive(text) =>
        if Unsafe(text) {
          err := Some(UnsafeDirective);
        }
      case Start(name, attrs) =>
        err, root', stack', nodes' := ReadStart(name, attrs, root, stack, nodes, s, closed);
      case End =>
        if |stack| > 0 {
          closed' := PopTop(root, stack, s, closed);
          stack' := stack[..|stack| - 1];
        }
      case CharData(text) =>
        if |stack| > 0 {
          AppendText(stack[|stack| - 1], text, root, stack, s, closed);
        }
      case Other =>
    }
  }

  // ---------- The whole stream ----------

  method ReadTokens(tokens: seq<Token>)
    returns (err: Option<XmlError>, root: XmlNode?, stack: seq<XmlNode>, ghost s: State, ghost closed: set<XmlNode>)
    ensures err.None? ==> Scan(INITIAL, tokens) == Ok(s) && Matches(root, stack, s, closed)
    ensures err.None? ==> forall n :: n in stack || n in closed ==> fresh(n)
    ensures err.Some? ==> Scan(INITIAL, tokens) == Err(err.value)
  {
    err, root, stack, s, closed := None, null, [], INITIAL, {};
    var nodes := 0;
    for i := 0 to |tokens|
      invariant Scan(INITIAL, tokens[..i]) == Ok(s) && nodes == s.starts && err.None?
      invariant Matches(root, stack, s, closed)
      invariant forall n :: n in stack || n in closed ==> fresh(n)
    {
      ScanNext(tokens, i, s);
      err, root, stack, nodes, closed := ReadToken(tokens[i], root, stack, nodes, s, closed);
      if err.Some? {
        return;
      }
      s := Step(s, tokens[i]).value;
    }
    assert tokens[..|tokens|] == tokens;
  }

  const UNCLOSED := "feed XML ended before all elements were explicitly closed"

  /**
   On success the heap tree under `root` is the decoded document, made of exactly as many new
   nodes as it has elements; errors and the warning are the machine's.
   */
  method DecodeTree(tokens: seq<Token>, wellFormed: bool)
    returns (root: XmlNode?, warnings: seq<string>, err: Option<XmlError>, ghost closed: set<XmlNode>)
    ensures
      match Decode(tokens, wellFormed)
      case Err(e) => err == Some(e) && root == null && warnings == []
      case Ok((document, unclosed)) =>
        && err.None? && root != null && warnings == (if unclosed then [UNCLOSED] else [])
        && Represents(root, document, closed) && root.parent == null
        && fresh(closed) && |closed| == StartCount(tokens)
  {
    var stack: seq<XmlNode>;
    ghost var s: State;
    err, root, stack, s, closed := ReadTokens(tokens);
    warnings := [];
    if err.Some? {
      root := null;
      return;
    }
    ScanRenders(tokens);
    CloseAllRenders(s);
    if !wellFormed {
      root, err := null, Some(Malformed);
      return;
    }
    if root == null {
      err := Some(EmptyDocument);
      return;
    }
    if |stack| != 0 {
      warnings := [UNCLOSED];
    }
    closed := PopAll(root, stack, s, closed);
    ClosedRepresents(root, CloseAll(s).root.value, closed);
  }

  /** The state after one more token; once a prefix fails, the stream fails the same way. */
  lemma {:induction false} ScanNext(tokens: seq<Token>, i: nat, s: State)
    requires i < |tokens| && Scan(INITIAL, tokens[..i]) == Ok(s)
    ensures Scan(INITIAL, tokens[..i + 1]) == Step(s, tokens[i])
    ensures Step(s, tokens[i]).Err? ==> Scan(INITIAL, tokens) == Err(Step(s, tokens[i]).error)
  {
    assert tokens[..i + 1][..i] == tokens[..i];
    assert tokens == tokens[..i + 1] + tokens[i + 1..];
    ScanAppend(INITIAL, tokens[..i + 1], tokens[i + 1..]);
  }
}
