/** On a tree whose sibling names are distinct and free of slashes, a path names one node, so the parser
    returns under each node's path exactly that node's properties. */
module InspectDtbPaths {
  import opened Bytes
  import opened FlattenedDeviceTree
  import opened InspectDtb
  import Utf8

  predicate Plain(name: Name) {
    name != [] && SLASH !in name
  }

  ghost predicate AllPlain(stack: seq<Name>) {
    forall k: nat | k < |stack| :: Plain(stack[k])
  }

  /** Below the root, names as shown are not empty and hold no slash. */
  ghost predicate PlainBelow(n: Node)
    decreases n
  {
    forall k: nat | k < |n.children| :: Plain(Shown(n.children[k])) && PlainBelow(n.children[k])
  }

  /** Section 2.2: below the root, names are not empty, hold no slash, and differ among siblings.  What counts
      are the names as shown; for names in UTF-8 these are the names themselves. */
  ghost predicate WellNamed(n: Node)
    decreases n
  {
    && (forall j: nat, k: nat | j < k < |n.children| :: Shown(n.children[j]) != Shown(n.children[k]))
    && (forall k: nat | k < |n.children| :: Plain(Shown(n.children[k])) && WellNamed(n.children[k]))
  }

  lemma JoinOfPlain(stack: seq<Name>)
    requires AllPlain(stack)
    ensures stack != [] ==> Join(stack) != [] && stack[0] <= Join(stack)
    ensures |stack| == 1 ==> Join(stack) == stack[0]
    ensures |stack| > 1 ==> Join(stack) == stack[0] + [SLASH] + Join(stack[1..]) && |Join(stack)| > |stack[0]|
    decreases |stack|
  {
    if |stack| > 1 {
      JoinOfPlain(stack[1..]);
    }
  }

  lemma FirstNameLength(a: seq<Name>, b: seq<Name>)
    requires AllPlain(a) && AllPlain(b) && a != [] && b != [] && Join(a) == Join(b)
    ensures |a[0]| >= |b[0]|
  {
    JoinOfPlain(a);
    JoinOfPlain(b);
    var n := |a[0]|;
    assert forall k: nat | k < |b[0]| :: Join(b)[k] == b[0][k] && b[0][k] in b[0];
    assert |a| > 1 ==> Join(a)[n] == SLASH;
  }

  lemma {:induction false} JoinInjective(a: seq<Name>, b: seq<Name>)
    requires AllPlain(a) && AllPlain(b) && Join(a) == Join(b)
    ensures a == b
    decreases |a|
  {
    JoinOfPlain(a);
    JoinOfPlain(b);
    if a != [] && b != [] {
      FirstNameLength(a, b);
      FirstNameLength(b, a);
      assert a[0] == Join(a)[..|a[0]|] == b[0];
      if |a| > 1 && |b| > 1 {
        var n := |a[0]| + 1;
        assert Join(a[1..]) == Join(a)[n..] == Join(b[1..]);
        JoinInjective(a[1..], b[1..]);
        assert a == [a[0]] + a[1..] && b == [b[0]] + b[1..];
      }
    }
  }

  /** A stack under a root with the empty name. */
  ghost predicate Rooted(stack: seq<Name>) {
    stack != [] && stack[0] == [] && AllPlain(stack[1..])
  }

  lemma PathInjective(a: seq<Name>, b: seq<Name>)
    requires Rooted(a) && Rooted(b) && PathOf(a) == PathOf(b)
    ensures a == b
  {
    RootedPath(a);
    RootedPath(b);
    JoinInjective(a[1..], b[1..]);
  }

  lemma RootedPath(stack: seq<Name>)
    requires Rooted(stack)
    ensures Join(stack[1..]) == PathOf(stack)[1..] && stack == [[]] + stack[1..]
  {
  }

  // ----- Occurrences by stack -----

  function AtStack(os: seq<Occurrence>, stack: seq<Name>): seq<Named> {
    if os == [] then []
    else (if os[0].stack == stack then [os[0].property] else []) + AtStack(os[1..], stack)
  }

  lemma {:induction false} AtStackAppend(a: seq<Occurrence>, b: seq<Occurrence>, stack: seq<Name>)
    ensures AtStack(a + b, stack) == AtStack(a, stack) + AtStack(b, stack)
  {
    if a == [] {
      assert a + b == b;
    } else {
      var head := if a[0].stack == stack then [a[0].property] else [];
      var x, y := AtStack(a[1..], stack), AtStack(b, stack);
      AtStackAppend(a[1..], b, stack);
      assert (a + b)[0] == a[0] && (a + b)[1..] == a[1..] + b;
      assert AtStack(a + b, stack) == head + (x + y);
      assert head + (x + y) == (head + x) + y;
    }
  }

  lemma {:induction false} AtStackNone(os: seq<Occurrence>, stack: seq<Name>)
    requires forall k: nat | k < |os| :: os[k].stack != stack
    ensures AtStack(os, stack) == []
  {
    if os != [] {
      AtStackNone(os[1..], stack);
    }
  }

  lemma {:induction false} TaggedAtStack(stack: seq<Name>, ps: seq<Named>)
    ensures AtStack(Tagged(stack, ps), stack) == ps
    ensures forall k: nat | k < |Tagged(stack, ps)| :: Tagged(stack, ps)[k].stack == stack
  {
    if ps != [] {
      TaggedAtStack(stack, ps[1..]);
    }
  }

  ghost predicate AllBelow(os: seq<Occurrence>, prefix: seq<Name>) {
    forall k: nat | k < |os| :: prefix <= os[k].stack
  }

  lemma {:induction false} OccurrencesBelow(n: Node, strings: bytes, above: seq<Name>)
    requires TreeOk(n, strings)
    ensures AllBelow(Occurrences(n, strings, above), above + [Shown(n)])
    decreases n, 0
  {
    TaggedAtStack(above + [Shown(n)], OwnProperties(n.properties, strings));
    ForestBelow(n.children, strings, above + [Shown(n)]);
  }

  lemma {:induction false} ForestBelow(ns: seq<Node>, strings: bytes, above: seq<Name>)
    requires ForestOk(ns, strings)
    ensures AllBelow(ForestOccurrences(ns, strings, above), above)
    ensures forall k: nat | k < |ForestOccurrences(ns, strings, above)| ::
              ForestOccurrences(ns, strings, above)[k].stack != above
    decreases ns, 1
  {
    if ns != [] {
      OccurrencesBelow(ns[0], strings, above);
      ForestBelow(ns[1..], strings, above);
    }
  }

  // ----- One node -----

  /** The node that child indices lead to, and the names on the way. */
  ghost predicate Leads(n: Node, location: seq<nat>)
    decreases |location|
  {
    location != [] ==> location[0] < |n.children| && Leads(n.children[location[0]], location[1..])
  }

  function NodeAt(n: Node, location: seq<nat>): Node
    requires Leads(n, location)
    decreases |location|
  {
    if location == [] then n else NodeAt(n.children[location[0]], location[1..])
  }

  function StackTo(n: Node, location: seq<nat>, above: seq<Name>): (stack: seq<Name>)
    requires Leads(n, location)
    ensures above + [Shown(n)] <= stack
    decreases |location|
  {
    if location == [] then above + [Shown(n)]
    else StackTo(n.children[location[0]], location[1..], above + [Shown(n)])
  }

  lemma {:induction false} NodeAtOk(n: Node, location: seq<nat>, strings: bytes)
    requires Leads(n, location) && TreeOk(n, strings)
    ensures TreeOk(NodeAt(n, location), strings)
    decreases |location|
  {
    if location != [] {
      NodeAtOk(n.children[location[0]], location[1..], strings);
    }
  }

  /** Among the locations whose stack of names is `stack`, those other than `location` have no properties. */
  ghost predicate SilentBut(n: Node, above: seq<Name>, stack: seq<Name>, location: seq<nat>) {
    forall other: seq<nat> | Leads(n, other) && other != location && StackTo(n, other, above) == stack ::
      NodeAt(n, other).properties == []
  }

  ghost predicate Silent(n: Node, above: seq<Name>, stack: seq<Name>) {
    forall other: seq<nat> | Leads(n, other) && StackTo(n, other, above) == stack :: NodeAt(n, other).properties == []
  }

  /** Going down to child `k`. */
  lemma Down(n: Node, k: nat, other: seq<nat>, above: seq<Name>)
    requires k < |n.children| && Leads(n.children[k], other)
    ensures Leads(n, [k] + other) && NodeAt(n, [k] + other) == NodeAt(n.children[k], other)
    ensures StackTo(n, [k] + other, above) == StackTo(n.children[k], other, above + [Shown(n)])
  {
    assert ([k] + other)[1..] == other;
  }

  lemma SilentChild(n: Node, k: nat, above: seq<Name>, stack: seq<Name>, location: seq<nat>)
    requires k < |n.children| && SilentBut(n, above, stack, location)
    ensures location == [] || location[0] != k ==> Silent(n.children[k], above + [Shown(n)], stack)
    ensures location != [] && location[0] == k ==>
              SilentBut(n.children[k], above + [Shown(n)], stack, location[1..])
  {
    forall other: seq<nat> | Leads(n.children[k], other)
      ensures Leads(n, [k] + other) && NodeAt(n, [k] + other) == NodeAt(n.children[k], other)
      ensures StackTo(n, [k] + other, above) == StackTo(n.children[k], other, above + [Shown(n)])
      ensures [k] + other == location ==> location != [] && location[0] == k && location[1..] == other
    {
      Down(n, k, other, above);
    }
    forall other: seq<nat> | Leads(n.children[k], other)
                             && StackTo(n.children[k], other, above + [Shown(n)]) == stack
      ensures [k] + other == location || NodeAt(n.children[k], other).properties == []
    {
      assert Leads(n, [k] + other);
    }
  }

  lemma SilentWhole(n: Node, above: seq<Name>, stack: seq<Name>)
    requires Silent(n, above, stack)
    ensures above + [Shown(n)] == stack ==> n.properties == []
    ensures forall k: nat | k < |n.children| :: Silent(n.children[k], above + [Shown(n)], stack)
  {
    if above + [Shown(n)] == stack {
      assert Leads(n, []) && StackTo(n, [], above) == stack;
      assert NodeAt(n, []).properties == [];
    }
    forall k: nat | k < |n.children|
      ensures Silent(n.children[k], above + [Shown(n)], stack)
    {
      forall other: seq<nat> | Leads(n.children[k], other)
                               && StackTo(n.children[k], other, above + [Shown(n)]) == stack
        ensures NodeAt(n.children[k], other).properties == []
      {
        Down(n, k, other, above);
      }
    }
  }

  lemma {:induction false} SilentHasNone(n: Node, strings: bytes, above: seq<Name>, stack: seq<Name>)
    requires TreeOk(n, strings) && Silent(n, above, stack)
    ensures AtStack(Occurrences(n, strings, above), stack) == []
    decreases n, 0
  {
    var here := above + [Shown(n)];
    var own := Tagged(here, OwnProperties(n.properties, strings));
    SilentWhole(n, above, stack);
    TaggedAtStack(here, OwnProperties(n.properties, strings));
    AtStackAppend(own, ForestOccurrences(n.children, strings, here), stack);
    if here != stack {
      AtStackNone(own, stack);
    }
    SilentForestHasNone(n.children, strings, here, stack);
  }

  lemma {:induction false} SilentForestHasNone(ns: seq<Node>, strings: bytes, above: seq<Name>, stack: seq<Name>)
    requires ForestOk(ns, strings) && forall k: nat | k < |ns| :: Silent(ns[k], above, stack)
    ensures AtStack(ForestOccurrences(ns, strings, above), stack) == []
    decreases ns, 1
  {
    if ns != [] {
      AtStackAppend(Occurrences(ns[0], strings, above), ForestOccurrences(ns[1..], strings, above), stack);
      SilentHasNone(ns[0], strings, above, stack);
      SilentForestHasNone(ns[1..], strings, above, stack);
    }
  }

  /** If the other children are silent, only child `k` counts. */
  lemma {:induction false} OnlyOneChild(ns: seq<Node>, k: nat, strings: bytes, above: seq<Name>, stack: seq<Name>)
    requires ForestOk(ns, strings) && k < |ns|
    requires forall j: nat | j < |ns| && j != k :: Silent(ns[j], above, stack)
    ensures AtStack(ForestOccurrences(ns, strings, above), stack)
            == AtStack(Occurrences(ns[k], strings, above), stack)
    decreases |ns|
  {
    AtStackAppend(Occurrences(ns[0], strings, above), ForestOccurrences(ns[1..], strings, above), stack);
    if k == 0 {
      SilentForestHasNone(ns[1..], strings, above, stack);
    } else {
      SilentHasNone(ns[0], strings, above, stack);
      OnlyOneChild(ns[1..], k - 1, strings, above, stack);
    }
  }

  lemma {:induction false} OwnAtStack(n: Node, location: seq<nat>, strings: bytes, above: seq<Name>)
    requires TreeOk(n, strings) && Leads(n, location)
    requires SilentBut(n, above, StackTo(n, location, above), location)
    ensures TreeOk(NodeAt(n, location), strings)
    ensures AtStack(Occurrences(n, strings, above), StackTo(n, location, above))
            == OwnProperties(NodeAt(n, location).properties, strings)
    decreases |location|
  {
    NodeAtOk(n, location, strings);
    var here := above + [Shown(n)];
    var stack := StackTo(n, location, above);
    var own := Tagged(here, OwnProperties(n.properties, strings));
    var forest := ForestOccurrences(n.children, strings, here);
    AtStackAppend(own, forest, stack);
    TaggedAtStack(here, OwnProperties(n.properties, strings));
    if location == [] {
      ForestBelow(n.children, strings, here);
      AtStackNone(forest, stack);
    } else {
      AtStackNone(own, stack);
      forall j: nat | j < |n.children| && j != location[0]
        ensures Silent(n.children[j], here, stack)
      {
        SilentChild(n, j, above, stack, location);
      }
      SilentChild(n, location[0], above, stack, location);
      OnlyOneChild(n.children, location[0], strings, here, stack);
      OwnAtStack(n.children[location[0]], location[1..], strings, here);
    }
  }

  // ----- Two nodes with one stack -----

  lemma {:induction false} AsManyAsOwn(ps: seq<Property>, strings: bytes)
    requires forall k: nat | k < |ps| :: NameOffsetOk(strings, ps[k].nameOffset)
    ensures |OwnProperties(ps, strings)| == |ps|
  {
    if ps != [] {
      AsManyAsOwn(ps[1..], strings);
    }
  }

  /** How many properties the nodes of a forest with this stack have. */
  function ForestCount(ns: seq<Node>, strings: bytes, above: seq<Name>, stack: seq<Name>): nat
    requires ForestOk(ns, strings)
  {
    |AtStack(ForestOccurrences(ns, strings, above), stack)|
  }

  function Count(n: Node, strings: bytes, above: seq<Name>, stack: seq<Name>): nat
    requires TreeOk(n, strings)
  {
    |AtStack(Occurrences(n, strings, above), stack)|
  }

  lemma FirstOfForest(ns: seq<Node>, strings: bytes, above: seq<Name>, stack: seq<Name>) returns (rest: seq<Node>)
    requires ForestOk(ns, strings) && ns != []
    ensures |rest| == |ns| - 1 && forall k: nat | k < |rest| :: rest[k] == ns[k + 1]
    ensures ForestOk(rest, strings)
    ensures ForestCount(ns, strings, above, stack)
            == Count(ns[0], strings, above, stack) + ForestCount(rest, strings, above, stack)
  {
    rest := ns[1..];
    AtStackAppend(Occurrences(ns[0], strings, above), ForestOccurrences(rest, strings, above), stack);
  }

  lemma {:induction false} ForestHasChild(ns: seq<Node>, k: nat, strings: bytes, above: seq<Name>, stack: seq<Name>)
    requires ForestOk(ns, strings) && k < |ns|
    ensures ForestCount(ns, strings, above, stack) >= Count(ns[k], strings, above, stack)
    decreases |ns|
  {
    var rest := FirstOfForest(ns, strings, above, stack);
    if k > 0 {
      ForestHasChild(rest, k - 1, strings, above, stack);
    }
  }

  lemma {:induction false} ForestHasBoth(
    ns: seq<Node>, j: nat, k: nat, strings: bytes, above: seq<Name>, stack: seq<Name>)
    requires ForestOk(ns, strings) && j < k < |ns|
    ensures ForestCount(ns, strings, above, stack)
            >= Count(ns[j], strings, above, stack) + Count(ns[k], strings, above, stack)
    decreases |ns|
  {
    var rest := FirstOfForest(ns, strings, above, stack);
    if j > 0 {
      ForestHasBoth(rest, j - 1, k - 1, strings, above, stack);
    } else {
      ForestHasChild(rest, k - 1, strings, above, stack);
    }
  }

  lemma StackOfTree(n: Node, strings: bytes, above: seq<Name>, stack: seq<Name>)
    requires TreeOk(n, strings)
    ensures var here := above + [Shown(n)];
            var own := if here == stack then |n.properties| else 0;
            Count(n, strings, above, stack) == own + ForestCount(n.children, strings, here, stack)
  {
    var here := above + [Shown(n)];
    var own := Tagged(here, OwnProperties(n.properties, strings));
    AsManyAsOwn(n.properties, strings);
    TaggedAtStack(here, OwnProperties(n.properties, strings));
    AtStackAppend(own, ForestOccurrences(n.children, strings, here), stack);
    if here != stack {
      AtStackNone(own, stack);
    }
  }

  lemma {:induction false} HasOwn(n: Node, a: seq<nat>, strings: bytes, above: seq<Name>)
    requires TreeOk(n, strings) && Leads(n, a)
    ensures Count(n, strings, above, StackTo(n, a, above)) >= |NodeAt(n, a).properties|
    decreases |a|
  {
    var here, stack := above + [Shown(n)], StackTo(n, a, above);
    StackOfTree(n, strings, above, stack);
    if a != [] {
      HasOwn(n.children[a[0]], a[1..], strings, here);
      ForestHasChild(n.children, a[0], strings, here, stack);
    }
  }

  /** The path of two nodes holds the properties of both. */
  lemma {:induction false} HasBoth(n: Node, a: seq<nat>, b: seq<nat>, strings: bytes, above: seq<Name>)
    requires TreeOk(n, strings) && Leads(n, a) && Leads(n, b) && a != b
    requires StackTo(n, a, above) == StackTo(n, b, above)
    ensures Count(n, strings, above, StackTo(n, a, above)) >= |NodeAt(n, a).properties| + |NodeAt(n, b).properties|
    decreases |a|
  {
    var here, stack := above + [Shown(n)], StackTo(n, a, above);
    StackOfTree(n, strings, above, stack);
    if a != [] && b != [] {
      if a[0] == b[0] {
        assert a == [a[0]] + a[1..] && b == [b[0]] + b[1..];
        HasBoth(n.children[a[0]], a[1..], b[1..], strings, here);
        ForestHasChild(n.children, a[0], strings, here, stack);
      } else {
        HasOwn(n.children[a[0]], a[1..], strings, here);
        HasOwn(n.children[b[0]], b[1..], strings, here);
        ForestHasBoth(n.children, if a[0] < b[0] then a[0] else b[0], if a[0] < b[0] then b[0] else a[0],
                      strings, here, stack);
      }
    }
  }

  /** The occurrences of a stack are the properties of one node exactly if the other nodes with that stack
      have none. */
  lemma OwnExactlyWhen(n: Node, location: seq<nat>, strings: bytes, above: seq<Name>)
    requires TreeOk(n, strings) && Leads(n, location)
    ensures TreeOk(NodeAt(n, location), strings)
    ensures AtStack(Occurrences(n, strings, above), StackTo(n, location, above))
            == OwnProperties(NodeAt(n, location).properties, strings)
            <==> SilentBut(n, above, StackTo(n, location, above), location)
  {
    NodeAtOk(n, location, strings);
    var stack := StackTo(n, location, above);
    if SilentBut(n, above, stack, location) {
      OwnAtStack(n, location, strings, above);
    }
    if AtStack(Occurrences(n, strings, above), stack) == OwnProperties(NodeAt(n, location).properties, strings) {
      AsManyAsOwn(NodeAt(n, location).properties, strings);
      forall other: seq<nat> | Leads(n, other) && other != location && StackTo(n, other, above) == stack
        ensures NodeAt(n, other).properties == []
      {
        HasBoth(n, location, other, strings, above);
      }
    }
  }

  lemma {:induction false} OccurrencesRooted(n: Node, strings: bytes, above: seq<Name>)
    requires TreeOk(n, strings) && PlainBelow(n) && Rooted(above + [Shown(n)])
    ensures forall k: nat | k < |Occurrences(n, strings, above)| :: Rooted(Occurrences(n, strings, above)[k].stack)
    decreases n, 0
  {
    TaggedAtStack(above + [Shown(n)], OwnProperties(n.properties, strings));
    ForestRooted(n.children, strings, above + [Shown(n)]);
  }

  lemma {:induction false} ForestRooted(ns: seq<Node>, strings: bytes, above: seq<Name>)
    requires ForestOk(ns, strings) && Rooted(above)
    requires forall k: nat | k < |ns| :: Plain(Shown(ns[k])) && PlainBelow(ns[k])
    ensures forall k: nat | k < |ForestOccurrences(ns, strings, above)| ::
              Rooted(ForestOccurrences(ns, strings, above)[k].stack)
    decreases ns, 1
  {
    if ns != [] {
      assert Rooted(above + [Shown(ns[0])]);
      OccurrencesRooted(ns[0], strings, above);
      ForestRooted(ns[1..], strings, above);
    }
  }

  lemma {:induction false} StackToRooted(n: Node, location: seq<nat>, above: seq<Name>)
    requires PlainBelow(n) && Leads(n, location) && Rooted(above + [Shown(n)])
    ensures Rooted(StackTo(n, location, above))
    decreases |location|
  {
    if location != [] {
      var child := n.children[location[0]];
      assert Rooted(above + [Shown(n)] + [Shown(child)]);
      StackToRooted(child, location[1..], above + [Shown(n)]);
    }
  }

  lemma {:induction false} AtPathIsAtStack(os: seq<Occurrence>, stack: seq<Name>)
    requires Rooted(stack) && forall k: nat | k < |os| :: Rooted(os[k].stack)
    ensures AtPath(os, PathOf(stack)) == AtStack(os, stack)
  {
    if os != [] {
      if PathOf(os[0].stack) == PathOf(stack) {
        PathInjective(os[0].stack, stack);
      }
      AtPathIsAtStack(os[1..], stack);
    }
  }

  /** Under the path of a node the parser returns exactly that node's properties, in order, if and only if
      every other node with the same names on its way has none. */
  lemma ParseNode(
    data: bytes, strings: bytes, offStruct: nat, ts: seq<Token>, root: Node, location: seq<nat>)
    requires Aligned4(offStruct) && TokensAt(data, strings, offStruct, ts)
    requires TokensOfTree(ts, root) && TreeOk(root, strings)
    requires Readable(root, strings) && root.name == [] && PlainBelow(root) && Leads(root, location)
    ensures TreeOk(NodeAt(root, location), strings)
    ensures var r, stack := Parse(data, strings, offStruct, State([], map[], 0)), StackTo(root, location, []);
            && r.Parsed?
            && (Lookup(r.properties, PathOf(stack)) == OwnProperties(NodeAt(root, location).properties, strings)
                <==> SilentBut(root, [], stack, location))
  {
    ParseTree(data, strings, offStruct, ts, root);
    OwnExactlyWhen(root, location, strings, []);
    assert [] + [Shown(root)] == [[]];
    OccurrencesRooted(root, strings, []);
    StackToRooted(root, location, []);
    AtPathIsAtStack(Occurrences(root, strings, []), StackTo(root, location, []));
  }

  lemma {:induction false} WellNamedStacks(n: Node, a: seq<nat>, b: seq<nat>, above: seq<Name>)
    requires WellNamed(n) && Leads(n, a) && Leads(n, b)
    requires StackTo(n, a, above) == StackTo(n, b, above)
    ensures a == b
    decreases |a|
  {
    if a != [] && b != [] {
      var here := above + [Shown(n)];
      assert StackTo(n, a, above)[|here|] == Shown(n.children[a[0]]);
      assert StackTo(n, b, above)[|here|] == Shown(n.children[b[0]]);
      WellNamedStacks(n.children[a[0]], a[1..], b[1..], here);
      assert a == [a[0]] + a[1..] && b == [b[0]] + b[1..];
    }
  }

  lemma {:induction false} WellNamedIsPlain(n: Node)
    requires WellNamed(n)
    ensures PlainBelow(n)
    decreases n
  {
    forall k: nat | k < |n.children|
      ensures Plain(Shown(n.children[k])) && PlainBelow(n.children[k])
    {
      WellNamedIsPlain(n.children[k]);
    }
  }

  /** So on a tree named as the specification asks, each node's path holds that node's properties. */
  lemma ParseWellNamed(
    data: bytes, strings: bytes, offStruct: nat, ts: seq<Token>, root: Node, location: seq<nat>)
    requires Aligned4(offStruct) && TokensAt(data, strings, offStruct, ts)
    requires TokensOfTree(ts, root) && TreeOk(root, strings)
    requires Readable(root, strings) && root.name == [] && WellNamed(root) && Leads(root, location)
    ensures TreeOk(NodeAt(root, location), strings)
    ensures var r := Parse(data, strings, offStruct, State([], map[], 0));
            r.Parsed? && Lookup(r.properties, PathOf(StackTo(root, location, [])))
                         == OwnProperties(NodeAt(root, location).properties, strings)
  {
    WellNamedIsPlain(root);
    ParseNode(data, strings, offStruct, ts, root, location);
    forall other: seq<nat> | Leads(root, other) && StackTo(root, other, []) == StackTo(root, location, [])
      ensures other == location
    {
      WellNamedStacks(root, other, location, []);
    }
  }

  // ----- A tree at which it fails -----

  /** One property, whose name is the string at 0. */
  function Leaf(name: Name, value: bytes): Node {
    Node(name, [Property(0, value)], [])
  }

  /** Two children with different names that are both shown as U+FFFD. */
  function Siblings(): Node {
    Node([], [], [Leaf([0xFF], [1]), Leaf([0xFE], [2])])
  }

  /** The strings block: "a". */
  const STRINGS: bytes := [97, 0]

  lemma StringA()
    ensures IndexOfZero(STRINGS, 0) == 1 && NameOffsetOk(STRINGS, 0) && NameAt(STRINGS, 0) == [97]
    ensures Utf8.WellFormed([97])
  {
  }

  lemma LeafIsFine(name: Name, value: bytes)
    requires 0 !in name && |value| == 1
    ensures TreeEncodable(Leaf(name, value), STRINGS)
    ensures TreeOk(Leaf(name, value), STRINGS) && Readable(Leaf(name, value), STRINGS)
    ensures Leads(Leaf(name, value), [])
  {
    StringA();
  }

  lemma SiblingsAreFine()
    ensures Siblings().children[0].name != Siblings().children[1].name
    ensures TreeEncodable(Siblings(), STRINGS) && TreeOk(Siblings(), STRINGS) && Readable(Siblings(), STRINGS)
    ensures Leads(Siblings(), [0]) && Leads(Siblings(), [1])
  {
    LeafIsFine([0xFF], [1]);
    LeafIsFine([0xFE], [2]);
    assert [0xFF][0] != [0xFE][0];
  }

  lemma SiblingsOccur()
    requires TreeOk(Siblings(), STRINGS)
    ensures var stack := [[], Utf8.REPLACEMENT];
            Occurrences(Siblings(), STRINGS, []) == [Occurrence(stack, ([97], [1])), Occurrence(stack, ([97], [2]))]
  {
    Utf8.MalformedNamesMerge();
    var n, stack := Siblings(), [[], Utf8.REPLACEMENT];
    StringA();
    LeafOccurs([0xFF], [1]);
    LeafOccurs([0xFE], [2]);
    assert [] + [Shown(n)] == [[]] && [[]] + [Utf8.REPLACEMENT] == stack;
    assert n.children[1..] == [n.children[1]] && n.children[1..][1..] == [];
    assert ForestOccurrences([], STRINGS, [[]]) == [];
    assert ForestOccurrences(n.children[1..], STRINGS, [[]]) == [Occurrence(stack, ([97], [2]))];
  }

  lemma LeafOccurs(name: Name, value: bytes)
    requires Utf8.DecodeReplace(name) == Utf8.REPLACEMENT
    ensures TreeOk(Leaf(name, value), STRINGS)
    ensures Occurrences(Leaf(name, value), STRINGS, [[]])
            == [Occurrence([[]] + [Utf8.REPLACEMENT], ([97], value))]
  {
    StringA();
    var ps, here := [Property(0, value)], [[]] + [Utf8.REPLACEMENT];
    var named: Named := ([97], value);
    assert ps[1..] == [] && [named][1..] == [];
    assert OwnProperties(ps, STRINGS) == [named];
    assert Tagged(here, [named]) == [Occurrence(here, named)];
    assert ForestOccurrences([], STRINGS, here) == [];
  }

  /** Wherever this tree is encoded, both children have one path, and it holds the properties of both. */
  lemma MalformedSiblingsMerge(data: bytes, offStruct: nat)
    requires Aligned4(offStruct) && TreeEncodable(Siblings(), STRINGS)
    requires At(data, offStruct, EncodeTree(Siblings(), STRINGS))
    ensures Leads(Siblings(), [0]) && Leads(Siblings(), [1])
    ensures StackTo(Siblings(), [0], []) == StackTo(Siblings(), [1], [])
    ensures var r := Parse(data, STRINGS, offStruct, State([], map[], 0));
            && r.Parsed?
            && Lookup(r.properties, PathOf(StackTo(Siblings(), [0], []))) == [([97], [1]), ([97], [2])]
  {
    SiblingsAreFine();
    SiblingsOccur();
    Utf8.MalformedNamesMerge();
    var stack := [[], Utf8.REPLACEMENT];
    assert [] + [Shown(Siblings())] == [[]] && [[]] + [Utf8.REPLACEMENT] == stack;
    assert StackTo(Leaf([0xFF], [1]), [], [[]]) == stack == StackTo(Leaf([0xFE], [2]), [], [[]]);
    ParseOfEncoding(data, STRINGS, offStruct, Siblings());
    var os := Occurrences(Siblings(), STRINGS, []);
    TwoAtPath(os[0], os[1], stack);
  }

  lemma TwoAtPath(a: Occurrence, b: Occurrence, stack: seq<Name>)
    requires a.stack == b.stack == stack
    ensures AtPath([a, b], PathOf(stack)) == [a.property, b.property]
  {
    assert [a, b][1..] == [b] && [b][1..] == [];
    assert AtPath([b], PathOf(stack)) == [b.property];
  }
}
