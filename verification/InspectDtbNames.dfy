/** What the parser returns for a tree whose properties carry their names: the strings block only holds the
    names, terminated, at the offsets that the property tokens give. */
module InspectDtbNames {
  import opened Bytes
  import opened FlattenedDeviceTree
  import opened InspectDtb
  import opened InspectDtbPaths
  import Utf8

  datatype NamedNode = NamedNode(name: Name, properties: seq<Named>, children: seq<NamedNode>)

  /** Section 5.5: the string `name` stands in the strings block at `offset`, with its terminator. */
  predicate Holds(strings: bytes, offset: nat, name: Name) {
    0 !in name && At(strings, offset, name + [0])
  }

  /** It is the name found there, also in the middle of a block. */
  lemma NameAtHeld(strings: bytes, offset: nat, name: Name)
    requires Holds(strings, offset, name)
    ensures NameOffsetOk(strings, offset) && NameAt(strings, offset) == name
  {
    var end := offset + |name|;
    var held := strings[offset..end + 1];
    assert held == name + [0];
    assert strings[end] == held[|name|] == 0;
    forall k: nat | offset <= k < end
      ensures strings[k] != 0
    {
      assert strings[k] == held[k - offset] == name[k - offset];
    }
    IndexOfZeroIs(strings, offset, end);
    assert strings[offset..end] == held[..|name|] == name;
  }

  lemma NameBetween(before: bytes, name: Name, after: bytes)
    requires 0 !in name
    ensures var strings := before + name + [0] + after;
            NameOffsetOk(strings, |before|) && NameAt(strings, |before|) == name
  {
    var strings := before + name + [0] + after;
    assert strings[|before|..|before| + |name + [0]|] == name + [0];
    NameAtHeld(strings, |before|, name);
  }

  predicate PropertyStandsFor(p: Property, named: Named, strings: bytes) {
    Holds(strings, p.nameOffset, named.0) && p.value == named.1
  }

  /** The tree with offsets and the tree with names are one, by this strings block. */
  predicate StandsFor(n: Node, w: NamedNode, strings: bytes)
    decreases n
  {
    && n.name == w.name
    && |n.properties| == |w.properties| && |n.children| == |w.children|
    && (forall k: nat | k < |n.properties| :: PropertyStandsFor(n.properties[k], w.properties[k], strings))
    && (forall k: nat | k < |n.children| :: StandsFor(n.children[k], w.children[k], strings))
  }

  predicate AllReadable(w: NamedNode)
    decreases w
  {
    && (forall k: nat | k < |w.properties| :: Utf8.WellFormed(w.properties[k].0))
    && (forall k: nat | k < |w.children| :: AllReadable(w.children[k]))
  }

  function Size(w: NamedNode): nat
    decreases w, 0
  {
    1 + Sizes(w.children)
  }

  function Sizes(ws: seq<NamedNode>): nat
    decreases ws, 1
  {
    if ws == [] then 0 else Size(ws[0]) + Sizes(ws[1..])
  }

  /** The properties of the tree in document order, each with the names on the way to its node. */
  function PropertiesOf(w: NamedNode, above: seq<Name>): seq<Occurrence>
    decreases w, 0
  {
    Tagged(above + [Utf8.DecodeReplace(w.name)], w.properties)
    + PropertiesOfAll(w.children, above + [Utf8.DecodeReplace(w.name)])
  }

  function PropertiesOfAll(ws: seq<NamedNode>, above: seq<Name>): seq<Occurrence>
    decreases ws, 1
  {
    if ws == [] then [] else PropertiesOf(ws[0], above) + PropertiesOfAll(ws[1..], above)
  }

  lemma NamesAreHeld(ps: seq<Property>, named: seq<Named>, strings: bytes)
    requires |ps| == |named| && forall k: nat | k < |ps| :: PropertyStandsFor(ps[k], named[k], strings)
    ensures forall k: nat | k < |ps| ::
              NameOffsetOk(strings, ps[k].nameOffset) && NameAt(strings, ps[k].nameOffset) == named[k].0
  {
    forall k: nat | k < |ps|
      ensures NameOffsetOk(strings, ps[k].nameOffset) && NameAt(strings, ps[k].nameOffset) == named[k].0
    {
      NameAtHeld(strings, ps[k].nameOffset, named[k].0);
    }
  }

  lemma {:induction false} OwnAreNamed(ps: seq<Property>, named: seq<Named>, strings: bytes)
    requires |ps| == |named| && forall k: nat | k < |ps| :: PropertyStandsFor(ps[k], named[k], strings)
    ensures forall k: nat | k < |ps| ::
              NameOffsetOk(strings, ps[k].nameOffset) && NameAt(strings, ps[k].nameOffset) == named[k].0
    ensures OwnProperties(ps, strings) == named
  {
    NamesAreHeld(ps, named, strings);
    if ps != [] {
      OwnAreNamed(ps[1..], named[1..], strings);
      assert PropertyStandsFor(ps[0], named[0], strings);
      assert named == [named[0]] + named[1..];
    }
  }

  lemma {:induction false} TreeIsNamed(n: Node, w: NamedNode, strings: bytes, above: seq<Name>)
    requires StandsFor(n, w, strings)
    ensures TreeOk(n, strings) && Readable(n, strings) == AllReadable(w) && CountNodes(n) == Size(w)
    ensures Occurrences(n, strings, above) == PropertiesOf(w, above)
    decreases n, 0
  {
    OwnAreNamed(n.properties, w.properties, strings);
    ForestIsNamed(n.children, w.children, strings, above + [Shown(n)]);
  }

  lemma {:induction false} ForestIsNamed(ns: seq<Node>, ws: seq<NamedNode>, strings: bytes, above: seq<Name>)
    requires |ns| == |ws| && forall k: nat | k < |ns| :: StandsFor(ns[k], ws[k], strings)
    ensures ForestOk(ns, strings) && CountForest(ns) == Sizes(ws)
    ensures ForestReadable(ns, strings) == forall k: nat | k < |ws| :: AllReadable(ws[k])
    ensures ForestOccurrences(ns, strings, above) == PropertiesOfAll(ws, above)
    decreases ns, 1
  {
    if ns != [] {
      TreeIsNamed(ns[0], ws[0], strings, above);
      ForestIsNamed(ns[1..], ws[1..], strings, above);
      assert forall k: nat | 0 < k < |ns| :: ns[k] == ns[1..][k - 1] && ws[k] == ws[1..][k - 1];
    }
  }

  /** What the parser is to return for a tree with names. */
  ghost predicate ParsedNamed(r: Outcome, w: NamedNode) {
    if AllReadable(w) then
      && r.Parsed? && r.stack == [] && r.nodes == Size(w)
      && forall path :: Lookup(r.properties, path) == AtPath(PropertiesOf(w, []), path)
                        && (path in r.properties <==> AtPath(PropertiesOf(w, []), path) != [])
    else r == Failed(NameNotUtf8)
  }

  /** The parser returns the names and values of the tree, whichever strings block holds the names and
      wherever in it they stand. */
  lemma ParseNamedTree(data: bytes, strings: bytes, offStruct: nat, ts: seq<Token>, root: Node, w: NamedNode)
    requires Aligned4(offStruct) && TokensAt(data, strings, offStruct, ts)
    requires TokensOfTree(ts, root) && StandsFor(root, w, strings)
    ensures ParsedNamed(Parse(data, strings, offStruct, State([], map[], 0)), w)
  {
    TreeIsNamed(root, w, strings, []);
    ParseTree(data, strings, offStruct, ts, root);
  }

  /** So encoding a tree with names and parsing the bytes gives these names and values back. */
  lemma ParseOfNamedEncoding(data: bytes, strings: bytes, offStruct: nat, root: Node, w: NamedNode)
    requires Aligned4(offStruct) && TreeEncodable(root, strings) && StandsFor(root, w, strings)
    requires At(data, offStruct, EncodeTree(root, strings))
    ensures ParsedNamed(Parse(data, strings, offStruct, State([], map[], 0)), w)
  {
    TreeIsNamed(root, w, strings, []);
    ParseOfEncoding(data, strings, offStruct, root);
  }

  // ----- One node -----

  ghost predicate LeadsTo(w: NamedNode, location: seq<nat>)
    decreases |location|
  {
    location != [] ==> location[0] < |w.children| && LeadsTo(w.children[location[0]], location[1..])
  }

  function NamedAt(w: NamedNode, location: seq<nat>): NamedNode
    requires LeadsTo(w, location)
    decreases |location|
  {
    if location == [] then w else NamedAt(w.children[location[0]], location[1..])
  }

  lemma {:induction false} NodeAtNamed(n: Node, w: NamedNode, strings: bytes, location: seq<nat>)
    requires StandsFor(n, w, strings)
    ensures Leads(n, location) == LeadsTo(w, location)
    ensures Leads(n, location) ==> StandsFor(NodeAt(n, location), NamedAt(w, location), strings)
    decreases |location|
  {
    if location != [] && location[0] < |n.children| {
      NodeAtNamed(n.children[location[0]], w.children[location[0]], strings, location[1..]);
    }
  }

  /** On a tree named as the specification asks, the path of a node holds its names and values. */
  lemma ParseNamedNode(
    data: bytes, strings: bytes, offStruct: nat, ts: seq<Token>, root: Node, w: NamedNode, location: seq<nat>)
    requires Aligned4(offStruct) && TokensAt(data, strings, offStruct, ts)
    requires TokensOfTree(ts, root) && StandsFor(root, w, strings)
    requires AllReadable(w) && w.name == [] && WellNamed(root) && LeadsTo(w, location)
    ensures Leads(root, location)
    ensures var r := Parse(data, strings, offStruct, State([], map[], 0));
            r.Parsed? && Lookup(r.properties, PathOf(StackTo(root, location, []))) == NamedAt(w, location).properties
  {
    TreeIsNamed(root, w, strings, []);
    NodeAtNamed(root, w, strings, location);
    ParseWellNamed(data, strings, offStruct, ts, root, location);
    OwnAreNamed(NodeAt(root, location).properties, NamedAt(w, location).properties, strings);
  }

  // ----- Paths -----

  /** The path of a root is "/"; each further name that is not empty is appended after a slash. */
  lemma {:induction false} PathOfNames(stack: seq<Name>, name: Name)
    ensures PathOf([]) == [SLASH]
    ensures PathOf(stack + [name])
            == if name == [] then PathOf(stack)
               else if PathOf(stack) == [SLASH] then [SLASH] + name
               else PathOf(stack) + [SLASH] + name
  {
    JoinOfNames(stack, name);
  }

  lemma {:induction false} JoinOfNames(stack: seq<Name>, name: Name)
    ensures Join(stack + [name])
            == if name == [] then Join(stack)
               else if Join(stack) == [] then name
               else Join(stack) + [SLASH] + name
    decreases |stack|
  {
    if stack == [] {
      assert [] + [name] == [name] && [name][1..] == [];
    } else {
      assert (stack + [name])[1..] == stack[1..] + [name];
      JoinOfNames(stack[1..], name);
    }
  }

  // ----- A tree, byte by byte -----

  lemma EncodeThen(t: Token, rest: seq<Token>)
    requires AllEncodable([t] + rest)
    ensures AllEncodable(rest) && Encodable(t) && Encode([t] + rest) == EncodeToken(t) + Encode(rest)
  {
    var ts := [t] + rest;
    assert ts[0] == t && ts[1..] == rest;
    assert forall k: nat | k < |rest| :: rest[k] == ts[k + 1];
    assert Encode(ts) == EncodeFirst(ts);
  }

  lemma TagBytes()
    ensures EncodeToken(EndNode) == [0, 0, 0, 2] && EncodeToken(Nop) == [0, 0, 0, 4]
    ensures EncodeToken(End) == [0, 0, 0, 9]
  {
  }

  lemma BeginNodeBytes()
    ensures EncodeToken(BeginNode([])) == [0, 0, 0, 1, 0, 0, 0, 0]
  {
    assert RoundUp4(1) == 4 && Zeros(3) == [0, 0, 0];
  }

  lemma PropBytes()
    ensures EncodeToken(Prop(5, [7])) == [0, 0, 0, 3, 0, 0, 0, 1, 0, 0, 0, 5, 7, 0, 0, 0]
  {
    assert RoundUp4(1) == 4 && Zeros(3) == [0, 0, 0];
    assert Be32(3) == [0, 0, 0, 3] && Be32(1) == [0, 0, 0, 1] && Be32(5) == [0, 0, 0, 5];
  }

  lemma ExampleTokens()
    ensures NodeTokens(Node([], [Property(5, [7])], [])) + [End]
            == [BeginNode([])] + ([Prop(5, [7])] + ([EndNode] + ([End] + [])))
  {
    var ps := [Property(5, [7])];
    assert ps[1..] == [] && PropertyTokens(ps) == [Prop(5, [7])];
  }

  /** The encoding of a root with one property. */
  lemma EncodedExample(strings: bytes)
    requires NameOffsetOk(strings, 5)
    ensures var root := Node([], [Property(5, [7])], []);
            && TreeEncodable(root, strings)
            && EncodeTree(root, strings)
               == [0, 0, 0, 1, 0, 0, 0, 0] + ([0, 0, 0, 3, 0, 0, 0, 1, 0, 0, 0, 5, 7, 0, 0, 0]
                                              + ([0, 0, 0, 2] + ([0, 0, 0, 9] + [])))
  {
    var root := Node([], [Property(5, [7])], []);
    ExampleTokens();
    assert TreeEncodable(root, strings);
    NodeTokensOk(root, strings);
    EncodeThen(BeginNode([]), [Prop(5, [7])] + ([EndNode] + ([End] + [])));
    EncodeThen(Prop(5, [7]), [EndNode] + ([End] + []));
    EncodeThen(EndNode, [End] + []);
    EncodeThen(End, []);
    TagBytes();
    BeginNodeBytes();
    PropBytes();
  }
}
