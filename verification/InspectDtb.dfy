/** The parser of inspect-dtb.py: a loop over the token stream that keeps a stack of node names and
    collects the properties of each path. */
module InspectDtb {
  import opened Bytes
  import opened FlattenedDeviceTree
  import Utf8

  type Path = bytes
  type Named = (Name, bytes)
  type Properties = map<Path, seq<Named>>

  datatype Error =
    | TruncatedData | UnterminatedName | NameOffsetOutOfRange | NameNotUtf8 | EmptyStack | BadToken | BadMagic

  datatype Outcome = Parsed(stack: seq<Name>, properties: Properties, nodes: nat) | Failed(error: Error)

  const SLASH: byte := 47

  /** "/".join(n for n in stack if n), built from the front. */
  function Join(stack: seq<Name>): bytes {
    if stack == [] then []
    else if stack[0] == [] then Join(stack[1..])
    else if Join(stack[1..]) == [] then stack[0]
    else stack[0] + [SLASH] + Join(stack[1..])
  }

  function PathOf(stack: seq<Name>): Path {
    [SLASH] + Join(stack)
  }

  /** props.setdefault(node, []).append(property) */
  function AddProperty(m: Properties, path: Path, p: Named): Properties {
    m[path := (if path in m then m[path] else []) + [p]]
  }

  function NameAt(strings: bytes, offset: nat): Name
    requires offset <= |strings|
  {
    strings[offset..IndexOfZero(strings, offset)]
  }

  // ----- The parser, as a function of the bytes -----

  /** The state of the loop. */
  datatype State = State(stack: seq<Name>, properties: Properties, nodes: nat)

  function Finish(s: State): Outcome {
    Parsed(s.stack, s.properties, s.nodes)
  }

  function Enter(s: State, name: Name): State {
    s.(stack := s.stack + [name], nodes := s.nodes + 1)
  }

  function Leave(s: State): State
    requires s.stack != []
  {
    s.(stack := s.stack[..|s.stack| - 1])
  }

  function Add(s: State, name: Name, value: bytes): State {
    s.(properties := AddProperty(s.properties, PathOf(s.stack), (name, value)))
  }

  datatype PropertyRead = GoodProperty(name: Name, value: bytes, after: nat) | BadProperty(error: Error)

  /** The payload of a property token at `pos`; a value that runs past the end of the data is cut off. */
  function PropertyAt(data: bytes, strings: bytes, pos: nat): (p: PropertyRead)
    ensures p.GoodProperty? ==> pos + 8 <= |data| && pos < p.after
  {
    if pos + 8 > |data| then BadProperty(TruncatedData)
    else
      var length, nameOffset := ReadBe32(data, pos), ReadBe32(data, pos + 4);
      var start := pos + 8;
      var value := Slice(data, start, start + length);
      if nameOffset > |strings| || IndexOfZero(strings, nameOffset) == |strings| then
        BadProperty(NameOffsetOutOfRange)
      else if !Utf8.WellFormed(NameAt(strings, nameOffset)) then
        BadProperty(NameNotUtf8)
      else
        GoodProperty(NameAt(strings, nameOffset), value, AlignDown4(start + length + 3))
  }

  /** The string at `offset` has no terminator in the strings block. */
  predicate Unterminated(strings: bytes, offset: nat) {
    forall k: nat | offset <= k < |strings| :: strings[k] != 0
  }

  /** What is read for a property: as much of its value as there is, the position of the next token, and an
      error exactly if its two words are cut off or its name is not terminated or not UTF-8. */
  lemma PropertyIs(data: bytes, strings: bytes, pos: nat)
    ensures var p := PropertyAt(data, strings, pos);
            if pos + 8 > |data| then p == BadProperty(TruncatedData)
            else
              var length, nameOffset, left := ReadBe32(data, pos), ReadBe32(data, pos + 4), |data| - (pos + 8);
              if Unterminated(strings, nameOffset) then p == BadProperty(NameOffsetOutOfRange)
              else
                && (p == BadProperty(NameNotUtf8) || p.GoodProperty?)
                && (p.GoodProperty? <==> Utf8.WellFormed(NameAt(strings, nameOffset)))
                && (p.GoodProperty? ==>
                      && p.name == NameAt(strings, nameOffset)
                      && At(data, pos + 8, p.value) && |p.value| == (if length <= left then length else left)
                      && Aligned4(p.after) && pos + 8 + length <= p.after < pos + 8 + length + 4)
  {
    if pos + 8 <= |data| {
      RoundUpAligned(pos + 8 + ReadBe32(data, pos));
    }
  }

  datatype Progress = Next(pos: nat, s: State) | Stop(outcome: Outcome)

  /** One turn of the loop. */
  function Turn(data: bytes, strings: bytes, pos: nat, s: State): (t: Progress)
    ensures t.Next? ==> pos + 4 <= |data| && pos < t.pos
  {
    if pos + 4 > |data| then Stop(Failed(TruncatedData))
    else
      var token := ReadBe32(data, pos);
      var next := pos + 4;
      if token == FDT_BEGIN_NODE then
        var end := IndexOfZero(data, next);
        if end == |data| then Stop(Failed(UnterminatedName))
        else Next(RoundUp4(end + 1), Enter(s, Utf8.DecodeReplace(data[next..end])))
      else if token == FDT_END_NODE then
        if s.stack == [] then Stop(Failed(EmptyStack)) else Next(next, Leave(s))
      else if token == FDT_PROP then
        match PropertyAt(data, strings, next)
        case BadProperty(error) => Stop(Failed(error))
        case GoodProperty(name, value, after) => Next(after, Add(s, name, value))
      else if token == FDT_NOP then Next(next, s)
      else if token == FDT_END then Stop(Finish(s))
      else Stop(Failed(BadToken))
  }

  function Parse(data: bytes, strings: bytes, pos: nat, s: State): Outcome
    decreases if pos < |data| then |data| - pos else 0
  {
    match Turn(data, strings, pos, s)
    case Stop(outcome) => outcome
    case Next(pos', s') => Parse(data, strings, pos', s')
  }

  /** The loop itself. */
  method ParseLoop(data: bytes, strings: bytes, offStruct: nat) returns (r: Outcome)
    ensures r == Parse(data, strings, offStruct, State([], map[], 0))
  {
    var pos := offStruct;
    var stack: seq<Name>, props: Properties, nodeCount := [], map[], 0;
    while true
      invariant Parse(data, strings, pos, State(stack, props, nodeCount))
                == Parse(data, strings, offStruct, State([], map[], 0))
      decreases if pos < |data| then |data| - pos else 0
    {
      ghost var turn := Turn(data, strings, pos, State(stack, props, nodeCount));
      if pos + 4 > |data| {
        assert turn == Stop(Failed(TruncatedData));
        return Failed(TruncatedData);
      }
      var token := ReadBe32(data, pos);
      pos := pos + 4;
      if token == FDT_BEGIN_NODE {
        var end := IndexOfZero(data, pos);
        if end == |data| {
          assert turn == Stop(Failed(UnterminatedName));
          return Failed(UnterminatedName);
        }
        stack := stack + [Utf8.DecodeReplace(data[pos..end])];
        pos := AlignDown4(end + 4);
        nodeCount := nodeCount + 1;
      } else if token == FDT_END_NODE {
        if stack == [] {
          assert turn == Stop(Failed(EmptyStack));
          return Failed(EmptyStack);
        }
        stack := stack[..|stack| - 1];
      } else if token == FDT_PROP {
        var property := PropertyAt(data, strings, pos);
        if property.BadProperty? {
          assert turn == Stop(Failed(property.error));
          return Failed(property.error);
        }
        pos := property.after;
        props := AddProperty(props, PathOf(stack), (property.name, property.value));
      } else if token == FDT_NOP {
        continue;
      } else if token == FDT_END {
        return Parsed(stack, props, nodeCount);
      } else {
        assert turn == Stop(Failed(BadToken));
        return Failed(BadToken);
      }
      assert turn == Next(pos, State(stack, props, nodeCount));
    }
  }

  const FDT_MAGIC: nat := 0xD00D_FEED

  /** The header: ten big-endian words, of which the parser uses the magic and three of the offsets. */
  method ParseDtb(data: bytes) returns (r: Outcome)
    ensures |data| < 40 ==> r == Failed(TruncatedData)
    ensures |data| >= 40 && ReadBe32(data, 0) != FDT_MAGIC ==> r == Failed(BadMagic)
    ensures |data| >= 40 && ReadBe32(data, 0) == FDT_MAGIC ==>
              var offStruct, offStrings, sizeStrings := ReadBe32(data, 8), ReadBe32(data, 12), ReadBe32(data, 32);
              r == Parse(data, Slice(data, offStrings, offStrings + sizeStrings), offStruct, State([], map[], 0))
  {
    if |data| < 40 {
      return Failed(TruncatedData);
    }
    if ReadBe32(data, 0) != FDT_MAGIC {
      return Failed(BadMagic);
    }
    var offStrings := ReadBe32(data, 12);
    var strings := Slice(data, offStrings, offStrings + ReadBe32(data, 32));
    r := ParseLoop(data, strings, ReadBe32(data, 8));
  }

  // ----- The same parser on tokens -----

  datatype TokenProgress = Go(s: State) | Halt(outcome: Outcome)

  function Consume(t: Token, strings: bytes, s: State): TokenProgress {
    match t
    case BeginNode(name) => Go(Enter(s, Utf8.DecodeReplace(name)))
    case EndNode => if s.stack == [] then Halt(Failed(EmptyStack)) else Go(Leave(s))
    case Prop(nameOffset, value) =>
      if !NameOffsetOk(strings, nameOffset) then Halt(Failed(NameOffsetOutOfRange))
      else if !Utf8.WellFormed(NameAt(strings, nameOffset)) then Halt(Failed(NameNotUtf8))
      else Go(Add(s, NameAt(strings, nameOffset), value))
    case Nop => Go(s)
    case End => Halt(Finish(s))
  }

  function Run(ts: seq<Token>, strings: bytes, s: State): Outcome {
    if ts == [] then Failed(TruncatedData)
    else match Consume(ts[0], strings, s)
      case Halt(outcome) => outcome
      case Go(s') => Run(ts[1..], strings, s')
  }

  lemma ReadsName(data: bytes, pos: nat, name: Name)
    requires At(data, pos, name) && 0 !in name && pos + |name| < |data| && data[pos + |name|] == 0
    ensures IndexOfZero(data, pos) == pos + |name|
  {
    var end := pos + |name|;
    forall k: nat | pos <= k < end
      ensures data[k] != 0
    {
      assert data[k] == data[pos..end][k - pos] && data[k] in name;
    }
    IndexOfZeroIs(data, pos, end);
  }

  lemma ReadsBeginNode(data: bytes, strings: bytes, pos: nat, name: Name, s: State)
    requires Aligned4(pos) && TokenAt(data, strings, pos, BeginNode(name))
    ensures Turn(data, strings, pos, s) == Next(pos + TokenLength(BeginNode(name)), Enter(s, Utf8.DecodeReplace(name)))
  {
    ReadsName(data, pos + 4, name);
    AlignedSum(pos, 4);
    RoundUpFrom(pos + 4, |name| + 1);
    assert data[pos + 4..pos + 4 + |name|] == name;
    assert RoundUp4(pos + 4 + |name| + 1) == pos + TokenLength(BeginNode(name));
  }

  lemma ReadsPayload(data: bytes, strings: bytes, pos: nat, nameOffset: nat, value: bytes)
    requires Aligned4(pos) && TokenAt(data, strings, pos, Prop(nameOffset, value))
    ensures PropertyAt(data, strings, pos + 4) ==
              if Utf8.WellFormed(NameAt(strings, nameOffset))
              then GoodProperty(NameAt(strings, nameOffset), value, pos + TokenLength(Prop(nameOffset, value)))
              else BadProperty(NameNotUtf8)
  {
    AlignedSum(pos, 12);
    RoundUpFrom(pos + 12, |value|);
    assert Slice(data, pos + 12, pos + 12 + |value|) == value;
  }

  lemma ReadsProperty(data: bytes, strings: bytes, pos: nat, nameOffset: nat, value: bytes, s: State)
    requires Aligned4(pos) && TokenAt(data, strings, pos, Prop(nameOffset, value))
    ensures Turn(data, strings, pos, s) ==
              if Utf8.WellFormed(NameAt(strings, nameOffset))
              then Next(pos + TokenLength(Prop(nameOffset, value)), Add(s, NameAt(strings, nameOffset), value))
              else Stop(Failed(NameNotUtf8))
  {
    ReadsPayload(data, strings, pos, nameOffset, value);
  }

  /** One turn of the loop over the bytes of a token does what the token says and moves past it. */
  lemma TurnReadsToken(data: bytes, strings: bytes, pos: nat, t: Token, s: State)
    requires Aligned4(pos) && TokenAt(data, strings, pos, t)
    ensures Turn(data, strings, pos, s) ==
              match Consume(t, strings, s)
              case Halt(outcome) => Stop(outcome)
              case Go(s') => Next(pos + TokenLength(t), s')
  {
    match t
    case BeginNode(name) => ReadsBeginNode(data, strings, pos, name, s);
    case Prop(nameOffset, value) => ReadsProperty(data, strings, pos, nameOffset, value, s);
    case _ =>
  }

  predicate HasEnd(ts: seq<Token>) {
    ts != [] && (ts[0].End? || HasEnd(ts[1..]))
  }

  /** Parsing the bytes of a token sequence that has an end marker is running the tokens. */
  lemma {:induction false} ParseIsRun(data: bytes, strings: bytes, pos: nat, ts: seq<Token>, s: State)
    requires Aligned4(pos) && TokensAt(data, strings, pos, ts) && HasEnd(ts)
    ensures Parse(data, strings, pos, s) == Run(ts, strings, s)
    decreases |ts|
  {
    TurnReadsToken(data, strings, pos, ts[0], s);
    TokenLengthAligned(ts[0]);
    AlignedSum(pos, TokenLength(ts[0]));
    match Consume(ts[0], strings, s)
    case Halt(_) =>
    case Go(s') => ParseIsRun(data, strings, pos + TokenLength(ts[0]), ts[1..], s');
  }

  /** NOPs do not matter. */
  lemma {:induction false} RunIgnoresNops(ts: seq<Token>, strings: bytes, s: State)
    ensures Run(ts, strings, s) == Run(StripNops(ts), strings, s)
    ensures HasEnd(StripNops(ts)) ==> HasEnd(ts)
    decreases |ts|
  {
    if ts != [] {
      var s' := match Consume(ts[0], strings, s) case Go(x) => x case Halt(_) => s;
      RunIgnoresNops(ts[1..], strings, s');
    }
  }

  // ----- Trees -----

  /** A property of the tree, with the names on the way to its node. */
  datatype Occurrence = Occurrence(stack: seq<Name>, property: Named)

  function NamedProperty(p: Property, strings: bytes): Named
    requires NameOffsetOk(strings, p.nameOffset)
  {
    (NameAt(strings, p.nameOffset), p.value)
  }

  function OwnProperties(ps: seq<Property>, strings: bytes): (r: seq<Named>)
    requires forall k: nat | k < |ps| :: NameOffsetOk(strings, ps[k].nameOffset)
  {
    if ps == [] then [] else [NamedProperty(ps[0], strings)] + OwnProperties(ps[1..], strings)
  }

  function Tagged(stack: seq<Name>, ps: seq<Named>): seq<Occurrence> {
    if ps == [] then [] else [Occurrence(stack, ps[0])] + Tagged(stack, ps[1..])
  }

  /** The name of a node as the parser shows it. */
  function Shown(n: Node): Name {
    Utf8.DecodeReplace(n.name)
  }

  predicate PropertiesReadable(ps: seq<Property>, strings: bytes) {
    forall k: nat | k < |ps| ::
      NameOffsetOk(strings, ps[k].nameOffset) && Utf8.WellFormed(NameAt(strings, ps[k].nameOffset))
  }

  /** All property names are UTF-8. */
  predicate Readable(n: Node, strings: bytes)
    requires TreeOk(n, strings)
    decreases n, 0
  {
    PropertiesReadable(n.properties, strings)
    && ForestReadable(n.children, strings)
  }

  predicate ForestReadable(ns: seq<Node>, strings: bytes)
    requires ForestOk(ns, strings)
    decreases ns, 1
  {
    forall k: nat | k < |ns| :: Readable(ns[k], strings)
  }

  /** The properties of a tree in document order. */
  function Occurrences(n: Node, strings: bytes, above: seq<Name>): seq<Occurrence>
    requires TreeOk(n, strings)
    decreases n, 0
  {
    Tagged(above + [Shown(n)], OwnProperties(n.properties, strings))
    + ForestOccurrences(n.children, strings, above + [Shown(n)])
  }

  function ForestOccurrences(ns: seq<Node>, strings: bytes, above: seq<Name>): seq<Occurrence>
    requires ForestOk(ns, strings)
    decreases ns, 1
  {
    if ns == [] then []
    else Occurrences(ns[0], strings, above) + ForestOccurrences(ns[1..], strings, above)
  }

  function CountNodes(n: Node): nat
    decreases n, 0
  {
    1 + CountForest(n.children)
  }

  function CountForest(ns: seq<Node>): nat
    decreases ns, 1
  {
    if ns == [] then 0 else CountNodes(ns[0]) + CountForest(ns[1..])
  }

  function AddAll(m: Properties, os: seq<Occurrence>): Properties
    decreases |os|
  {
    if os == [] then m else AddAll(AddProperty(m, PathOf(os[0].stack), os[0].property), os[1..])
  }

  lemma {:induction false} AddAllAppend(m: Properties, a: seq<Occurrence>, b: seq<Occurrence>)
    ensures AddAll(m, a + b) == AddAll(AddAll(m, a), b)
    decreases |a|
  {
    if a == [] {
      assert a + b == b;
    } else {
      assert (a + b)[1..] == a[1..] + b;
      AddAllAppend(AddProperty(m, PathOf(a[0].stack), a[0].property), a[1..], b);
    }
  }

  lemma {:induction false} RunProperties(ps: seq<Property>, strings: bytes, rest: seq<Token>, s: State)
    requires PropertiesReadable(ps, strings)
    ensures Run(PropertyTokens(ps) + rest, strings, s)
            == Run(rest, strings, s.(properties := AddAll(s.properties, Tagged(s.stack, OwnProperties(ps, strings)))))
    decreases |ps|
  {
    if ps == [] {
      assert PropertyTokens(ps) + rest == rest;
    } else {
      var (name, value) := NamedProperty(ps[0], strings);
      var later := PropertyTokens(ps[1..]) + rest;
      assert PropertyTokens(ps) + rest == [Prop(ps[0].nameOffset, ps[0].value)] + later;
      RunOne(Prop(ps[0].nameOffset, ps[0].value), later, strings, s);
      RunProperties(ps[1..], strings, rest, Add(s, name, value));
    }
  }

  lemma RunOne(t: Token, rest: seq<Token>, strings: bytes, s: State)
    ensures var progress := Consume(t, strings, s);
            progress.Go? ==> Run([t] + rest, strings, s) == Run(rest, strings, progress.s)
  {
    assert ([t] + rest)[1..] == rest;
  }

  lemma NodeTokensThen(n: Node, rest: seq<Token>)
    ensures NodeTokens(n) + rest
            == [BeginNode(n.name)] + (PropertyTokens(n.properties) + (ForestTokens(n.children) + ([EndNode] + rest)))
  {
  }

  lemma ForestTokensThen(ns: seq<Node>, rest: seq<Token>)
    ensures ns == [] ==> ForestTokens(ns) + rest == rest
    ensures ns != [] ==> ForestTokens(ns) + rest == NodeTokens(ns[0]) + (ForestTokens(ns[1..]) + rest)
  {
  }

  /** The state after `nodes` more nodes with the given properties, back at the same depth. */
  function Gathered(s: State, os: seq<Occurrence>, nodes: nat): State {
    State(s.stack, AddAll(s.properties, os), s.nodes + nodes)
  }

  lemma GatheredTwice(s: State, a: seq<Occurrence>, m: nat, b: seq<Occurrence>, n: nat)
    ensures Gathered(Gathered(s, a, m), b, n) == Gathered(s, a + b, m + n)
  {
    AddAllAppend(s.properties, a, b);
  }

  lemma {:induction false} RunNode(n: Node, strings: bytes, rest: seq<Token>, s: State)
    requires TreeOk(n, strings) && Readable(n, strings)
    ensures Run(NodeTokens(n) + rest, strings, s)
            == Run(rest, strings, Gathered(s, Occurrences(n, strings, s.stack), CountNodes(n)))
    decreases n, 0
  {
    var s1 := Enter(s, Shown(n));
    var own := Tagged(s1.stack, OwnProperties(n.properties, strings));
    var below := ForestOccurrences(n.children, strings, s1.stack);
    var children := ForestTokens(n.children) + ([EndNode] + rest);
    NodeTokensThen(n, rest);
    RunOne(BeginNode(n.name), PropertyTokens(n.properties) + children, strings, s);
    RunProperties(n.properties, strings, children, s1);
    var s2 := Gathered(s1, own, 0);
    assert Run(NodeTokens(n) + rest, strings, s) == Run(children, strings, s2);
    RunForest(n.children, strings, [EndNode] + rest, s2);
    GatheredTwice(s1, own, 0, below, CountForest(n.children));
    var s3 := Gathered(s1, own + below, CountForest(n.children));
    assert Run(children, strings, s2) == Run([EndNode] + rest, strings, s3);
    RunOne(EndNode, rest, strings, s3);
    assert s1.stack[..|s1.stack| - 1] == s.stack;
    assert Leave(s3) == Gathered(s, Occurrences(n, strings, s.stack), CountNodes(n));
  }

  lemma {:induction false} RunForest(ns: seq<Node>, strings: bytes, rest: seq<Token>, s: State)
    requires ForestOk(ns, strings) && ForestReadable(ns, strings)
    ensures Run(ForestTokens(ns) + rest, strings, s)
            == Run(rest, strings, Gathered(s, ForestOccurrences(ns, strings, s.stack), CountForest(ns)))
    decreases ns, 1
  {
    ForestTokensThen(ns, rest);
    if ns != [] {
      var first, others := Occurrences(ns[0], strings, s.stack), ForestOccurrences(ns[1..], strings, s.stack);
      var later, s1 := ForestTokens(ns[1..]) + rest, Gathered(s, first, CountNodes(ns[0]));
      RunNode(ns[0], strings, later, s);
      assert Run(ForestTokens(ns) + rest, strings, s) == Run(later, strings, s1);
      RunForest(ns[1..], strings, rest, s1);
      GatheredTwice(s, first, CountNodes(ns[0]), others, CountForest(ns[1..]));
      assert Gathered(s1, others, CountForest(ns[1..]))
             == Gathered(s, ForestOccurrences(ns, strings, s.stack), CountForest(ns));
    }
  }

  // ----- Trees with a property name that cannot be decoded -----

  lemma {:induction false} RunBadProperties(ps: seq<Property>, strings: bytes, rest: seq<Token>, s: State)
    requires forall k: nat | k < |ps| :: NameOffsetOk(strings, ps[k].nameOffset)
    requires !PropertiesReadable(ps, strings)
    ensures Run(PropertyTokens(ps) + rest, strings, s) == Failed(NameNotUtf8)
    decreases |ps|
  {
    var name := NameAt(strings, ps[0].nameOffset);
    var later := PropertyTokens(ps[1..]) + rest;
    assert PropertyTokens(ps) + rest == [Prop(ps[0].nameOffset, ps[0].value)] + later;
    if Utf8.WellFormed(name) {
      RunOne(Prop(ps[0].nameOffset, ps[0].value), later, strings, s);
      RunBadProperties(ps[1..], strings, rest, Add(s, name, ps[0].value));
    }
  }

  lemma RestIsBad(ns: seq<Node>, strings: bytes)
    requires ForestOk(ns, strings) && !ForestReadable(ns, strings) && ns != [] && Readable(ns[0], strings)
    ensures ForestOk(ns[1..], strings) && !ForestReadable(ns[1..], strings)
  {
    assert forall k: nat | 0 < k < |ns| :: ns[k] == ns[1..][k - 1];
  }

  lemma {:induction false} RunBadNode(n: Node, strings: bytes, rest: seq<Token>, s: State)
    requires TreeOk(n, strings) && !Readable(n, strings)
    ensures Run(NodeTokens(n) + rest, strings, s) == Failed(NameNotUtf8)
    decreases n, 0
  {
    var s1 := Enter(s, Shown(n));
    var children := ForestTokens(n.children) + ([EndNode] + rest);
    NodeTokensThen(n, rest);
    RunOne(BeginNode(n.name), PropertyTokens(n.properties) + children, strings, s);
    if PropertiesReadable(n.properties, strings) {
      RunProperties(n.properties, strings, children, s1);
      var own := Tagged(s1.stack, OwnProperties(n.properties, strings));
      RunBadForest(n.children, strings, [EndNode] + rest, s1.(properties := AddAll(s1.properties, own)));
    } else {
      RunBadProperties(n.properties, strings, children, s1);
    }
  }

  lemma {:induction false} RunBadForest(ns: seq<Node>, strings: bytes, rest: seq<Token>, s: State)
    requires ForestOk(ns, strings) && !ForestReadable(ns, strings)
    ensures Run(ForestTokens(ns) + rest, strings, s) == Failed(NameNotUtf8)
    decreases ns, 1
  {
    var later := ForestTokens(ns[1..]) + rest;
    ForestTokensThen(ns, rest);
    if Readable(ns[0], strings) {
      var s1 := Gathered(s, Occurrences(ns[0], strings, s.stack), CountNodes(ns[0]));
      RunNode(ns[0], strings, later, s);
      assert Run(ForestTokens(ns) + rest, strings, s) == Run(later, strings, s1);
      RestIsBad(ns, strings);
      RunBadForest(ns[1..], strings, rest, s1);
    } else {
      RunBadNode(ns[0], strings, later, s);
    }
  }

  // ----- What the result says about one path -----

  function Lookup(m: Properties, path: Path): seq<Named> {
    if path in m then m[path] else []
  }

  /** The properties of all nodes with this path, in document order. */
  function AtPath(os: seq<Occurrence>, path: Path): seq<Named> {
    if os == [] then []
    else (if PathOf(os[0].stack) == path then [os[0].property] else []) + AtPath(os[1..], path)
  }

  lemma AddLookup(m: Properties, path: Path, property: Named, other: Path)
    ensures var m' := AddProperty(m, path, property);
            && Lookup(m', other) == Lookup(m, other) + (if path == other then [property] else [])
            && (other in m' <==> other in m || path == other)
  {
  }

  lemma {:induction false} AddAllLookup(m: Properties, os: seq<Occurrence>, path: Path)
    ensures Lookup(AddAll(m, os), path) == Lookup(m, path) + AtPath(os, path)
    ensures path in AddAll(m, os) <==> path in m || AtPath(os, path) != []
    decreases |os|
  {
    if os != [] {
      var m' := AddProperty(m, PathOf(os[0].stack), os[0].property);
      AddLookup(m, PathOf(os[0].stack), os[0].property, path);
      AddAllLookup(m', os[1..], path);
      assert Lookup(m', path) + AtPath(os[1..], path) == Lookup(m, path) + AtPath(os, path);
    }
  }

  /** What the parser is to return for a tree. */
  ghost predicate ParsedTree(r: Outcome, root: Node, strings: bytes)
    requires TreeOk(root, strings)
  {
    if Readable(root, strings) then
      && r.Parsed? && r.stack == [] && r.nodes == CountNodes(root)
      && forall path :: Lookup(r.properties, path) == AtPath(Occurrences(root, strings, []), path)
                        && (path in r.properties <==> AtPath(Occurrences(root, strings, []), path) != [])
    else r == Failed(NameNotUtf8)
  }

  /** The parser is correct on every encoded tree: it ends with an empty stack, counts the nodes, and
      returns under each path exactly the properties of the nodes with that path, in document order; it
      raises an error if and only if some property name is not UTF-8. */
  lemma ParseTree(data: bytes, strings: bytes, offStruct: nat, ts: seq<Token>, root: Node)
    requires Aligned4(offStruct) && TokensAt(data, strings, offStruct, ts)
    requires TokensOfTree(ts, root) && TreeOk(root, strings)
    ensures ParsedTree(Parse(data, strings, offStruct, State([], map[], 0)), root, strings)
  {
    var s := State([], map[], 0);
    RunIgnoresNops(ts, strings, s);
    TreeHasEnd(NodeTokens(root));
    ParseIsRun(data, strings, offStruct, ts, s);
    if Readable(root, strings) {
      RunTree(root, strings);
    } else {
      RunBadNode(root, strings, [End], s);
    }
  }

  lemma RunTree(root: Node, strings: bytes)
    requires TreeOk(root, strings) && Readable(root, strings)
    ensures ParsedTree(Run(NodeTokens(root) + [End], strings, State([], map[], 0)), root, strings)
  {
    RunNode(root, strings, [End], State([], map[], 0));
    var os := Occurrences(root, strings, []);
    forall path
      ensures Lookup(AddAll(map[], os), path) == AtPath(os, path)
      ensures path in AddAll(map[], os) <==> AtPath(os, path) != []
    {
      AddAllLookup(map[], os, path);
    }
  }

  /** Encoding a tree at an aligned place and parsing it there gives the tree's properties back. */
  lemma ParseOfEncoding(data: bytes, strings: bytes, offStruct: nat, root: Node)
    requires Aligned4(offStruct) && TreeEncodable(root, strings)
    requires At(data, offStruct, EncodeTree(root, strings))
    ensures TreeOk(root, strings)
    ensures ParsedTree(Parse(data, strings, offStruct, State([], map[], 0)), root, strings)
  {
    var ts := NodeTokens(root) + [End];
    NodeTokensOk(root, strings);
    StripNopsAdds(NodeTokens(root), [End]);
    EncodedTokens(data, offStruct, ts, strings);
    ParseTree(data, strings, offStruct, ts, root);
  }

  lemma {:induction false} TreeHasEnd(ts: seq<Token>)
    ensures HasEnd(ts + [End])
    decreases |ts|
  {
    if ts != [] {
      assert (ts + [End])[1..] == ts[1..] + [End];
      TreeHasEnd(ts[1..]);
    }
  }
}
