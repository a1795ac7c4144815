/** The structure block of a flattened device tree (Devicetree Specification, section 5.4): its tokens,
    their encoding in bytes, and the trees that token sequences stand for. */
module FlattenedDeviceTree {
  import opened Bytes

  const FDT_BEGIN_NODE: nat := 1
  const FDT_END_NODE: nat := 2
  const FDT_PROP: nat := 3
  const FDT_NOP: nat := 4
  const FDT_END: nat := 9

  type Name = bytes

  datatype Token =
    | BeginNode(name: Name)
    | EndNode
    | Prop(nameOffset: nat, value: bytes)
    | Nop
    | End

  function TagOf(t: Token): nat {
    match t
    case BeginNode(_) => FDT_BEGIN_NODE
    case EndNode => FDT_END_NODE
    case Prop(_, _) => FDT_PROP
    case Nop => FDT_NOP
    case End => FDT_END
  }

  /** The bytes a token takes, padding included. */
  function TokenLength(t: Token): nat {
    match t
    case BeginNode(name) => 4 + RoundUp4(|name| + 1)
    case Prop(_, value) => 12 + RoundUp4(|value|)
    case _ => 4
  }

  /** `offset` is the start of a terminated string of the strings block. */
  predicate NameOffsetOk(strings: bytes, offset: nat) {
    offset <= |strings| && IndexOfZero(strings, offset) < |strings|
  }

  predicate TokenOk(t: Token, strings: bytes) {
    t.Prop? ==> NameOffsetOk(strings, t.nameOffset)
  }

  /** Sections 5.4.1 and 5.4.2: the bytes at `pos` encode the token.  Padding may hold any bytes. */
  predicate TokenAt(data: bytes, strings: bytes, pos: nat, t: Token) {
    && pos + TokenLength(t) <= |data|
    && ReadBe32(data, pos) == TagOf(t)
    && TokenOk(t, strings)
    && (t.BeginNode? ==> At(data, pos + 4, t.name) && 0 !in t.name && data[pos + 4 + |t.name|] == 0)
    && (t.Prop? ==>
          && ReadBe32(data, pos + 4) == |t.value| && ReadBe32(data, pos + 8) == t.nameOffset
          && At(data, pos + 12, t.value))
  }

  predicate TokensAt(data: bytes, strings: bytes, pos: nat, ts: seq<Token>)
    decreases |ts|, 1
  {
    ts == [] || FirstTokenAt(data, strings, pos, ts)
  }

  predicate FirstTokenAt(data: bytes, strings: bytes, pos: nat, ts: seq<Token>)
    requires ts != []
    decreases |ts|, 0
  {
    TokenAt(data, strings, pos, ts[0]) && TokensAt(data, strings, pos + TokenLength(ts[0]), ts[1..])
  }

  lemma TokenLengthAligned(t: Token)
    ensures Aligned4(TokenLength(t))
  {
    match t
    case BeginNode(name) =>
      RoundUpAligned(|name| + 1);
      AlignedSum(4, RoundUp4(|name| + 1));
    case Prop(_, value) =>
      RoundUpAligned(|value|);
      AlignedSum(12, RoundUp4(|value|));
    case _ =>
  }

  // ----- Trees -----

  /** A property refers to its name by an offset in the strings block. */
  datatype Property = Property(nameOffset: nat, value: bytes)

  datatype Node = Node(name: Name, properties: seq<Property>, children: seq<Node>)

  function PropertyTokens(ps: seq<Property>): seq<Token> {
    if ps == [] then [] else [Prop(ps[0].nameOffset, ps[0].value)] + PropertyTokens(ps[1..])
  }

  function NodeTokens(n: Node): seq<Token>
    decreases n, 0
  {
    [BeginNode(n.name)] + PropertyTokens(n.properties) + ForestTokens(n.children) + [EndNode]
  }

  function ForestTokens(ns: seq<Node>): seq<Token>
    decreases ns, 1
  {
    if ns == [] then [] else NodeTokens(ns[0]) + ForestTokens(ns[1..])
  }

  function StripNops(ts: seq<Token>): seq<Token> {
    if ts == [] then []
    else if ts[0].Nop? then StripNops(ts[1..])
    else [ts[0]] + StripNops(ts[1..])
  }

  /** A token sequence stands for a tree when, apart from NOPs, it is the tree and the end marker. */
  predicate TokensOfTree(ts: seq<Token>, root: Node) {
    StripNops(ts) == NodeTokens(root) + [End]
  }

  /** Every property of the tree names a string of the strings block. */
  predicate TreeOk(n: Node, strings: bytes)
    decreases n, 0
  {
    && (forall k: nat | k < |n.properties| :: NameOffsetOk(strings, n.properties[k].nameOffset))
    && ForestOk(n.children, strings)
  }

  predicate ForestOk(ns: seq<Node>, strings: bytes)
    decreases ns, 1
  {
    forall k: nat | k < |ns| :: TreeOk(ns[k], strings)
  }

  // ----- Encoding -----

  /** What the format can hold: names without zeros, and lengths and offsets of 32 bits. */
  predicate Encodable(t: Token) {
    match t
    case BeginNode(name) => 0 !in name
    case Prop(nameOffset, value) => nameOffset < WORD_32 && |value| < WORD_32
    case _ => true
  }

  predicate AllEncodable(ts: seq<Token>) {
    forall k: nat | k < |ts| :: Encodable(ts[k])
  }

  function EncodeToken(t: Token): bytes
    requires Encodable(t)
  {
    match t
    case BeginNode(name) =>
      Be32(FDT_BEGIN_NODE) + (name + ([0] + Zeros(RoundUp4(|name| + 1) - (|name| + 1))))
    case Prop(nameOffset, value) =>
      Be32(FDT_PROP) + (Be32(|value|) + (Be32(nameOffset) + (value + Zeros(RoundUp4(|value|) - |value|))))
    case _ => Be32(TagOf(t))
  }

  function Encode(ts: seq<Token>): bytes
    requires AllEncodable(ts)
    decreases |ts|, 1
  {
    if ts == [] then [] else EncodeFirst(ts)
  }

  function EncodeFirst(ts: seq<Token>): bytes
    requires ts != [] && AllEncodable(ts)
    decreases |ts|, 0
  {
    EncodeToken(ts[0]) + Encode(ts[1..])
  }

  lemma AtSplit(data: bytes, pos: nat, a: bytes, b: bytes)
    requires At(data, pos, a + b)
    ensures At(data, pos, a) && At(data, pos + |a|, b)
  {
    var whole := data[pos..pos + |a + b|];
    assert whole[..|a|] == a && whole[|a|..] == b;
    assert data[pos..pos + |a|] == whole[..|a|] && data[pos + |a|..pos + |a| + |b|] == whole[|a|..];
  }

  lemma EncodedBeginNode(data: bytes, pos: nat, name: Name, strings: bytes)
    requires Encodable(BeginNode(name)) && At(data, pos, EncodeToken(BeginNode(name)))
    ensures TokenAt(data, strings, pos, BeginNode(name))
  {
    var pad := Zeros(RoundUp4(|name| + 1) - (|name| + 1));
    AtSplit(data, pos, Be32(FDT_BEGIN_NODE), name + ([0] + pad));
    AtSplit(data, pos + 4, name, [0] + pad);
    AtSplit(data, pos + 4 + |name|, [0], pad);
    ReadBe32Written(data, pos, FDT_BEGIN_NODE);
    var end := pos + 4 + |name|;
    assert data[end] == data[end..end + 1][0];
  }

  lemma EncodedProp(data: bytes, pos: nat, nameOffset: nat, value: bytes, strings: bytes)
    requires Encodable(Prop(nameOffset, value)) && NameOffsetOk(strings, nameOffset)
    requires At(data, pos, EncodeToken(Prop(nameOffset, value)))
    ensures TokenAt(data, strings, pos, Prop(nameOffset, value))
  {
    var pad := Zeros(RoundUp4(|value|) - |value|);
    AtSplit(data, pos, Be32(FDT_PROP), Be32(|value|) + (Be32(nameOffset) + (value + pad)));
    AtSplit(data, pos + 4, Be32(|value|), Be32(nameOffset) + (value + pad));
    AtSplit(data, pos + 8, Be32(nameOffset), value + pad);
    AtSplit(data, pos + 12, value, pad);
    ReadBe32Written(data, pos, FDT_PROP);
    ReadBe32Written(data, pos + 4, |value|);
    ReadBe32Written(data, pos + 8, nameOffset);
  }

  lemma EncodedToken(data: bytes, pos: nat, t: Token, strings: bytes)
    requires Encodable(t) && TokenOk(t, strings) && At(data, pos, EncodeToken(t))
    ensures TokenAt(data, strings, pos, t) && |EncodeToken(t)| == TokenLength(t)
  {
    match t
    case BeginNode(name) => EncodedBeginNode(data, pos, name, strings);
    case Prop(nameOffset, value) => EncodedProp(data, pos, nameOffset, value, strings);
    case _ => ReadBe32Written(data, pos, TagOf(t));
  }

  predicate TokensOk(ts: seq<Token>, strings: bytes) {
    forall k: nat | k < |ts| :: Encodable(ts[k]) && TokenOk(ts[k], strings)
  }

  lemma TokensOkTail(ts: seq<Token>, strings: bytes)
    requires TokensOk(ts, strings)
    ensures AllEncodable(ts)
    ensures ts != [] ==> Encodable(ts[0]) && TokenOk(ts[0], strings) && TokensOk(ts[1..], strings)
  {
  }

  lemma EncodeHead(data: bytes, pos: nat, ts: seq<Token>)
    requires ts != [] && AllEncodable(ts) && At(data, pos, Encode(ts))
    ensures At(data, pos, EncodeToken(ts[0]))
    ensures At(data, pos + |EncodeToken(ts[0])|, Encode(ts[1..]))
  {
    assert Encode(ts) == EncodeFirst(ts);
    AtSplit(data, pos, EncodeToken(ts[0]), Encode(ts[1..]));
  }

  lemma TokensAtStep(data: bytes, strings: bytes, pos: nat, ts: seq<Token>)
    requires ts != [] && TokenAt(data, strings, pos, ts[0])
    ensures TokensAt(data, strings, pos + TokenLength(ts[0]), ts[1..]) ==> TokensAt(data, strings, pos, ts)
  {
    assert TokensAt(data, strings, pos, ts) == FirstTokenAt(data, strings, pos, ts);
  }

  lemma FirstEncoded(data: bytes, pos: nat, ts: seq<Token>, strings: bytes) returns (next: nat, rest: seq<Token>)
    requires ts != [] && TokensOk(ts, strings) && AllEncodable(ts) && At(data, pos, Encode(ts))
    ensures |rest| < |ts| && TokensOk(rest, strings) && AllEncodable(rest)
    ensures At(data, next, Encode(rest))
    ensures TokensAt(data, strings, next, rest) ==> TokensAt(data, strings, pos, ts)
  {
    next, rest := pos + TokenLength(ts[0]), ts[1..];
    TokensOkTail(ts, strings);
    EncodeHead(data, pos, ts);
    EncodedToken(data, pos, ts[0], strings);
    TokensAtStep(data, strings, pos, ts);
  }

  /** The encoding of a token sequence, wherever it stands, is an encoding in the sense of the parser. */
  lemma {:induction false} EncodedTokens(data: bytes, pos: nat, ts: seq<Token>, strings: bytes)
    requires TokensOk(ts, strings) && AllEncodable(ts) && At(data, pos, Encode(ts))
    ensures TokensAt(data, strings, pos, ts)
    decreases |ts|
  {
    if ts != [] {
      var next, rest := FirstEncoded(data, pos, ts, strings);
      EncodedTokens(data, next, rest, strings);
    }
  }

  // ----- Encoding a tree -----

  /** What a tree must be like to be encoded. */
  predicate TreeEncodable(n: Node, strings: bytes)
    decreases n, 0
  {
    && 0 !in n.name
    && (forall k: nat | k < |n.properties| ::
          Encodable(Prop(n.properties[k].nameOffset, n.properties[k].value))
          && NameOffsetOk(strings, n.properties[k].nameOffset))
    && ForestEncodable(n.children, strings)
  }

  predicate ForestEncodable(ns: seq<Node>, strings: bytes)
    decreases ns, 1
  {
    forall k: nat | k < |ns| :: TreeEncodable(ns[k], strings)
  }

  lemma {:induction false} PropertyTokensOk(ps: seq<Property>, strings: bytes)
    requires forall k: nat | k < |ps| ::
               Encodable(Prop(ps[k].nameOffset, ps[k].value)) && NameOffsetOk(strings, ps[k].nameOffset)
    ensures TokensOk(PropertyTokens(ps), strings)
    ensures StripNops(PropertyTokens(ps)) == PropertyTokens(ps)
  {
    if ps != [] {
      PropertyTokensOk(ps[1..], strings);
    }
  }

  lemma {:induction false} StripNopsAdds(a: seq<Token>, b: seq<Token>)
    ensures StripNops(a + b) == StripNops(a) + StripNops(b)
    decreases |a|
  {
    if a == [] {
      assert a + b == b;
    } else {
      assert (a + b)[1..] == a[1..] + b;
      StripNopsAdds(a[1..], b);
    }
  }

  lemma {:induction false} NodeTokensOk(n: Node, strings: bytes)
    requires TreeEncodable(n, strings)
    ensures TreeOk(n, strings) && TokensOk(NodeTokens(n), strings)
    ensures StripNops(NodeTokens(n)) == NodeTokens(n)
    decreases n, 0
  {
    PropertyTokensOk(n.properties, strings);
    ForestTokensOk(n.children, strings);
    var ps, cs := PropertyTokens(n.properties), ForestTokens(n.children);
    StripNopsAdds([BeginNode(n.name)], ps);
    StripNopsAdds([BeginNode(n.name)] + ps, cs);
    StripNopsAdds([BeginNode(n.name)] + ps + cs, [EndNode]);
  }

  lemma {:induction false} ForestTokensOk(ns: seq<Node>, strings: bytes)
    requires ForestEncodable(ns, strings)
    ensures ForestOk(ns, strings) && TokensOk(ForestTokens(ns), strings)
    ensures StripNops(ForestTokens(ns)) == ForestTokens(ns)
    decreases ns, 1
  {
    if ns != [] {
      NodeTokensOk(ns[0], strings);
      ForestTokensOk(ns[1..], strings);
      StripNopsAdds(NodeTokens(ns[0]), ForestTokens(ns[1..]));
    }
  }

  function EncodeTree(root: Node, strings: bytes): bytes
    requires TreeEncodable(root, strings)
  {
    NodeTokensOk(root, strings);
    Encode(NodeTokens(root) + [End])
  }
}
