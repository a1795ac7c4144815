/** Decoding of UTF-8 (RFC 3629, section 4) as Python does it.  A decoded text is kept as its own UTF-8 bytes,
    so that decoding well-formed bytes is the identity. */
module Utf8 {
  import opened Bytes

  /** U+FFFD */
  const REPLACEMENT: bytes := [0xEF, 0xBF, 0xBD]

  /** The length of the sequence that a byte starts, or 0 if it starts none. */
  function Width(lead: byte): nat {
    if lead < 0x80 then 1
    else if 0xC2 <= lead <= 0xDF then 2
    else if 0xE0 <= lead <= 0xEF then 3
    else if 0xF0 <= lead <= 0xF4 then 4
    else 0
  }

  predicate SecondOk(lead: byte, b: byte) {
    && (if lead == 0xE0 then 0xA0 else if lead == 0xF0 then 0x90 else 0x80) <= b
    && b <= (if lead == 0xED then 0x9F else if lead == 0xF4 then 0x8F else 0xBF)
  }

  predicate Continuation(b: byte) {
    0x80 <= b <= 0xBF
  }

  /** How many bytes at the front can belong to one sequence. */
  function Matched(s: bytes): (n: nat)
    requires s != []
    ensures n <= |s| && n <= Width(s[0])
  {
    var w := Width(s[0]);
    if w <= 1 then w
    else if |s| == 1 || !SecondOk(s[0], s[1]) then 1
    else if w == 2 || |s| == 2 || !Continuation(s[2]) then 2
    else if w == 3 || |s| == 3 || !Continuation(s[3]) then 3
    else 4
  }

  predicate StartsWell(s: bytes) {
    s != [] && Width(s[0]) > 0 && Matched(s) == Width(s[0])
  }

  /** bytes.decode() raises an error unless this holds. */
  predicate WellFormed(s: bytes)
    decreases |s|, 1
  {
    s == [] || NextIsWellFormed(s)
  }

  predicate NextIsWellFormed(s: bytes)
    requires s != []
    decreases |s|, 0
  {
    StartsWell(s) && WellFormed(s[Width(s[0])..])
  }

  /** bytes.decode("utf-8", "replace"): each maximal piece that cannot be decoded becomes U+FFFD. */
  function DecodeReplace(s: bytes): (text: bytes)
    ensures text == [] <==> s == []
    decreases |s|, 1
  {
    if s == [] then [] else DecodeNext(s)
  }

  function DecodeNext(s: bytes): (text: bytes)
    requires s != []
    ensures text != []
    decreases |s|, 0
  {
    if StartsWell(s) then s[..Width(s[0])] + DecodeReplace(s[Width(s[0])..])
    else REPLACEMENT + DecodeReplace(s[if Matched(s) == 0 then 1 else Matched(s)..])
  }

  // ----- Well-formed bytes are encoded text -----

  predicate Scalar(c: nat) {
    c < 0xD800 || 0xE000 <= c < 0x11_0000
  }

  /** Section 3: the sequence for a scalar value. */
  function Sequence(c: nat): bytes
    requires Scalar(c)
  {
    if c < 0x80 then [c as byte]
    else if c < 0x800 then [(0xC0 + c / 0x40) as byte, (0x80 + c % 0x40) as byte]
    else if c < 0x1_0000 then
      [(0xE0 + c / 0x1000) as byte, (0x80 + c / 0x40 % 0x40) as byte, (0x80 + c % 0x40) as byte]
    else
      [(0xF0 + c / 0x4_0000) as byte, (0x80 + c / 0x1000 % 0x40) as byte,
       (0x80 + c / 0x40 % 0x40) as byte, (0x80 + c % 0x40) as byte]
  }

  predicate AllScalar(text: seq<nat>) {
    forall c | c in text :: Scalar(c)
  }

  function EncodeText(text: seq<nat>): bytes
    requires AllScalar(text)
  {
    if text == [] then [] else Sequence(text[0]) + EncodeText(text[1..])
  }

  lemma SequenceStarts(c: nat, rest: bytes)
    requires Scalar(c)
    ensures StartsWell(Sequence(c) + rest) && Width((Sequence(c) + rest)[0]) == |Sequence(c)|
  {
    var s := Sequence(c) + rest;
    assert forall k: nat | k < |Sequence(c)| :: s[k] == Sequence(c)[k];
  }

  function Digit(b: byte): nat {
    (b as nat) % 0x40
  }

  lemma Digits3(a: nat, b: nat, d: nat)
    requires b < 0x40 && d < 0x40
    ensures var c := a * 0x1000 + b * 0x40 + d;
            c / 0x1000 == a && c / 0x40 % 0x40 == b && c % 0x40 == d && c / 0x40 == a * 0x40 + b
  {
    var c := a * 0x1000 + b * 0x40 + d;
    assert c == (a * 0x40 + b) * 0x40 + d;
    assert c / 0x40 == a * 0x40 + b;
    assert c / 0x1000 == c / 0x40 / 0x40;
  }

  lemma ThreeBytes(s: bytes) returns (c: nat)
    requires StartsWell(s) && Width(s[0]) == 3
    ensures Scalar(c) && Sequence(c) == s[..3]
  {
    c := ((s[0] as nat) - 0xE0) * 0x1000 + Digit(s[1]) * 0x40 + Digit(s[2]);
    Digits3((s[0] as nat) - 0xE0, Digit(s[1]), Digit(s[2]));
  }

  lemma FourBytes(s: bytes) returns (c: nat)
    requires StartsWell(s) && Width(s[0]) == 4
    ensures Scalar(c) && Sequence(c) == s[..4]
  {
    var a := ((s[0] as nat) - 0xF0) * 0x40 + Digit(s[1]);
    c := a * 0x1000 + Digit(s[2]) * 0x40 + Digit(s[3]);
    Digits3(a, Digit(s[2]), Digit(s[3]));
    assert c / 0x4_0000 == c / 0x1000 / 0x40;
  }

  lemma StartIsSequence(s: bytes) returns (c: nat)
    requires StartsWell(s)
    ensures Scalar(c) && Sequence(c) == s[..Width(s[0])]
  {
    if Width(s[0]) == 1 {
      c := s[0] as nat;
    } else if Width(s[0]) == 2 {
      c := ((s[0] as nat) - 0xC0) * 0x40 + Digit(s[1]);
    } else if Width(s[0]) == 3 {
      c := ThreeBytes(s);
    } else {
      c := FourBytes(s);
    }
  }

  lemma {:induction false} TextIsWellFormed(text: seq<nat>)
    requires AllScalar(text)
    ensures WellFormed(EncodeText(text))
  {
    if text != [] {
      var rest := EncodeText(text[1..]);
      TextIsWellFormed(text[1..]);
      SequenceStarts(text[0], rest);
      assert (Sequence(text[0]) + rest)[|Sequence(text[0])|..] == rest;
    }
  }

  lemma {:induction false} WellFormedIsText(s: bytes) returns (text: seq<nat>)
    requires WellFormed(s)
    ensures AllScalar(text) && EncodeText(text) == s
  {
    if s == [] {
      text := [];
    } else {
      var c := StartIsSequence(s);
      var rest := WellFormedIsText(s[Width(s[0])..]);
      text := [c] + rest;
      assert text[1..] == rest;
    }
  }

  lemma StartsWellAlone(s: bytes, rest: bytes)
    requires StartsWell(s) && WellFormed(rest)
    ensures WellFormed(s[..Width(s[0])] + rest)
  {
    var w := Width(s[0]);
    var t := s[..w] + rest;
    assert t[w..] == rest;
    assert forall k: nat | k < w :: t[k] == s[k];
  }

  /** What is shown is always well formed, and well-formed bytes, and only those, are shown as they are. */
  lemma {:induction false} DecodeOfWellFormed(s: bytes)
    ensures WellFormed(DecodeReplace(s))
    ensures DecodeReplace(s) == s <==> WellFormed(s)
  {
    if s != [] {
      if StartsWell(s) {
        var w := Width(s[0]);
        DecodeOfWellFormed(s[w..]);
        StartsWellAlone(s, DecodeReplace(s[w..]));
        assert DecodeReplace(s) == DecodeNext(s) == s[..w] + DecodeReplace(s[w..]);
        assert DecodeReplace(s)[w..] == DecodeReplace(s[w..]);
        assert s == s[..w] + s[w..];
      } else {
        var rest := s[if Matched(s) == 0 then 1 else Matched(s)..];
        DecodeOfWellFormed(rest);
        StartsWellAlone(REPLACEMENT, DecodeReplace(rest));
        assert REPLACEMENT[..3] == REPLACEMENT;
      }
    }
  }

  /** Different malformed names can be shown alike. */
  lemma MalformedNamesMerge()
    ensures DecodeReplace([0xFF]) == DecodeReplace([0xFE]) == REPLACEMENT
    ensures !WellFormed([0xFF])
  {
  }

  lemma ReplaceOne(s: bytes, n: nat)
    requires s != [] && !StartsWell(s) && n == (if Matched(s) == 0 then 1 else Matched(s))
    ensures DecodeReplace(s) == REPLACEMENT + DecodeReplace(s[n..])
  {
    assert DecodeReplace(s) == DecodeNext(s);
  }

  /** A cut-off sequence is one piece; the bytes of a surrogate are three. */
  lemma MalformedPieces()
    ensures DecodeReplace([0xE2, 0x82]) == REPLACEMENT
    ensures DecodeReplace([0xE2, 0x82, 0xFF]) == REPLACEMENT + REPLACEMENT
    ensures DecodeReplace([0xED, 0xA0, 0x80]) == REPLACEMENT + (REPLACEMENT + REPLACEMENT)
  {
    var cut, joined, surrogate: bytes := [0xE2, 0x82], [0xE2, 0x82, 0xFF], [0xED, 0xA0, 0x80];
    ReplaceOne(cut, 2);
    ReplaceOne(joined, 2);
    assert joined[2..] == [0xFF];
    MalformedNamesMerge();
    ReplaceOne(surrogate, 1);
    assert surrogate[1..] == [0xA0, 0x80];
    ReplaceOne([0xA0, 0x80], 1);
    assert [0xA0, 0x80][1..] == [0x80];
    ReplaceOne([0x80], 1);
    assert DecodeReplace([0x80][1..]) == [];
  }
}
