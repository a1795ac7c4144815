/** Byte strings and fixed-width integers in them. */
module Bytes {
  newtype byte = b: int | 0 <= b < 256
  type bytes = seq<byte>

  const WORD_32: nat := 0x1_0000_0000

  function Zeros(n: nat): (z: bytes)
    ensures |z| == n && forall k: nat | k < n :: z[k] == 0
  {
    if n == 0 then [] else [0] + Zeros(n - 1)
  }

  function Min(a: nat, b: nat): nat {
    if a <= b then a else b
  }

  /** Python's s[a:b] for non-negative bounds: it never fails. */
  function Slice(s: bytes, a: nat, b: nat): bytes {
    if a <= b then s[Min(a, |s|)..Min(b, |s|)] else []
  }

  /** `part` stands in `data` at `pos`. */
  predicate At(data: bytes, pos: nat, part: bytes) {
    pos + |part| <= |data| && data[pos..pos + |part|] == part
  }

  /** The first zero byte at or after `from`, or |s| if there is none. */
  function IndexOfZero(s: bytes, from: nat): (r: nat)
    requires from <= |s|
    ensures from <= r <= |s|
    ensures forall k: nat | from <= k < r :: s[k] != 0
    ensures r < |s| ==> s[r] == 0
    decreases |s| - from
  {
    if from == |s| || s[from] == 0 then from else IndexOfZero(s, from + 1)
  }

  lemma IndexOfZeroIs(s: bytes, from: nat, r: nat)
    requires from <= r < |s| && s[r] == 0
    requires forall k: nat | from <= k < r :: s[k] != 0
    ensures IndexOfZero(s, from) == r
  {
    var x := IndexOfZero(s, from);
  }

  /** n & ~3, by recursion, which keeps proofs free of division. */
  function AlignDown4(n: nat): (r: nat)
    ensures r <= n < r + 4
  {
    if n < 4 then 0 else 4 + AlignDown4(n - 4)
  }

  lemma {:induction false} AlignDown4Is(n: nat)
    ensures AlignDown4(n) == n - n % 4
  {
    if n >= 4 {
      AlignDown4Is(n - 4);
    }
  }

  function RoundUp4(n: nat): (r: nat)
    ensures n <= r < n + 4
  {
    AlignDown4(n + 3)
  }

  predicate Aligned4(n: nat) {
    AlignDown4(n) == n
  }

  lemma {:induction false} AlignedSum(a: nat, b: nat)
    requires Aligned4(a)
    ensures AlignDown4(a + b) == a + AlignDown4(b)
  {
    if a >= 4 {
      AlignedSum(a - 4, b);
    }
  }

  lemma RoundUpFrom(pos: nat, n: nat)
    requires Aligned4(pos)
    ensures RoundUp4(pos + n) == pos + RoundUp4(n)
  {
    AlignedSum(pos, n + 3);
  }

  lemma {:induction false} RoundUpAligned(n: nat)
    ensures Aligned4(RoundUp4(n))
  {
    if n >= 4 {
      RoundUpAligned(n - 4);
    } else if n > 0 {
      assert AlignDown4(n + 3) == 4 + AlignDown4(n - 1) == 4;
    }
  }

  /** Four digits to base 256, most significant first. */
  function Word4(a: nat, b: nat, c: nat, d: nat): nat {
    ((a * 256 + b) * 256 + c) * 256 + d
  }

  // ----- Big endian -----

  function Be32(n: nat): (s: bytes)
    requires n < WORD_32
    ensures |s| == 4
  {
    [(n / 0x100_0000) as byte, (n / 0x1_0000 % 256) as byte, (n / 0x100 % 256) as byte, (n % 256) as byte]
  }

  function ReadBe32(s: bytes, pos: nat): (n: nat)
    requires pos + 4 <= |s|
    ensures n < WORD_32
  {
    Word4(s[pos] as nat, s[pos + 1] as nat, s[pos + 2] as nat, s[pos + 3] as nat)
  }

  lemma ReadBe32Written(s: bytes, pos: nat, n: nat)
    requires n < WORD_32 && At(s, pos, Be32(n))
    ensures ReadBe32(s, pos) == n
  {
    Digits(n);
    assert s[pos..pos + 4][0] == s[pos] && s[pos..pos + 4][1] == s[pos + 1];
    assert s[pos..pos + 4][2] == s[pos + 2] && s[pos..pos + 4][3] == s[pos + 3];
  }

  // ----- Little endian -----

  function Le32(n: nat): (s: bytes)
    requires n < WORD_32
    ensures |s| == 4
  {
    [(n % 256) as byte, (n / 0x100 % 256) as byte, (n / 0x1_0000 % 256) as byte, (n / 0x100_0000) as byte]
  }

  function ReadLe32(s: bytes, pos: nat): (n: nat)
    requires pos + 4 <= |s|
    ensures n < WORD_32
  {
    Word4(s[pos + 3] as nat, s[pos + 2] as nat, s[pos + 1] as nat, s[pos] as nat)
  }

  lemma Digits(n: nat)
    requires n < WORD_32
    ensures Word4(n / 0x100_0000, n / 0x1_0000 % 256, n / 0x100 % 256, n % 256) == n
  {
    var x, y := n / 256, n / 0x1_0000;
    assert n == x * 256 + n % 256;
    assert x / 256 == y && x == y * 256 + x % 256;
    assert y / 256 == n / 0x100_0000 && y == y / 256 * 256 + y % 256;
  }

  lemma ReadLe32Written(s: bytes, pos: nat, n: nat)
    requires n < WORD_32 && At(s, pos, Le32(n))
    ensures ReadLe32(s, pos) == n
  {
    Digits(n);
    assert s[pos..pos + 4][0] == s[pos] && s[pos..pos + 4][1] == s[pos + 1];
    assert s[pos..pos + 4][2] == s[pos + 2] && s[pos..pos + 4][3] == s[pos + 3];
  }
}
