/** The two searches for device trees inside a blob: the appended tree of a kernel payload, and all
    plausible trees of a partition dump.  Both hop from one magic number to the next. */
module FdtSearch {
  import opened Bytes

  /** d0 0d fe ed, which no shift of itself by one to three bytes overlaps. */
  predicate MagicAt(s: bytes, i: nat) {
    i + 4 <= |s| && s[i] == 0xd0 && s[i + 1] == 0x0d && s[i + 2] == 0xfe && s[i + 3] == 0xed
  }

  datatype Option = None | Some(at: nat)

  /** bytes.find: the first occurrence at or after `from`. */
  function Find(s: bytes, from: nat): (r: Option)
    ensures r.None? ==> forall i: nat | from <= i :: !MagicAt(s, i)
    ensures r.Some? ==> from <= r.at && MagicAt(s, r.at) && forall i: nat | from <= i < r.at :: !MagicAt(s, i)
    decreases if from < |s| then |s| - from else 0
  {
    if from + 4 > |s| then None
    else if MagicAt(s, from) then Some(from)
    else Find(s, from + 1)
  }

  lemma MagicsDoNotOverlap(s: bytes, i: nat, j: nat)
    requires MagicAt(s, i) && MagicAt(s, j) && i < j
    ensures i + 4 <= j
  {
  }

  // ----- find_appended_dtb -----

  /** An occurrence too close to the end to have a size field: reading it raises an error. */
  predicate CutOff(s: bytes, i: nat) {
    MagicAt(s, i) && i + 8 > |s|
  }

  /** A tree at `i` that claims to end where the payload ends. */
  predicate ReachesEnd(s: bytes, i: nat) {
    MagicAt(s, i) && i + 8 <= |s| && i + ReadBe32(s, i + 4) == |s|
  }

  datatype Search = Nothing | Found(offset: nat) | Error

  /** What the search means: the last tree that reaches the end. */
  ghost predicate Appended(s: bytes, r: Search) {
    match r
    case Error => exists i: nat :: CutOff(s, i)
    case Found(o) =>
      (forall i: nat :: !CutOff(s, i)) && ReachesEnd(s, o) && forall i: nat | o < i :: !ReachesEnd(s, i)
    case Nothing => (forall i: nat :: !CutOff(s, i)) && forall i: nat :: !ReachesEnd(s, i)
  }

  lemma AppendedUnique(s: bytes, a: Search, b: Search)
    requires Appended(s, a) && Appended(s, b)
    ensures a == b
  {
  }

  method FindAppendedDtb(payload: bytes) returns (r: Search)
    ensures Appended(payload, r)
  {
    r := Nothing;
    var pos := 0;
    while true
      invariant pos <= |payload| + 4
      invariant !r.Error?
      invariant forall i: nat | i < pos :: !CutOff(payload, i)
      invariant r.Nothing? ==> forall i: nat | i < pos :: !ReachesEnd(payload, i)
      invariant r.Found? ==>
                  && r.offset < pos && ReachesEnd(payload, r.offset)
                  && forall i: nat | r.offset < i < pos :: !ReachesEnd(payload, i)
      decreases |payload| + 4 - pos
    {
      var next := Find(payload, pos);
      if next.None? {
        return;
      }
      if next.at + 8 > |payload| {
        assert CutOff(payload, next.at);
        return Error;
      }
      if next.at + ReadBe32(payload, next.at + 4) == |payload| {
        r := Found(next.at);
      }
      forall i: nat | next.at < i < next.at + 4
        ensures !MagicAt(payload, i)
      {
        if MagicAt(payload, i) {
          MagicsDoNotOverlap(payload, next.at, i);
        }
      }
      pos := next.at + 4;
    }
  }

  lemma ShiftedMagic(prefix: bytes, t: bytes, i: nat)
    ensures MagicAt(prefix + t, |prefix| + i) <==> MagicAt(t, i)
    ensures CutOff(prefix + t, |prefix| + i) <==> CutOff(t, i)
    ensures ReachesEnd(prefix + t, |prefix| + i) <==> ReachesEnd(t, i)
  {
  }

  lemma NoCutOffBefore(prefix: bytes, t: bytes, i: nat)
    requires MagicAt(t, 0) && i < |prefix|
    ensures !CutOff(prefix + t, i)
  {
    ShiftedMagic(prefix, t, 0);
    if MagicAt(prefix + t, i) {
      MagicsDoNotOverlap(prefix + t, i, |prefix|);
    }
  }

  lemma SwapKeepsError(prefix: bytes, t: bytes)
    requires MagicAt(t, 0)
    ensures Appended(prefix + t, Error) <==> Appended(t, Error)
  {
    var s := prefix + t;
    if i: nat :| CutOff(s, i) {
      if i < |prefix| {
        NoCutOffBefore(prefix, t, i);
      }
      ShiftedMagic(prefix, t, i - |prefix|);
    }
    if i: nat :| CutOff(t, i) {
      ShiftedMagic(prefix, t, i);
      assert CutOff(s, |prefix| + i);
    }
  }

  /** Whatever stands in front of it, a tree put at the end of a payload is found where it was put exactly
      when the search in that tree alone finds its own start. */
  lemma SwapSearchesReplacement(prefix: bytes, t: bytes)
    requires MagicAt(t, 0)
    ensures Appended(prefix + t, Found(|prefix|)) <==> Appended(t, Found(0))
  {
    var s := prefix + t;
    SwapKeepsError(prefix, t);
    ShiftedMagic(prefix, t, 0);
    forall i: nat
      ensures ReachesEnd(s, |prefix| + i) <==> ReachesEnd(t, i)
    {
      ShiftedMagic(prefix, t, i);
    }
    assert forall i: nat | |prefix| < i :: ReachesEnd(s, i) <==> ReachesEnd(t, i - |prefix|) by {
      forall i: nat | |prefix| < i
        ensures ReachesEnd(s, i) <==> ReachesEnd(t, i - |prefix|)
      {
        ShiftedMagic(prefix, t, i - |prefix|);
      }
    }
  }

  /** No magic inside the tree is cut off by its end or starts something that reaches its end. */
  ghost predicate NoLaterEnd(t: bytes) {
    forall i: nat | 0 < i && MagicAt(t, i) :: i + 8 <= |t| && i + ReadBe32(t, i + 4) != |t|
  }

  /** A replacement put behind any prefix is found where it was put if and only if its totalsize is its
      length and no magic inside it is cut off or reaches its end as well. */
  lemma SwapIsFindable(prefix: bytes, t: bytes)
    requires MagicAt(t, 0)
    ensures Appended(prefix + t, Found(|prefix|)) <==> |t| >= 8 && ReadBe32(t, 4) == |t| && NoLaterEnd(t)
  {
    SwapSearchesReplacement(prefix, t);
    if Appended(t, Found(0)) {
      assert forall i: nat :: !CutOff(t, i);
      forall i: nat | 0 < i && MagicAt(t, i)
        ensures i + 8 <= |t| && i + ReadBe32(t, i + 4) != |t|
      {
        assert !CutOff(t, i) && !ReachesEnd(t, i);
      }
    }
  }

  /** A whole tree of 16 bytes whose last 8 read like a tree of their own. */
  const TREE_IN_TREE: bytes := [0xd0, 0x0d, 0xfe, 0xed, 0, 0, 0, 16, 0xd0, 0x0d, 0xfe, 0xed, 0, 0, 0, 8]

  /** A whole tree of 12 bytes that ends in a second magic. */
  const TREE_WITH_MAGIC_AT_END: bytes := [0xd0, 0x0d, 0xfe, 0xed, 0, 0, 0, 12, 0xd0, 0x0d, 0xfe, 0xed]

  lemma TreeInTreeEndsTwice()
    ensures var t := TREE_IN_TREE;
            && MagicAt(t, 0) && MagicAt(t, 8) && ReadBe32(t, 4) == |t| && Appended(t, Found(8))
  {
    var t := TREE_IN_TREE;
    assert ReadBe32(t, 12) == 8;
    forall i: nat | i != 0 && i != 8
      ensures !MagicAt(t, i)
    {
    }
  }

  /** A replacement whose totalsize is its length can still be missed: here the search finds the second
      magic instead, whatever the prefix. */
  lemma WholeTreeIsMissed(prefix: bytes)
    ensures var t := TREE_IN_TREE;
            && MagicAt(t, 0) && ReadBe32(t, 4) == |t|
            && !Appended(prefix + t, Found(|prefix|)) && Appended(prefix + t, Found(|prefix| + 8))
  {
    TreeInTreeEndsTwice();
    LastTree(prefix, TREE_IN_TREE, 8);
    if Appended(prefix + TREE_IN_TREE, Found(|prefix|)) {
      AppendedUnique(prefix + TREE_IN_TREE, Found(|prefix|), Found(|prefix| + 8));
    }
  }

  /** Here it raises an error. */
  lemma WholeTreeRaisesError(prefix: bytes)
    ensures var t := TREE_WITH_MAGIC_AT_END;
            MagicAt(t, 0) && ReadBe32(t, 4) == |t| && Appended(prefix + t, Error)
  {
    assert CutOff(TREE_WITH_MAGIC_AT_END, 8);
    SwapKeepsError(prefix, TREE_WITH_MAGIC_AT_END);
  }

  /** The last tree of the replacement is the last tree of the whole. */
  lemma LastTree(prefix: bytes, t: bytes, o: nat)
    requires MagicAt(t, 0) && Appended(t, Found(o))
    ensures Appended(prefix + t, Found(|prefix| + o))
  {
    SwapKeepsError(prefix, t);
    ShiftedMagic(prefix, t, o);
    forall i: nat | |prefix| + o < i
      ensures !ReachesEnd(prefix + t, i)
    {
      ShiftedMagic(prefix, t, i - |prefix|);
    }
  }

  /** The swap of the remux tool: the payload up to the tree it found, followed by the replacement. */
  method SwapDtb(payload: bytes, replacement: bytes) returns (ok: bool, swapped: bytes)
    ensures ok <==> (exists o: nat :: Appended(payload, Found(o))) && MagicAt(replacement, 0)
    ensures ok ==> exists o: nat ::
              && o <= |payload| && Appended(payload, Found(o)) && swapped == payload[..o] + replacement
              && (Appended(swapped, Found(o))
                  <==> |replacement| >= 8 && ReadBe32(replacement, 4) == |replacement| && NoLaterEnd(replacement))
  {
    var r := FindAppendedDtb(payload);
    swapped := payload;
    if r.Error? || r.Nothing? {
      assert forall o: nat :: !Appended(payload, Found(o)) by {
        forall o: nat
          ensures !Appended(payload, Found(o))
        {
          if Appended(payload, Found(o)) {
            AppendedUnique(payload, r, Found(o));
          }
        }
      }
      return false, swapped;
    }
    if !MagicAt(replacement, 0) {
      return false, swapped;
    }
    swapped := payload[..r.offset] + replacement;
    SwapIsFindable(payload[..r.offset], replacement);
    ok := true;
  }

  // ----- find_fdts -----

  datatype Tree = Tree(offset: nat, totalSize: nat, version: nat)

  predicate Plausible(s: bytes, i: nat) {
    && MagicAt(s, i) && i + 40 <= |s|
    && ReadBe32(s, i + 4) >= 40
    && i + ReadBe32(s, i + 4) <= |s|
    && ReadBe32(s, i + 24) <= ReadBe32(s, i + 20)
  }

  function TreesAt(s: bytes, i: nat): seq<Tree> {
    if Plausible(s, i) then [Tree(i, ReadBe32(s, i + 4), ReadBe32(s, i + 20))] else []
  }

  /** Every plausible tree below `n`, found by looking at every offset. */
  function PlausibleTrees(s: bytes, n: nat): seq<Tree> {
    if n == 0 then [] else PlausibleTrees(s, n - 1) + TreesAt(s, n - 1)
  }

  lemma {:induction false} NothingBetween(s: bytes, a: nat, b: nat)
    requires a <= b && forall i: nat | a <= i < b :: !MagicAt(s, i)
    ensures PlausibleTrees(s, b) == PlausibleTrees(s, a)
  {
    if a < b {
      NothingBetween(s, a, b - 1);
    }
  }

  lemma HopOverMagic(s: bytes, i: nat)
    requires MagicAt(s, i)
    ensures PlausibleTrees(s, i + 4) == PlausibleTrees(s, i) + TreesAt(s, i)
  {
    forall j: nat | i + 1 <= j < i + 4
      ensures !MagicAt(s, j)
    {
      if MagicAt(s, j) {
        MagicsDoNotOverlap(s, i, j);
      }
    }
    NothingBetween(s, i + 1, i + 4);
  }

  method UnpackHeader(data: bytes, pos: nat) returns (found: seq<Tree>)
    requires MagicAt(data, pos)
    ensures found == TreesAt(data, pos)
  {
    found := [];
    if pos + 40 <= |data| {
      var totalSize, version := ReadBe32(data, pos + 4), ReadBe32(data, pos + 20);
      var lastComp := ReadBe32(data, pos + 24);
      if totalSize >= 40 && pos + totalSize <= |data| && lastComp <= version {
        found := [Tree(pos, totalSize, version)];
      }
    }
  }

  /** Hopping from magic to magic finds what looking at every offset finds, in the same order. */
  method FindFdts(data: bytes) returns (found: seq<Tree>)
    ensures found == PlausibleTrees(data, |data|)
  {
    found := [];
    var pos := 0;
    while true
      invariant found == PlausibleTrees(data, pos) && pos <= |data|
      decreases |data| - pos
    {
      var next := Find(data, pos);
      if next.None? {
        NothingBetween(data, pos, |data|);
        return;
      }
      NothingBetween(data, pos, next.at);
      HopOverMagic(data, next.at);
      var trees := UnpackHeader(data, next.at);
      found := found + trees;
      pos := next.at + 4;
    }
  }
}
