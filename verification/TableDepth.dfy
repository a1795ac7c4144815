/** How deep the tables below an address go, and how many new tables a step of the page-table editor can need. */
module TableDepth {
  import opened Arithmetic
  import opened Vmsa64
  import opened TranslationTree
  import opened RegionMapping

  /** The level of the last table on the walk of `va`. */
  function DepthFrom(m: Memory, t: nat, level: Level, va: nat): (depth: Level)
    ensures level <= depth
    decreases 3 - level
  {
    if t in m && |m[t]| == TT_ENTRY_COUNT && level != 3 && IsTableType(m[t][EntryIndex(level, va)])
    then DepthFrom(m, m[t][EntryIndex(level, va)].address, level + 1, va)
    else level
  }

  function Depth(m: Memory, g: Geometry, va: nat): (depth: Level)
    ensures g.level <= depth
  {
    DepthFrom(m, g.root, g.level, va)
  }

  lemma {:induction false} DepthPassesThrough(m: Memory, g: Geometry, places: Places, t: nat, va: nat)
    requires WellFormed(m, g, places)
    requires t in places && Covers(g, places, t, va)
    ensures va < g.Limit()
    ensures Depth(m, g, va) == DepthFrom(m, t, places[t].level, va)
    decreases places[t].level
  {
    assert PlaceOk(m, g, places, t);
    if t != g.root {
      var p := places[t].parent;
      assert PlaceOk(m, g, places, p);
      EntryIndexUnique(places[p].level, places[p].base, places[t].slot, va);
      DepthPassesThrough(m, g, places, p, va);
    }
  }

  /** Below an entry that links no table, the tables end with the one that holds it. */
  lemma DepthOfEntry(m: Memory, g: Geometry, places: Places, t: nat, i: nat, va: nat)
    requires Writable(m, g, places, t, i) && InEntry(places, t, i, va)
    ensures Depth(m, g, va) == places[t].level
  {
    WalkOfEntry(m, g, places, t, i, va);
    assert PlaceOk(m, g, places, t);
    EntryIndexUnique(places[t].level, places[t].base, i, va);
    DepthPassesThrough(m, g, places, t, va);
  }

  lemma {:induction false} DepthUnaffected(
    m: Memory, m': Memory, g: Geometry, places: Places, t: nat, i: nat, u: nat, va: nat)
    requires WellFormed(m, g, places) && SameButEntry(m, m', places, t, i)
    requires t in places && u in places && Covers(g, places, u, va)
    requires !InEntry(places, t, i, va)
    ensures DepthFrom(m', u, places[u].level, va) == DepthFrom(m, u, places[u].level, va)
    decreases 3 - places[u].level
  {
    assert PlaceOk(m, g, places, u);
    var level := places[u].level;
    IndexInTable(level, places[u].base, EntryCount(g, u), va);
    var j := EntryIndex(level, va);
    assert InEntry(places, u, j, va);
    assert EntriesOk(m, g, places, u);
    assert EntryOk(g, places, u, j, m[u][j]);
    if level != 3 && IsTableType(m[u][j]) {
      LinkCovers(m, g, places, u, j, va);
      DepthUnaffected(m, m', g, places, t, i, m[u][j].address, va);
    }
  }

  /** Writing a leaf changes no depth. */
  lemma StoreKeepsDepth(m: Memory, g: Geometry, places: Places, t: nat, i: nat, d: Descriptor, va: nat)
    requires Writable(m, g, places, t, i) && va < g.Limit()
    requires LeafOk(d, places[t].level, EntryBase(places[t], i))
    ensures Depth(WriteEntry(m, t, i, d), g, va) == Depth(m, g, va)
  {
    var m' := WriteEntry(m, t, i, d);
    if InEntry(places, t, i, va) {
      StoreLeaf(m, g, places, t, i, d);
      DepthOfEntry(m, g, places, t, i, va);
      DepthOfEntry(m', g, places, t, i, va);
    } else {
      DepthUnaffected(m, m', g, places, t, i, g.root, va);
    }
  }

  /** Hanging a table below an entry deepens exactly the addresses of that entry, by one level. */
  lemma AttachDeepens(
    m: Memory, g: Geometry, places: Places, t: nat, i: nat, n: nat, words: seq<Descriptor>, va: nat)
    requires Writable(m, g, places, t, i) && places[t].level != 3
    requires n !in places && Refines(m, places, t, i, words) && va < g.Limit()
    ensures var m' := WriteEntry(m[n := words], t, i, Link(n));
            Depth(m', g, va) == Depth(m, g, va) + (if InEntry(places, t, i, va) then 1 else 0)
    ensures InEntry(places, t, i, va) ==> Depth(m, g, va) == places[t].level
  {
    var m' := WriteEntry(m[n := words], t, i, Link(n));
    var places' := places[n := Below(places, t, i)];
    if InEntry(places, t, i, va) {
      DepthOfEntry(m, g, places, t, i, va);
      AttachKeepsShape(m, g, places, t, i, n, words);
      assert PlaceOk(m', g, places', n);
      IndexInTable(places'[n].level, places'[n].base, TT_ENTRY_COUNT, va);
      var j := EntryIndex(places'[n].level, va);
      assert InEntry(places', n, j, va);
      DepthOfEntry(m', g, places', n, j, va);
    } else {
      DepthUnaffected(m, m', g, places, t, i, g.root, va);
    }
  }

  // ----- Addresses that share their tables -----

  predicate SameBlock(level: Level, va: nat, vb: nat) {
    va / BlockSize(level) == vb / BlockSize(level)
  }

  lemma DivDiv(x: nat, a: nat, b: nat)
    requires a > 0 && b > 0
    ensures a * b > 0 && x / (a * b) == x / a / b
  {
    DivModIs(x, a);
    DivModIs(x / a, b);
    DivDivParts(x, x / a, x % a, x / a / b, x / a % b, a, b);
  }

  lemma DivModIs(x: nat, a: nat)
    requires a > 0
    ensures x == x / a * a + x % a
  {
  }

  lemma DivDivParts(x: nat, q: nat, r: nat, p: nat, s: nat, a: nat, b: nat)
    requires r < a && s < b && x == q * a + r && q == p * b + s
    ensures a * b > 0 && x / (a * b) == p
  {
    Nested(p, s, r, a, b);
    DivModUnique(x, p, a * b, s * a + r);
  }

  lemma Nested(p: nat, s: nat, r: nat, a: nat, b: nat)
    requires s < b && r < a
    ensures (p * b + s) * a + r == p * (a * b) + (s * a + r)
    ensures s * a + r < a * b
  {
    assert (p * b) * a == p * (a * b);
    assert (s + 1) * a <= b * a;
  }

  /** Addresses in one block are in one block of every coarser level. */
  lemma SameCoarserBlock(fine: Level, coarse: Level, va: nat, vb: nat)
    requires coarse <= fine && SameBlock(fine, va, vb)
    ensures SameBlock(coarse, va, vb)
  {
    if coarse < fine {
      var factor := if coarse + 1 == fine then 0x200 else if coarse + 2 == fine then 0x4_0000 else 0x800_0000;
      assert BlockSize(coarse) == BlockSize(fine) * factor;
      DivDiv(va, BlockSize(fine), factor);
      DivDiv(vb, BlockSize(fine), factor);
    }
  }

  /** Two addresses in one block of level k-1 have the same tables down to level k. */
  lemma {:induction false} SharedTables(m: Memory, t: nat, level: Level, k: Level, va: nat, vb: nat)
    requires level < k && SameBlock(k - 1, va, vb)
    ensures DepthFrom(m, t, level, va) >= k <==> DepthFrom(m, t, level, vb) >= k
    decreases 3 - level
  {
    SameCoarserBlock(k - 1, level, va, vb);
    assert EntryIndex(level, va) == EntryIndex(level, vb);
    if t in m && |m[t]| == TT_ENTRY_COUNT && IsTableType(m[t][EntryIndex(level, va)]) && level + 1 < k {
      SharedTables(m, m[t][EntryIndex(level, va)].address, level + 1, k, va, vb);
    }
  }

  lemma SharedDepth(m: Memory, g: Geometry, k: Level, va: nat, vb: nat)
    requires k > 0 && SameBlock(k - 1, va, vb)
    ensures Depth(m, g, va) >= k <==> Depth(m, g, vb) >= k
  {
    if g.level < k {
      SharedTables(m, g.root, g.level, k, va, vb);
    }
  }

  // ----- What one step can need -----

  predicate StartsBlock(level: Level, c: nat) {
    c % BlockSize(level) == 0
  }

  /** The address `c` has the table of every block that it lies inside of. */
  ghost predicate CursorDeep(m: Memory, g: Geometry, c: nat) {
    forall k: Level | k < 3 && !StartsBlock(k, c) :: Depth(m, g, c) > k
  }

  lemma NotAtBoundary(level: Level, c: nat)
    requires c > 0 && !StartsBlock(level, c)
    ensures SameBlock(level, c - 1, c)
  {
    var s := BlockSize(level);
    DivModUnique(c - 1, c / s, s, c % s - 1);
  }

  lemma CoarserMultiple(coarse: Level, fine: Level, c: nat)
    requires coarse <= fine && c % BlockSize(coarse) == 0
    ensures c % BlockSize(fine) == 0
    decreases fine - coarse
  {
    if coarse < fine {
      AlignedBlock(coarse, c);
      CoarserMultiple(coarse + 1, fine, c);
    }
  }

  /** The address after an entry has its tables, as far as it shares them with the entry. */
  lemma CursorAfterEntry(m: Memory, g: Geometry, c: nat, level: Level)
    requires c > 0 && c % BlockSize(level) == 0 && Depth(m, g, c - 1) >= level
    ensures CursorDeep(m, g, c)
  {
    forall k: Level | k < 3 && !StartsBlock(k, c)
      ensures Depth(m, g, c) > k
    {
      if level <= k {
        CoarserMultiple(level, k, c);
      }
      NotAtBoundary(k, c);
      SharedDepth(m, g, k + 1, c - 1, c);
    }
  }

  /** Why `level` is picked for a region of `length` bytes at `c`. */
  predicate Picked(c: nat, length: nat, level: Level)
    requires length > 0
  {
    level == 0 || level == 1 || length < BlockSize(level - 1) || !LevelAligned(c, length, level - 1)
  }

  lemma RestInBlock(level: Level, c: nat, length: nat)
    requires c % BlockSize(level) == 0 && 0 < length <= BlockSize(level)
    ensures SameBlock(level, c, c + length - 1)
  {
    var s := BlockSize(level);
    DivModUnique(c + length - 1, c / s, s, length - 1);
  }

  /** Within the region, new tables are needed only at the start of a 512 GB block or for its end: in the
      second case the end shares all of them. */
  lemma NewTables(m: Memory, g: Geometry, c: nat, length: nat, level: Level)
    requires c > 0 && length > 0 && CursorDeep(m, g, c) && Picked(c, length, level)
    requires Depth(m, g, c) < level
    ensures if level == 1 then StartsBlock(0, c)
            else SameBlock(level - 1, c, c + length - 1) && Depth(m, g, c + length - 1) <= Depth(m, g, c)
  {
    if level > 1 {
      assert StartsBlock(level - 1, c);
      AlignedAtLevel(c, level - 1);
      RestInBlock(level - 1, c, length);
      var d: Level := Depth(m, g, c);
      SameCoarserBlock(level - 1, d, c, c + length - 1);
      SharedDepth(m, g, d + 1, c, c + length - 1);
    }
  }

  ghost predicate DepthGrows(m: Memory, m': Memory, g: Geometry) {
    forall va: nat | va < g.Limit() :: Depth(m, g, va) <= Depth(m', g, va)
  }

  ghost predicate SameDepth(m: Memory, m': Memory, g: Geometry) {
    forall va: nat | va < g.Limit() :: Depth(m, g, va) == Depth(m', g, va)
  }

  /** A table has been hung below the last table of `va`, which has the given level. */
  ghost predicate Deepened(m: Memory, m': Memory, g: Geometry, va: nat, level: nat) {
    DepthGrows(m, m', g) && Depth(m, g, va) == level && Depth(m', g, va) == level + 1
  }

  lemma AttachAtDeepens(
    m: Memory, g: Geometry, places: Places, t: nat, level: Level, va: nat, n: nat, words: seq<Descriptor>)
    requires WellFormed(m, g, places) && t in places && places[t].level == level != 3
    requires Covers(g, places, t, va) && n !in places
    requires t in m && |m[t]| == TT_ENTRY_COUNT
    requires !IsLink(m, places, t, EntryIndex(level, va))
    requires Refines(m, places, t, EntryIndex(level, va), words)
    ensures Deepened(m, Attached(m, t, EntryIndex(level, va), n, words), g, va, level)
  {
    var i := EntryIndex(level, va);
    EntryAt(m, g, places, t, level, va);
    WalkOfEntry(m, g, places, t, i, va);
    forall vb: nat | vb < g.Limit()
      ensures Depth(m, g, vb) <= Depth(Attached(m, t, i, n, words), g, vb)
    {
      AttachDeepens(m, g, places, t, i, n, words, vb);
    }
    AttachDeepens(m, g, places, t, i, n, words, va);
  }

  /** The inner loop changes no depth, and the entry it has written is in the table it is filling. */
  lemma StoreStepDepth(m: Memory, g: Geometry, places: Places, t: nat, i: nat, attributes: bv64, mask: Mask)
    requires Writable(m, g, places, t, i) && places[t].level != 0 && g.Limit() <= SPACE_48
    requires AttributesOk(attributes)
    ensures var a, level := EntryBase(places[t], i), places[t].level;
            var m' := WriteEntry(m, t, i, UpdatedEntry(m[t][i], level, a, attributes, mask));
            SameDepth(m, m', g) && Depth(m', g, a + BlockSize(level) - 1) == level
  {
    var a, level := EntryBase(places[t], i), places[t].level;
    EntryBaseAligned(m, g, places, t, i);
    assert EntriesOk(m, g, places, t);
    assert EntryOk(g, places, t, i, m[t][i]);
    UpdatedEntryOk(m[t][i], level, a, attributes, mask);
    var d := UpdatedEntry(m[t][i], level, a, attributes, mask);
    forall va: nat | va < g.Limit()
      ensures Depth(WriteEntry(m, t, i, d), g, va) == Depth(m, g, va)
    {
      StoreKeepsDepth(m, g, places, t, i, d, va);
    }
    StoreLeaf(m, g, places, t, i, d);
    DepthOfEntry(WriteEntry(m, t, i, d), g, places, t, i, a + BlockSize(level) - 1);
  }

  // ----- What one walk makes -----

  /** One turn of the walk has made `made` tables, 0 or 1. */
  ghost predicate StepCost(
    m: Memory, m': Memory, g: Geometry, va: nat, made: int, indexLevel: Level, pageLevel: Level, nextPageLevel: Level)
  {
    && (nextPageLevel == pageLevel || nextPageLevel == pageLevel + 1 == indexLevel + 1)
    && (if made == 0 then m' == m && (Depth(m, g, va) == indexLevel ==> indexLevel == nextPageLevel == pageLevel)
        else made == 1 && indexLevel < pageLevel == nextPageLevel && Deepened(m, m', g, va, indexLevel))
  }

  /** The walk to `va` has made `used` tables on its way to `indexLevel`. */
  ghost predicate WalkCost(
    m0: Memory, m: Memory, g: Geometry, va: nat, used: int, indexLevel: nat, pageLevel: Level, picked: Level)
  {
    && DepthGrows(m0, m, g)
    && Depth(m, g, va) == Depth(m0, g, va) + used && used >= 0
    && (used > 0 ==> pageLevel == picked
                     && Depth(m, g, va) == if indexLevel <= pageLevel then indexLevel else pageLevel)
    && (pageLevel == picked || indexLevel >= pageLevel)
  }

  lemma WalkCostStep(
    m0: Memory, m: Memory, m': Memory, g: Geometry, va: nat, used: int, used': int,
    indexLevel: Level, pageLevel: Level, nextPageLevel: Level, picked: Level)
    requires indexLevel <= pageLevel && WalkCost(m0, m, g, va, used, indexLevel, pageLevel, picked)
    requires StepCost(m, m', g, va, used' - used, indexLevel, pageLevel, nextPageLevel)
    ensures WalkCost(m0, m', g, va, used', indexLevel + 1, nextPageLevel, picked)
  {
    forall vb: nat | vb < g.Limit()
      ensures Depth(m0, g, vb) <= Depth(m', g, vb)
    {
      assert Depth(m0, g, vb) <= Depth(m, g, vb);
    }
  }

  // ----- What a region can need -----

  /** Three tables for each end of the region, and one for each further 512 GB. */
  function PagesBound(start: nat, length: nat): nat
    requires length > 0
  {
    BoundGrows(start, start + length - 1);
    6 + (start + length - 1) / BlockSize(0) - start / BlockSize(0)
  }

  lemma BoundGrows(a: nat, b: nat)
    requires a <= b
    ensures a / BlockSize(0) <= b / BlockSize(0)
  {
  }

  lemma NextBoundary(a: nat, c: nat)
    requires a < c && StartsBlock(0, c)
    ensures a / BlockSize(0) < c / BlockSize(0)
  {
  }

  /** Up to the step at `last`, this many tables have been made for a region from `from` to `end`. */
  ghost predicate Spent(m: Memory, g: Geometry, from: nat, last: nat, end: nat, used: int) {
    used <= 3 + Depth(m, g, end) + last / BlockSize(0) - from / BlockSize(0)
  }

  /** What the step at `c` needs, for a table of the given level. */
  lemma StepSpends(m: Memory, g: Geometry, from: nat, last: nat, c: nat, length: nat, level: Level, used: int)
    requires from <= last < c && length > 0 && CursorDeep(m, g, c)
    requires Depth(m, g, c) < level && Picked(c, length, level)
    requires Spent(m, g, from, last, c + length - 1, used)
    ensures used + level - Depth(m, g, c) <= PagesBound(from, c + length - from)
    ensures used + level - Depth(m, g, c)
            <= 3 + (if level == 1 then Depth(m, g, c + length - 1) else level)
               + c / BlockSize(0) - from / BlockSize(0)
    ensures level != 1 ==> SameBlock(level - 1, c, c + length - 1)
  {
    NewTables(m, g, c, length, level);
    BoundGrows(last, c);
    BoundGrows(c, c + length - 1);
    if level == 1 {
      NextBoundary(last, c);
    }
  }

  lemma SpendStep(
    m: Memory, m': Memory, g: Geometry, from: nat, last: nat, c: nat, length: nat, level: Level, used: int)
    requires from <= last < c && length > 0 && c + length <= g.Limit() && CursorDeep(m, g, c)
    requires DepthGrows(m, m', g) && Depth(m, g, c) <= level == Depth(m', g, c)
    requires Depth(m, g, c) < level ==> Picked(c, length, level)
    requires Spent(m, g, from, last, c + length - 1, used)
    ensures Spent(m', g, from, c, c + length - 1, used + level - Depth(m, g, c))
  {
    BoundGrows(last, c);
    if Depth(m, g, c) < level {
      StepSpends(m, g, from, last, c, length, level, used);
      if level != 1 {
        SharedDepth(m', g, level, c, c + length - 1);
      }
    }
  }

  lemma EntryEndAligned(level: Level, base: nat, i: nat)
    requires base % Span(level, TT_ENTRY_COUNT) == 0
    ensures (base + Span(level, i) + BlockSize(level)) % BlockSize(level) == 0
  {
    var q := base / Span(level, TT_ENTRY_COUNT) * TT_ENTRY_COUNT;
    assert base == q * BlockSize(level);
    DivModUnique(base + Span(level, i) + BlockSize(level), q + i + 1, BlockSize(level), 0);
  }

  // ----- The balance of one call -----

  /** A call for addresses `from` to `end` that found `free` pages with the allocator. */
  datatype Account = Account(from: nat, end: nat, free: nat)

  function AccountBound(account: Account): nat
    requires account.from <= account.end
  {
    PagesBound(account.from, account.end - account.from + 1)
  }

  /** When the call is at `start` with `left` pages still free, it has spent no more than it may. */
  ghost predicate Balanced(m: Memory, g: Geometry, account: Account, start: nat, left: nat) {
    && account.from <= account.end && account.from <= start
    && (start == account.from ==> left == account.free)
    && (start > account.from ==>
          && (start <= account.end ==> CursorDeep(m, g, start))
          && exists last: nat :: SpentTo(m, g, account, start, left, last))
  }

  ghost predicate SpentTo(m: Memory, g: Geometry, account: Account, start: nat, left: nat, last: nat) {
    && account.from <= last < start && last <= account.end
    && Spent(m, g, account.from, last, account.end, account.free - left)
  }

  lemma SpentWithinBound(m: Memory, g: Geometry, account: Account, last: nat, used: int)
    requires account.from <= last <= account.end
    requires Spent(m, g, account.from, last, account.end, used)
    ensures used <= AccountBound(account)
  {
    BoundGrows(last, account.end);
  }

  /** A step that finds too few pages: there were fewer than the bound at the start. */
  lemma Overdrawn(m: Memory, g: Geometry, account: Account, c: nat, length: nat, goal: Level, left: nat)
    requires Balanced(m, g, account, c, left) && length > 0 && c + length == account.end + 1
    requires Depth(m, g, c) < goal && Picked(c, length, goal) && left < goal - Depth(m, g, c)
    ensures account.free < AccountBound(account)
  {
    if c > account.from {
      var last: nat :| SpentTo(m, g, account, c, left, last);
      StepSpends(m, g, account.from, last, c, length, goal, account.free - left);
    } else {
      BoundGrows(account.from, account.end);
    }
  }

  /** A step that is done: `m1` after the walk, `m2` after the entries have been filled up to `start`. */
  lemma Settle(
    m: Memory, m1: Memory, m2: Memory, g: Geometry, account: Account, c: nat, start: nat, length: nat, goal: Level,
    before: nat, left: nat)
    requires Balanced(m, g, account, c, before)
    requires c < start && start + length == account.end + 1 && account.end < g.Limit()
    requires DepthGrows(m, m1, g) && SameDepth(m1, m2, g) && Depth(m1, g, c) == goal
    requires before == left + (goal - Depth(m, g, c))
    requires goal > Depth(m, g, c) ==> Picked(c, account.end + 1 - c, goal)
    requires start % BlockSize(goal) == 0 && Depth(m2, g, start - 1) == goal
    ensures Balanced(m2, g, account, start, left) && account.free <= left + AccountBound(account)
  {
    var size := account.end + 1 - c;
    CursorAfterEntry(m2, g, start, goal);
    assert Depth(m2, g, c) == goal;
    assert forall va: nat | va < g.Limit() :: Depth(m, g, va) <= Depth(m2, g, va);
    if c > account.from {
      var last: nat :| SpentTo(m, g, account, c, before, last);
      SpendStep(m, m2, g, account.from, last, c, size, goal, account.free - before);
    }
    assert SpentTo(m2, g, account, start, left, c);
    SpentWithinBound(m2, g, account, c, account.free - left);
  }
}
