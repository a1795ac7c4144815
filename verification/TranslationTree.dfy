/** The shape the page-table editor keeps its tables in, and what an edit of one entry does to the
    walk of every address. */
module TranslationTree {
  import opened Arithmetic
  import opened Vmsa64

  /** Where a table sits in the tree: its level, the first address it covers, and the one entry that
      points to it (unused for the root). */
  datatype Place = Place(level: Level, base: nat, parent: nat, slot: nat)

  type Places = map<nat, Place>

  function EntryCount(g: Geometry, t: nat): nat {
    if t == g.root then g.count else TT_ENTRY_COUNT
  }

  function EntryBase(p: Place, i: nat): nat {
    p.base + Span(p.level, i)
  }

  predicate AttributesOk(attributes: bv64) {
    attributes & !TT_ATTRIBUTES_MASK == 0 && attributes & TT_NS == 0
  }

  function LeafType(level: Level): bv2 {
    if level == 3 then TT_TYPE_BLOCK_ENTRY_LEVEL3 else TT_TYPE_BLOCK_ENTRY
  }

  /** An identity-mapped secure leaf for the entry that starts at `a`. */
  predicate LeafOk(d: Descriptor, level: Level, a: nat) {
    && level != 0
    && d.address == a
    && d.kind == LeafType(level)
    && AttributesOk(d.attributes)
  }

  /** A table descriptor without hierarchical attributes. */
  function Link(n: nat): Descriptor {
    Descriptor(TT_TYPE_TABLE_ENTRY, 0, n)
  }

  ghost predicate LinkOk(g: Geometry, places: Places, t: nat, i: nat, d: Descriptor) {
    && d.kind == TT_TYPE_TABLE_ENTRY && d.attributes == 0
    && d.address in places
    && d.address != g.root
    && places[d.address].parent == t
    && places[d.address].slot == i
  }

  ghost predicate EntryOk(g: Geometry, places: Places, t: nat, i: nat, d: Descriptor)
    requires t in places
  {
    || d == INVALID
    || LeafOk(d, places[t].level, EntryBase(places[t], i))
    || (places[t].level != 3 && LinkOk(g, places, t, i, d))
  }

  /** Every table but the root hangs below exactly one entry, one level up, at the address it covers. */
  ghost predicate PlaceOk(m: Memory, g: Geometry, places: Places, t: nat)
    requires t in places
  {
    var p := places[t];
    && p.base % (Span(p.level, TT_ENTRY_COUNT)) == 0
    && (t != g.root ==>
          && p.parent in places && p.parent in m && |m[p.parent]| == TT_ENTRY_COUNT
          && g.level < p.level == places[p.parent].level + 1
          && p.slot < EntryCount(g, p.parent) <= TT_ENTRY_COUNT
          && p.base == EntryBase(places[p.parent], p.slot)
          && m[p.parent][p.slot] == Link(t))
  }

  ghost predicate EntriesOk(m: Memory, g: Geometry, places: Places, t: nat)
    requires t in places && t in m && |m[t]| == TT_ENTRY_COUNT
    requires EntryCount(g, t) <= TT_ENTRY_COUNT
  {
    forall i: nat {:trigger EntryOk(g, places, t, i, m[t][i])} | i < EntryCount(g, t) ::
      EntryOk(g, places, t, i, m[t][i])
  }

  ghost predicate WellFormed(m: Memory, g: Geometry, places: Places) {
    && g.Valid()
    && g.root in places && places[g.root].level == g.level && places[g.root].base == 0
    && (forall t | t in places :: t in m && |m[t]| == TT_ENTRY_COUNT)
    && (forall t {:trigger PlaceOk(m, g, places, t)} | t in places :: PlaceOk(m, g, places, t))
    && (forall t {:trigger EntriesOk(m, g, places, t)} | t in places :: EntriesOk(m, g, places, t))
  }

  /** The addresses a table is responsible for. */
  predicate Covers(g: Geometry, places: Places, t: nat, va: nat)
    requires t in places
  {
    places[t].base <= va < places[t].base + Span(places[t].level, EntryCount(g, t))
  }

  /** The addresses one entry is responsible for. */
  predicate InEntry(places: Places, t: nat, i: nat, va: nat)
    requires t in places
  {
    EntryBase(places[t], i) <= va < EntryBase(places[t], i) + BlockSize(places[t].level)
  }

  lemma EntryIndexUnique(level: Level, base: nat, i: nat, va: nat)
    requires base % Span(level, TT_ENTRY_COUNT) == 0 && i < TT_ENTRY_COUNT
    requires base + Span(level, i) <= va < base + Span(level, i) + BlockSize(level)
    ensures EntryIndex(level, va) == i
    ensures va % BlockSize(level) == va - (base + Span(level, i))
    ensures BlockStart(level, va) == base + Span(level, i)
  {
    var s := BlockSize(level);
    var k := base / Span(level, TT_ENTRY_COUNT);
    var q := TT_ENTRY_COUNT * k + i;
    assert base + Span(level, i) == q * s;
    DivModUnique(va, q, s, va - q * s);
    DivModUnique(q, k, TT_ENTRY_COUNT, i);
  }

  lemma IndexInTable(level: Level, base: nat, count: nat, va: nat)
    requires base % Span(level, TT_ENTRY_COUNT) == 0 && count <= TT_ENTRY_COUNT
    requires base <= va < base + Span(level, count)
    ensures EntryIndex(level, va) < count
    ensures base + Span(level, EntryIndex(level, va)) <= va
    ensures va < base + Span(level, EntryIndex(level, va)) + BlockSize(level)
    ensures va % BlockSize(level) == va - (base + Span(level, EntryIndex(level, va)))
    ensures BlockStart(level, va) == base + Span(level, EntryIndex(level, va))
  {
    var i := (va - base) / BlockSize(level);
    EntryIndexUnique(level, base, i, va);
  }

  /** Any walk reaches each table on its way: from the root, an address below table `t` translates as
      it does from `t`. */
  lemma {:induction false} WalkPassesThrough(m: Memory, g: Geometry, places: Places, t: nat, va: nat)
    requires WellFormed(m, g, places)
    requires t in places && Covers(g, places, t, va)
    ensures va < g.Limit()
    ensures Walk(m, g, va) == WalkFrom(m, t, places[t].level, va)
    decreases places[t].level
  {
    assert PlaceOk(m, g, places, t);
    if t != g.root {
      var p := places[t].parent;
      assert PlaceOk(m, g, places, p);
      EntryIndexUnique(places[p].level, places[p].base, places[t].slot, va);
      WalkPassesThrough(m, g, places, p, va);
    }
  }

  function WriteEntry(m: Memory, t: nat, i: nat, d: Descriptor): Memory
    requires t in m && i < |m[t]|
  {
    m[t := m[t][i := d]]
  }

  /** `m'` differs from `m`, on the tables of the tree, at most in entry `i` of table `t`. */
  ghost predicate SameButEntry(m: Memory, m': Memory, places: Places, t: nat, i: nat) {
    forall x | x in places && x in m ::
      && x in m' && |m'[x]| == |m[x]|
      && forall j: nat | j < |m[x]| && (x != t || j != i) :: m'[x][j] == m[x][j]
  }

  /** The table below a link covers exactly the addresses of the entry that links it. */
  lemma LinkCovers(m: Memory, g: Geometry, places: Places, u: nat, j: nat, va: nat)
    requires WellFormed(m, g, places)
    requires u in places && j < EntryCount(g, u) && InEntry(places, u, j, va)
    requires places[u].level != 3
    requires LinkOk(g, places, u, j, m[u][j])
    ensures places[m[u][j].address].level == places[u].level + 1
    ensures Covers(g, places, m[u][j].address, va)
  {
    assert PlaceOk(m, g, places, m[u][j].address);
  }

  lemma {:induction false} WalkUnaffected(
    m: Memory, m': Memory, g: Geometry, places: Places, t: nat, i: nat, u: nat, va: nat)
    requires WellFormed(m, g, places) && SameButEntry(m, m', places, t, i)
    requires t in places && u in places && Covers(g, places, u, va)
    requires !InEntry(places, t, i, va)
    ensures WalkFrom(m', u, places[u].level, va) == WalkFrom(m, u, places[u].level, va)
    decreases 3 - places[u].level
  {
    assert PlaceOk(m, g, places, u);
    var level := places[u].level;
    IndexInTable(level, places[u].base, EntryCount(g, u), va);
    var j := EntryIndex(level, va);
    assert InEntry(places, u, j, va);
    assert EntriesOk(m, g, places, u);
    assert EntryOk(g, places, u, j, m[u][j]);
    if level != 3 && IsTableType(m[u][j]) {
      LinkCovers(m, g, places, u, j, va);
      WalkUnaffected(m, m', g, places, t, i, m[u][j].address, va);
    }
  }

  predicate IsLink(m: Memory, places: Places, t: nat, i: nat)
    requires t in places && t in m && i < |m[t]|
  {
    places[t].level != 3 && IsTableType(m[t][i])
  }

  /** Entry `i` of table `t` may be written: it exists and links no table. */
  ghost predicate Writable(m: Memory, g: Geometry, places: Places, t: nat, i: nat) {
    && WellFormed(m, g, places)
    && t in places && t in m && i < EntryCount(g, t) && i < |m[t]|
    && !IsLink(m, places, t, i)
  }

  /** What an entry that links no table maps an address below it to. */
  function EntryMapping(d: Descriptor, va: nat): Mapping {
    if d == INVALID then Unmapped else Mapped(va, d.attributes)
  }

  lemma WalkOfEntry(m: Memory, g: Geometry, places: Places, t: nat, i: nat, va: nat)
    requires Writable(m, g, places, t, i) && InEntry(places, t, i, va)
    ensures Walk(m, g, va) == EntryMapping(m[t][i], va)
    ensures va < g.Limit()
  {
    assert PlaceOk(m, g, places, t);
    EntryIndexUnique(places[t].level, places[t].base, i, va);
    WalkPassesThrough(m, g, places, t, va);
    assert EntriesOk(m, g, places, t);
    assert EntryOk(g, places, t, i, m[t][i]);
  }

  lemma StoreLeafKeepsShape(m: Memory, g: Geometry, places: Places, t: nat, i: nat, d: Descriptor)
    requires Writable(m, g, places, t, i)
    requires LeafOk(d, places[t].level, EntryBase(places[t], i))
    ensures WellFormed(WriteEntry(m, t, i, d), g, places)
  {
    var m' := WriteEntry(m, t, i, d);
    forall u | u in places
      ensures PlaceOk(m', g, places, u)
    {
      assert PlaceOk(m, g, places, u);
    }
    forall u | u in places
      ensures EntriesOk(m', g, places, u)
    {
      assert EntriesOk(m, g, places, u);
    }
  }

  /** Writing a leaf over an entry that links no table remaps exactly the addresses of that entry. */
  lemma StoreLeaf(m: Memory, g: Geometry, places: Places, t: nat, i: nat, d: Descriptor)
    requires Writable(m, g, places, t, i)
    requires LeafOk(d, places[t].level, EntryBase(places[t], i))
    ensures var m' := WriteEntry(m, t, i, d);
            && Writable(m', g, places, t, i)
            && forall va: nat :: Walk(m', g, va) ==
                 if InEntry(places, t, i, va) then Mapped(va, d.attributes) else Walk(m, g, va)
  {
    var m' := WriteEntry(m, t, i, d);
    StoreLeafKeepsShape(m, g, places, t, i, d);
    forall va: nat
      ensures Walk(m', g, va) ==
        if InEntry(places, t, i, va) then Mapped(va, d.attributes) else Walk(m, g, va)
    {
      if InEntry(places, t, i, va) {
        WalkOfEntry(m', g, places, t, i, va);
      } else if va < g.Limit() {
        WalkUnaffected(m, m', g, places, t, i, g.root, va);
      }
    }
  }

  /** `words` says for every address below entry (t, i) what that entry says now. */
  ghost predicate Refines(m: Memory, places: Places, t: nat, i: nat, words: seq<Descriptor>)
    requires t in places && t in m && i < |m[t]|
    requires places[t].level != 3
  {
    && |words| == TT_ENTRY_COUNT
    && forall j: nat | j < TT_ENTRY_COUNT ::
         if m[t][i] == INVALID then words[j] == INVALID
         else
           && LeafOk(words[j], places[t].level + 1,
                     EntryBase(places[t], i) + Span(places[t].level + 1, j))
           && words[j].attributes == m[t][i].attributes
  }

  function Below(places: Places, t: nat, i: nat): Place
    requires t in places && places[t].level != 3
  {
    Place(places[t].level + 1, EntryBase(places[t], i), t, i)
  }

  lemma BelowAligned(level: Level, base: nat, i: nat)
    requires level != 3
    requires base % Span(level, TT_ENTRY_COUNT) == 0
    ensures (base + Span(level, i)) % Span(level + 1, TT_ENTRY_COUNT) == 0
  {
    var size, q := Span(level + 1, TT_ENTRY_COUNT), base / Span(level, TT_ENTRY_COUNT);
    assert Span(level, TT_ENTRY_COUNT) == TT_ENTRY_COUNT * size && Span(level, i) == i * size;
    assert base == q * Span(level, TT_ENTRY_COUNT) == (q * TT_ENTRY_COUNT) * size;
    DivModUnique(base + Span(level, i), q * TT_ENTRY_COUNT + i, size, 0);
  }

  lemma AttachKeepsPlaces(
    m: Memory, g: Geometry, places: Places, t: nat, i: nat, n: nat, words: seq<Descriptor>)
    requires Writable(m, g, places, t, i) && places[t].level != 3
    requires n !in places && |words| == TT_ENTRY_COUNT
    ensures var m' := WriteEntry(m[n := words], t, i, Link(n));
            var places' := places[n := Below(places, t, i)];
            forall u | u in places' :: PlaceOk(m', g, places', u)
  {
    var m' := WriteEntry(m[n := words], t, i, Link(n));
    var places' := places[n := Below(places, t, i)];
    forall u | u in places'
      ensures PlaceOk(m', g, places', u)
    {
      assert PlaceOk(m, g, places, t);
      if u == n {
        BelowAligned(places[t].level, places[t].base, i);
      } else {
        assert PlaceOk(m, g, places, u);
      }
    }
  }

  lemma AttachKeepsShape(
    m: Memory, g: Geometry, places: Places, t: nat, i: nat, n: nat, words: seq<Descriptor>)
    requires Writable(m, g, places, t, i) && places[t].level != 3
    requires n !in places && Refines(m, places, t, i, words)
    ensures WellFormed(WriteEntry(m[n := words], t, i, Link(n)), g, places[n := Below(places, t, i)])
  {
    var m' := WriteEntry(m[n := words], t, i, Link(n));
    var places' := places[n := Below(places, t, i)];
    AttachKeepsPlaces(m, g, places, t, i, n, words);
    forall u | u in places'
      ensures EntriesOk(m', g, places', u)
    {
      if u != n {
        assert EntriesOk(m, g, places, u);
        forall j: nat | j < EntryCount(g, u)
          ensures EntryOk(g, places', u, j, m'[u][j])
        {
          assert EntryOk(g, places, u, j, m[u][j]);
        }
      }
    }
  }

  /** Hanging a table below an entry changes no translation, if the table says what the entry said. */
  lemma AttachTable(
    m: Memory, g: Geometry, places: Places, t: nat, i: nat, n: nat, words: seq<Descriptor>)
    requires Writable(m, g, places, t, i) && places[t].level != 3
    requires n !in places && Refines(m, places, t, i, words)
    ensures var m' := WriteEntry(m[n := words], t, i, Link(n));
            && WellFormed(m', g, places[n := Below(places, t, i)])
            && forall va: nat :: Walk(m', g, va) == Walk(m, g, va)
  {
    var m' := WriteEntry(m[n := words], t, i, Link(n));
    var places' := places[n := Below(places, t, i)];
    AttachKeepsShape(m, g, places, t, i, n, words);
    forall va: nat
      ensures Walk(m', g, va) == Walk(m, g, va)
    {
      if InEntry(places, t, i, va) {
        WalkOfEntry(m, g, places, t, i, va);
        assert PlaceOk(m', g, places', n);
        IndexInTable(places'[n].level, places'[n].base, TT_ENTRY_COUNT, va);
        var j := EntryIndex(places'[n].level, va);
        assert InEntry(places', n, j, va);
        WalkOfEntry(m', g, places', n, j, va);
      } else if va < g.Limit() {
        WalkUnaffected(m, m', g, places, t, i, g.root, va);
      }
    }
  }

  /** Every mapped address translates to itself, with attribute bits the library may write. */
  lemma {:induction false} WalkIsIdentityFrom(m: Memory, g: Geometry, places: Places, t: nat, va: nat)
    requires WellFormed(m, g, places) && t in places && Covers(g, places, t, va)
    ensures var w := WalkFrom(m, t, places[t].level, va);
            w.Mapped? ==> w.address == va && AttributesOk(w.attributes)
    decreases 3 - places[t].level
  {
    var level := places[t].level;
    var j := EntryIndex(level, va);
    assert PlaceOk(m, g, places, t);
    IndexInTable(level, places[t].base, EntryCount(g, t), va);
    assert EntriesOk(m, g, places, t);
    assert EntryOk(g, places, t, j, m[t][j]);
    if IsLink(m, places, t, j) {
      LinkCovers(m, g, places, t, j, va);
      WalkIsIdentityFrom(m, g, places, m[t][j].address, va);
    }
  }

  lemma WalkIsIdentity(m: Memory, g: Geometry, places: Places, va: nat)
    requires WellFormed(m, g, places)
    ensures var w := Walk(m, g, va); w.Mapped? ==> w.address == va && AttributesOk(w.attributes)
  {
    if va < g.Limit() {
      WalkIsIdentityFrom(m, g, places, g.root, va);
    }
  }

  /** The tables form a tree: two tables of one level never cover a common address. */
  lemma {:induction false} TablesAreDisjoint(m: Memory, g: Geometry, places: Places, t: nat, u: nat, va: nat)
    requires WellFormed(m, g, places)
    requires t in places && u in places && places[t].level == places[u].level
    requires Covers(g, places, t, va) && Covers(g, places, u, va)
    ensures t == u
    decreases places[t].level
  {
    assert PlaceOk(m, g, places, t) && PlaceOk(m, g, places, u);
    if t != g.root && u != g.root {
      var p, q := places[t].parent, places[u].parent;
      assert PlaceOk(m, g, places, p) && PlaceOk(m, g, places, q);
      EntryIndexUnique(places[p].level, places[p].base, places[t].slot, va);
      EntryIndexUnique(places[q].level, places[q].base, places[u].slot, va);
      ChildCovered(m, g, places, t, va);
      ChildCovered(m, g, places, u, va);
      TablesAreDisjoint(m, g, places, p, q, va);
    } else {
      assert PlaceOk(m, g, places, g.root);
    }
  }

  lemma ChildCovered(m: Memory, g: Geometry, places: Places, t: nat, va: nat)
    requires WellFormed(m, g, places) && t in places && t != g.root && Covers(g, places, t, va)
    ensures places[t].parent in places && Covers(g, places, places[t].parent, va)
  {
    assert PlaceOk(m, g, places, t);
  }
}
