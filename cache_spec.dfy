/** The two-level set-associative cache as values: the geometry a level
    derives from its configuration, the split of a 32-bit address into set
    index and tag, and the state transitions of a level (probe, FIFO
    install) and of the L1 -> L2 -> RAM hierarchy. The classes of modules
    CacheLevels and CacheSim are proved against these functions. */
module CacheSpec {
  import opened Bits

  /** uint32_t addresses. */
  type Address = a: nat | a < 0x1_0000_0000

  const ADDRESS_BITS: nat := 32

  datatype CacheLine = CacheLine(tag: nat, valid: bool)

  // ---------------------------------------------------------------------
  // Geometry

  datatype Geometry = Geometry(
    capacityBytes: nat,
    blockSize: nat,
    associativity: nat,
    numSets: nat,
    offsetBits: nat,
    indexBits: nat,
    tagBits: nat)

  /** A configuration the level code can run on: no division by zero, at
      least one set, and shift amounts that stay inside a 32-bit word
      (`1 << index_bits` is an int, so index_bits stays below 31). */
  predicate ValidConfig(capacity: nat, block: nat, assoc: nat)
  {
    && block >= 1 && assoc >= 1
    && capacity / (block * assoc) >= 1
    && Log2(block) + Log2(capacity / (block * assoc)) < ADDRESS_BITS
    && Log2(capacity / (block * assoc)) < ADDRESS_BITS - 1
  }

  predicate GeometryOk(g: Geometry)
  {
    && ValidConfig(g.capacityBytes, g.blockSize, g.associativity)
    && g.numSets == g.capacityBytes / (g.blockSize * g.associativity)
    && g.offsetBits == Log2(g.blockSize)
    && g.indexBits == Log2(g.numSets)
    && g.offsetBits + g.indexBits + g.tagBits == ADDRESS_BITS
  }

  /** MakeGeometry spelled out field by field, for a caller that has
      computed the set count and the two logarithms itself. */
  lemma MakeGeometryFields(capacity: nat, block: nat, assoc: nat, n: nat, ob: nat, ib: nat)
    requires ValidConfig(capacity, block, assoc)
    requires n == capacity / (block * assoc) && ob == Log2(block) && ib == Log2(n)
    ensures MakeGeometry(capacity, block, assoc) == Geometry(capacity, block, assoc, n, ob, ib, ADDRESS_BITS - ib - ob)
  {
  }

  /** The geometry the level constructor computes. */
  function MakeGeometry(capacity: nat, block: nat, assoc: nat): (g: Geometry)
    requires ValidConfig(capacity, block, assoc)
    ensures GeometryOk(g)
    ensures g.numSets * (block * assoc) <= capacity < (g.numSets + 1) * (block * assoc)
    ensures Pow2(g.offsetBits) <= block < Pow2(g.offsetBits + 1)
    ensures Pow2(g.indexBits) <= g.numSets < Pow2(g.indexBits + 1)
  {
    var n := capacity / (block * assoc);
    DivBounds(capacity, block * assoc);
    Log2Bounds(block);
    Log2Bounds(n);
    Geometry(capacity, block, assoc, n, Log2(block), Log2(n), ADDRESS_BITS - Log2(block) - Log2(n))
  }

  /** With power-of-two block size and set count, the shift and mask are
      exact: the offset field is the block size and the index field spans
      all sets. */
  lemma PowerOfTwoGeometry(g: Geometry)
    requires GeometryOk(g) && IsPow2(g.blockSize) && IsPow2(g.numSets)
    ensures Pow2(g.offsetBits) == g.blockSize && Pow2(g.indexBits) == g.numSets
  {
    Log2OfPow2(g.blockSize);
    Log2OfPow2(g.numSets);
  }

  // ---------------------------------------------------------------------
  // Address decomposition

  /** The address shifted right past its offset field, masked to the low
      indexBits bits: the set the address maps to. */
  function SetIndex(g: Geometry, a: Address): (r: nat)
    requires GeometryOk(g)
    ensures r < g.numSets
  {
    Log2Bounds(g.numSets);
    (a / Pow2(g.offsetBits)) % Pow2(g.indexBits)
  }

  /** The address shifted right past its offset and index fields; the three
      field widths make up the whole address, so the tag fits its field. */
  function Tag(g: Geometry, a: Address): (r: nat)
    requires g.offsetBits + g.indexBits + g.tagBits == ADDRESS_BITS
    ensures r < Pow2(g.tagBits)
  {
    TagBound(g, a);
    a / Pow2(g.offsetBits + g.indexBits)
  }

  lemma TagBound(g: Geometry, a: Address)
    requires g.offsetBits + g.indexBits + g.tagBits == ADDRESS_BITS
    ensures 0 <= a / Pow2(g.offsetBits + g.indexBits) < Pow2(g.tagBits)
  {
    var k := g.offsetBits + g.indexBits;
    Pow2Of32();
    Pow2Add(k, g.tagBits);
    DivBelowNat(a, Pow2(k), Pow2(g.tagBits));
  }

  /** The tag is the block number divided by the set-field range. */
  lemma TagOfBlockNumber(g: Geometry, a: Address)
    requires GeometryOk(g)
    ensures Tag(g, a) == (a / Pow2(g.offsetBits)) / Pow2(g.indexBits)
  {
    Pow2Add(g.offsetBits, g.indexBits);
    DivDiv(a, Pow2(g.offsetBits), Pow2(g.indexBits));
  }

  /** Tag, set index and offset together give back the address. */
  lemma AddressDecomposition(g: Geometry, a: Address)
    requires GeometryOk(g)
    ensures a == (Tag(g, a) * Pow2(g.indexBits) + SetIndex(g, a)) * Pow2(g.offsetBits) + a % Pow2(g.offsetBits)
  {
    TagOfBlockNumber(g, a);
    MixedRadix(a, Pow2(g.offsetBits), Pow2(g.indexBits));
  }

  /** Two addresses have the same set index and tag exactly when they lie in
      the same block. */
  lemma SameLineIffSameBlock(g: Geometry, a: Address, b: Address)
    requires GeometryOk(g)
    ensures SetIndex(g, a) == SetIndex(g, b) && Tag(g, a) == Tag(g, b)
        <==> a / Pow2(g.offsetBits) == b / Pow2(g.offsetBits)
  {
    TagOfBlockNumber(g, a);
    TagOfBlockNumber(g, b);
    QuotRemDetermine(a / Pow2(g.offsetBits), b / Pow2(g.offsetBits), Pow2(g.indexBits));
  }

  /** With a power-of-two geometry, the set is the block number modulo the
      number of sets. */
  lemma SetIndexOfPowerOfTwo(g: Geometry, a: Address)
    requires GeometryOk(g) && IsPow2(g.blockSize) && IsPow2(g.numSets)
    ensures SetIndex(g, a) == (a / g.blockSize) % g.numSets
    ensures Tag(g, a) == (a / g.blockSize) / g.numSets
  {
    PowerOfTwoGeometry(g);
    TagOfBlockNumber(g, a);
  }

  // ---------------------------------------------------------------------
  // One level

  datatype Level = Level(
    geometry: Geometry,
    latency: nat,
    sets: seq<seq<CacheLine>>,
    fifoNextVictim: seq<nat>,
    hits: nat,
    misses: nat)

  /** numSets sets of associativity ways, one FIFO cursor per set, each
      naming a way. */
  predicate LevelOk(l: Level)
  {
    && GeometryOk(l.geometry)
    && |l.sets| == l.geometry.numSets
    && (forall s :: 0 <= s < |l.sets| ==> |l.sets[s]| == l.geometry.associativity)
    && |l.fifoNextVictim| == l.geometry.numSets
    && (forall s :: 0 <= s < |l.fifoNextVictim| ==> l.fifoNextVictim[s] < l.geometry.associativity)
  }

  /** A fresh level: every line invalid, every cursor at way 0, no hits or
      misses counted. */
  function NewLevel(g: Geometry, latency: nat): (r: Level)
    requires GeometryOk(g)
    ensures LevelOk(r)
    ensures r.geometry == g && r.latency == latency && r.hits == 0 && r.misses == 0
    ensures forall s :: 0 <= s < |r.fifoNextVictim| ==> r.fifoNextVictim[s] == 0
    ensures forall s, w :: 0 <= s < |r.sets| && 0 <= w < |r.sets[s]| ==> !r.sets[s][w].valid
  {
    Level(g, latency,
          seq(g.numSets, _ => seq(g.associativity, _ => CacheLine(0, false))),
          seq(g.numSets, _ => 0),
          0, 0)
  }

  /** Some valid way of the address's set holds the address's tag. */
  predicate Present(l: Level, a: Address)
    requires LevelOk(l)
    ensures Present(l, a) <==>
      exists w :: 0 <= w < l.geometry.associativity
               && l.sets[SetIndex(l.geometry, a)][w] == CacheLine(Tag(l.geometry, a), true)
  {
    var i, t := SetIndex(l.geometry, a), Tag(l.geometry, a);
    exists w :: 0 <= w < |l.sets[i]| && l.sets[i][w].valid && l.sets[i][w].tag == t
  }

  /** A probe: exactly one of the counters moves, hits when the address is
      present; lines and cursors stay. */
  function LevelAccess(l: Level, a: Address): (r: Level)
    requires LevelOk(l)
    ensures LevelOk(r)
    ensures r.geometry == l.geometry && r.latency == l.latency
    ensures r.sets == l.sets && r.fifoNextVictim == l.fifoNextVictim
    ensures Present(l, a) ==> r.hits == l.hits + 1 && r.misses == l.misses
    ensures !Present(l, a) ==> r.hits == l.hits && r.misses == l.misses + 1
  {
    if Present(l, a) then l.(hits := l.hits + 1) else l.(misses := l.misses + 1)
  }

  /** The way a FIFO install overwrites. */
  function Victim(l: Level, a: Address): (w: nat)
    requires LevelOk(l)
    ensures w < l.geometry.associativity
  {
    l.fifoNextVictim[SetIndex(l.geometry, a)]
  }

  /** Install: the victim way of the address's set takes the tag, valid,
      and the set's cursor moves on by one modulo the associativity. */
  function LevelInstall(l: Level, a: Address): (r: Level)
    requires LevelOk(l)
    ensures LevelOk(r)
  {
    var i := SetIndex(l.geometry, a);
    var way := l.fifoNextVictim[i];
    l.(sets := l.sets[i := l.sets[i][way := CacheLine(Tag(l.geometry, a), true)]],
       fifoNextVictim := l.fifoNextVictim[i := (way + 1) % l.geometry.associativity])
  }

  lemma NewLevelEmpty(g: Geometry, latency: nat, a: Address)
    requires GeometryOk(g)
    ensures !Present(NewLevel(g, latency), a)
    ensures NewLevel(g, latency).hits == 0 && NewLevel(g, latency).misses == 0
  {
  }

  /** After an install the address is present. */
  lemma InstallThenPresent(l: Level, a: Address)
    requires LevelOk(l)
    ensures Present(LevelInstall(l, a), a)
  {
    var r := LevelInstall(l, a);
    var i, way := SetIndex(l.geometry, a), Victim(l, a);
    assert r.sets[i][way].valid && r.sets[i][way].tag == Tag(l.geometry, a);
  }

  /** An install writes one line and one cursor: every other line, every
      other cursor, the geometry and the counters are as before. */
  lemma InstallTouchesOneLine(l: Level, a: Address)
    requires LevelOk(l)
    ensures var r, i, way := LevelInstall(l, a), SetIndex(l.geometry, a), Victim(l, a);
      && r.geometry == l.geometry && r.hits == l.hits && r.misses == l.misses
      && r.sets[i][way] == CacheLine(Tag(l.geometry, a), true)
      && r.fifoNextVictim[i] == (way + 1) % l.geometry.associativity
      && (forall s, w :: 0 <= s < |l.sets| && 0 <= w < |l.sets[s]| && (s, w) != (i, way)
            ==> r.sets[s][w] == l.sets[s][w])
      && (forall s :: 0 <= s < |l.fifoNextVictim| && s != i ==> r.fifoNextVictim[s] == l.fifoNextVictim[s])
  {
  }

  /** Installing an address leaves every address of another set as present
      or absent as it was. */
  lemma InstallKeepsOtherSets(l: Level, a: Address, b: Address)
    requires LevelOk(l)
    requires SetIndex(l.geometry, b) != SetIndex(l.geometry, a)
    ensures Present(LevelInstall(l, a), b) <==> Present(l, b)
  {
    var r := LevelInstall(l, a);
    assert r.sets[SetIndex(l.geometry, b)] == l.sets[SetIndex(l.geometry, b)];
  }

  /** No two valid ways of a set share a tag. */
  predicate NoDuplicateTags(l: Level)
  {
    forall s, w1, w2 ::
      (0 <= s < |l.sets| && 0 <= w1 < w2 < |l.sets[s]| && l.sets[s][w1].valid && l.sets[s][w2].valid)
      ==> l.sets[s][w1].tag != l.sets[s][w2].tag
  }

  lemma InstallAbsentKeepsNoDuplicates(l: Level, a: Address)
    requires LevelOk(l) && NoDuplicateTags(l) && !Present(l, a)
    ensures NoDuplicateTags(LevelInstall(l, a))
  {
    var r := LevelInstall(l, a);
    var i, way := SetIndex(l.geometry, a), Victim(l, a);
    forall s, w1, w2 | 0 <= s < |r.sets| && 0 <= w1 < w2 < |r.sets[s]| && r.sets[s][w1].valid && r.sets[s][w2].valid
      ensures r.sets[s][w1].tag != r.sets[s][w2].tag
    {
      if s == i && w1 == way {
        assert !(l.sets[i][w2].valid && l.sets[i][w2].tag == Tag(l.geometry, a));
      } else if s == i && w2 == way {
        assert !(l.sets[i][w1].valid && l.sets[i][w1].tag == Tag(l.geometry, a));
      }
    }
  }

  // ---------------------------------------------------------------------
  // FIFO replacement

  /** Installs of a sequence of addresses, first to last. */
  function InstallAll(l: Level, xs: seq<Address>): (r: Level)
    requires LevelOk(l)
    ensures LevelOk(r) && r.geometry == l.geometry
    decreases |xs|
  {
    if xs == [] then l else InstallAll(LevelInstall(l, xs[0]), xs[1..])
  }

  /** How many of xs fall into set i. */
  function CountInSet(g: Geometry, xs: seq<Address>, i: nat): nat
    requires GeometryOk(g)
  {
    if xs == [] then 0
    else (if SetIndex(g, xs[0]) == i then 1 else 0) + CountInSet(g, xs[1..], i)
  }

  /** Installs into set i before the cursor comes round to way w. */
  function Distance(w: nat, c: nat, assoc: nat): nat
    requires w < assoc && c < assoc
  {
    if w >= c then w - c else w - c + assoc
  }

  /** An install into the set moves its cursor one way closer to w. */
  lemma CursorStep(w: nat, c: nat, assoc: nat)
    requires w < assoc && c < assoc && w != c
    ensures Distance(w, (c + 1) % assoc, assoc) == Distance(w, c, assoc) - 1
  {
    if c + 1 == assoc {
      assert (c + 1) % assoc == 0;
    } else {
      assert (c + 1) % assoc == c + 1;
    }
  }

  /** Right after writing way w, the cursor is as far from w as it can be. */
  lemma CursorAfterWrite(w: nat, assoc: nat)
    requires w < assoc
    ensures (w + 1) % assoc < assoc
    ensures Distance(w, (w + 1) % assoc, assoc) == assoc - 1
  {
    if w + 1 == assoc {
      assert (w + 1) % assoc == 0;
    } else {
      assert (w + 1) % assoc == w + 1;
    }
  }

  /** Way w of set i is not overwritten while the installs into set i stay
      below the distance from the cursor to w. */
  lemma {:induction false} LineSurvives(l: Level, xs: seq<Address>, i: nat, w: nat)
    requires LevelOk(l) && i < l.geometry.numSets && w < l.geometry.associativity
    requires CountInSet(l.geometry, xs, i) <= Distance(w, l.fifoNextVictim[i], l.geometry.associativity)
    ensures InstallAll(l, xs).sets[i][w] == l.sets[i][w]
    decreases |xs|
  {
    if xs != [] {
      var g := l.geometry;
      var l' := LevelInstall(l, xs[0]);
      InstallTouchesOneLine(l, xs[0]);
      if SetIndex(g, xs[0]) == i {
        CursorStep(w, l.fifoNextVictim[i], g.associativity);
      }
      assert l'.sets[i][w] == l.sets[i][w];
      LineSurvives(l', xs[1..], i, w);
    }
  }

  /** FIFO replacement: a block just installed survives any further
      installs that put fewer than associativity blocks into its set. */
  lemma InstalledSurvives(l: Level, a: Address, xs: seq<Address>)
    requires LevelOk(l)
    requires CountInSet(l.geometry, xs, SetIndex(l.geometry, a)) < l.geometry.associativity
    ensures Present(InstallAll(LevelInstall(l, a), xs), a)
  {
    var i, way := SetIndex(l.geometry, a), Victim(l, a);
    var l' := LevelInstall(l, a);
    InstallTouchesOneLine(l, a);
    CursorAfterWrite(way, l.geometry.associativity);
    LineSurvives(l', xs, i, way);
    var r := InstallAll(l', xs);
    assert r.sets[i][way] == CacheLine(Tag(l.geometry, a), true);
  }

  /** Capacity 64, block 32, two ways: a single set, offset 5 bits. */
  function TwoWayGeometry(): (g: Geometry)
    ensures GeometryOk(g)
  {
    assert Log2(32) == 5 && Log2(1) == 0;
    Geometry(64, 32, 2, 1, 5, 0, 27)
  }

  /** It is the geometry the level constructor computes for those sizes. */
  lemma TwoWayGeometryIsMade()
    ensures TwoWayGeometry() == MakeGeometry(64, 32, 2)
  {
    assert Log2(32) == 5 && Log2(1) == 0;
  }

  /** 0x00, 0x20 and 0x40 share the single set of the two-way level and
      carry tags 0, 1 and 2. */
  lemma TwoWayAddresses()
    ensures var g := TwoWayGeometry();
      && g.numSets == 1 && g.associativity == 2
      && SetIndex(g, 0x00) == 0 && SetIndex(g, 0x20) == 0 && SetIndex(g, 0x40) == 0
      && Tag(g, 0x00) == 0 && Tag(g, 0x20) == 1 && Tag(g, 0x40) == 2
  {
    assert Pow2(5) == 32 && Pow2(0) == 1;
  }

  /** An install into a level of one two-way set writes the way under the
      cursor and moves the cursor to the other way. */
  lemma InstallSingleSet(l: Level, a: Address, way: nat, tag: nat)
    requires LevelOk(l) && l.geometry.numSets == 1 && l.geometry.associativity == 2
    requires l.fifoNextVictim == [way] && Tag(l.geometry, a) == tag
    ensures LevelOk(LevelInstall(l, a)) && LevelInstall(l, a).geometry == l.geometry
    ensures LevelInstall(l, a).sets == [l.sets[0][way := CacheLine(tag, true)]]
    ensures LevelInstall(l, a).fifoNextVictim == [1 - way]
  {
    assert SetIndex(l.geometry, a) == 0;
  }

  /** In an empty level of one two-way set, three installs of tags 0, 1
      and 2 fill way 0, then way 1, then overwrite way 0. */
  lemma ThreeInstalls(l0: Level, x: Address, y: Address, z: Address)
    requires LevelOk(l0) && l0.geometry.numSets == 1 && l0.geometry.associativity == 2
    requires l0.sets == [[CacheLine(0, false), CacheLine(0, false)]] && l0.fifoNextVictim == [0]
    requires Tag(l0.geometry, x) == 0 && Tag(l0.geometry, y) == 1 && Tag(l0.geometry, z) == 2
    ensures InstallAll(l0, [x, y, z]).sets == [[CacheLine(2, true), CacheLine(1, true)]]
  {
    var l1 := LevelInstall(l0, x);
    InstallSingleSet(l0, x, 0, 0);
    assert l0.sets[0][0 := CacheLine(0, true)] == [CacheLine(0, true), CacheLine(0, false)];
    var l2 := LevelInstall(l1, y);
    InstallSingleSet(l1, y, 1, 1);
    assert l1.sets[0][1 := CacheLine(1, true)] == [CacheLine(0, true), CacheLine(1, true)];
    var l3 := LevelInstall(l2, z);
    InstallSingleSet(l2, z, 0, 2);
    assert l2.sets[0][0 := CacheLine(2, true)] == [CacheLine(2, true), CacheLine(1, true)];
    InstallAllThree(l0, x, y, z);
  }

  /** InstallAll of three addresses is three installs in order. */
  lemma InstallAllThree(l0: Level, x: Address, y: Address, z: Address)
    requires LevelOk(l0)
    ensures InstallAll(l0, [x, y, z]) == LevelInstall(LevelInstall(LevelInstall(l0, x), y), z)
  {
    var l1 := LevelInstall(l0, x);
    var l2 := LevelInstall(l1, y);
    assert [x, y, z][1..] == [y, z] && [y, z][1..] == [z] && [z][1..] == [];
    assert InstallAll(l2, [z]) == LevelInstall(l2, z);
    assert InstallAll(l1, [y, z]) == LevelInstall(l2, z);
  }

  /** The fresh two-way level: one set of two invalid lines, cursor at 0. */
  lemma EmptyTwoWayLevel()
    ensures NewLevel(TwoWayGeometry(), 1).sets == [[CacheLine(0, false), CacheLine(0, false)]]
    ensures NewLevel(TwoWayGeometry(), 1).fifoNextVictim == [0]
  {
    var l0 := NewLevel(TwoWayGeometry(), 1);
    assert l0.sets[0] == [CacheLine(0, false), CacheLine(0, false)];
  }

  /** A single set holding tags 2 and 1: the address of tag 0 misses, those
      of tags 1 and 2 hit. */
  lemma TagsZeroOneTwo(l: Level, x: Address, y: Address, z: Address)
    requires LevelOk(l) && l.geometry.numSets == 1
    requires l.sets == [[CacheLine(2, true), CacheLine(1, true)]]
    requires Tag(l.geometry, x) == 0 && Tag(l.geometry, y) == 1 && Tag(l.geometry, z) == 2
    ensures !Present(l, x) && Present(l, y) && Present(l, z)
  {
    assert SetIndex(l.geometry, x) == 0 && SetIndex(l.geometry, y) == 0 && SetIndex(l.geometry, z) == 0;
    assert l.sets[0][1].valid && l.sets[0][1].tag == 1;
    assert l.sets[0][0].valid && l.sets[0][0].tag == 2;
  }

  /** Installing 0x00, 0x20 and 0x40 into the two-way level: the third
      install evicts the first, so 0x00 misses and 0x20 still hits. */
  lemma FifoEvictionExample()
    ensures var l := InstallAll(NewLevel(TwoWayGeometry(), 1), [0x00, 0x20, 0x40]);
      && !Present(l, 0x00) && Present(l, 0x20) && Present(l, 0x40)
  {
    TwoWayAddresses();
    var l0 := NewLevel(TwoWayGeometry(), 1);
    EmptyTwoWayLevel();
    ThreeInstalls(l0, 0x00, 0x20, 0x40);
    TagsZeroOneTwo(InstallAll(l0, [0x00, 0x20, 0x40]), 0x00, 0x20, 0x40);
  }

  // ---------------------------------------------------------------------
  // The hierarchy

  datatype Hierarchy = Hierarchy(
    l1: Level,
    l2: Level,
    ramLatency: nat,
    totalAccessCycles: nat,
    totalRequests: nat)

  predicate HierarchyOk(h: Hierarchy)
  {
    LevelOk(h.l1) && LevelOk(h.l2)
  }

  const L1_LATENCY: nat := 1
  const L2_LATENCY: nat := 10
  const RAM_LATENCY: nat := 100

  /** L1 of 1024 bytes, direct mapped; L2 of 4096 bytes, two ways; 32-byte
      blocks; latencies 1, 10 and 100 cycles. */
  function DefaultHierarchy(): (h: Hierarchy)
    ensures HierarchyOk(h)
  {
    Hierarchy(NewLevel(DefaultL1Geometry(), L1_LATENCY),
              NewLevel(DefaultL2Geometry(), L2_LATENCY),
              RAM_LATENCY, 0, 0)
  }

  /** The default L1: 32 sets of one 32-byte line. */
  function DefaultL1Geometry(): (g: Geometry)
    ensures GeometryOk(g)
  {
    assert Log2(32) == 5;
    Geometry(1024, 32, 1, 32, 5, 5, 22)
  }

  /** The default L2: 64 sets of two 32-byte lines. */
  function DefaultL2Geometry(): (g: Geometry)
    ensures GeometryOk(g)
  {
    assert Log2(32) == 5 && Log2(64) == 6;
    Geometry(4096, 32, 2, 64, 5, 6, 21)
  }

  /** The default configurations are accepted, and the level constructor
      computes the default geometries from them. */
  lemma DefaultGeometriesMade()
    ensures ValidConfig(1024, 32, 1) && ValidConfig(4096, 32, 2)
    ensures DefaultL1Geometry() == MakeGeometry(1024, 32, 1)
    ensures DefaultL2Geometry() == MakeGeometry(4096, 32, 2)
  {
    assert Log2(32) == 5 && Log2(64) == 6;
  }

  /** One request: probe L1; on a miss probe L2, and install into L1 on an
      L2 hit; on a miss in both, install into L2 and then L1. */
  function HierarchyAccess(h: Hierarchy, a: Address): (r: Hierarchy)
    requires HierarchyOk(h)
    ensures HierarchyOk(r)
  {
    var l1 := LevelAccess(h.l1, a);
    if Present(h.l1, a) then
      h.(l1 := l1, totalRequests := h.totalRequests + 1,
         totalAccessCycles := h.totalAccessCycles + h.l1.latency)
    else
      var l2 := LevelAccess(h.l2, a);
      if Present(h.l2, a) then
        h.(l1 := LevelInstall(l1, a), l2 := l2, totalRequests := h.totalRequests + 1,
           totalAccessCycles := h.totalAccessCycles + h.l1.latency + h.l2.latency)
      else
        h.(l1 := LevelInstall(l1, a), l2 := LevelInstall(l2, a), totalRequests := h.totalRequests + 1,
           totalAccessCycles := h.totalAccessCycles + h.l1.latency + h.l2.latency + h.ramLatency)
  }

  /** A request that hits in L1 only counts the hit and the L1 latency. */
  lemma AccessOnL1Hit(h: Hierarchy, a: Address)
    requires HierarchyOk(h) && Present(h.l1, a)
    ensures HierarchyAccess(h, a)
         == Hierarchy(LevelAccess(h.l1, a), h.l2, h.ramLatency,
                      h.totalAccessCycles + h.l1.latency, h.totalRequests + 1)
  {
  }

  /** A request that misses in L1 installs the line in L1; L2 is probed and,
      on a miss there too, filled as well, at the cost of RAM. */
  lemma AccessOnL1Miss(h: Hierarchy, a: Address)
    requires HierarchyOk(h) && !Present(h.l1, a)
    ensures HierarchyAccess(h, a)
         == Hierarchy(LevelInstall(LevelAccess(h.l1, a), a),
                      if Present(h.l2, a) then LevelAccess(h.l2, a)
                      else LevelInstall(LevelAccess(h.l2, a), a),
                      h.ramLatency,
                      h.totalAccessCycles + h.l1.latency + h.l2.latency
                        + (if Present(h.l2, a) then 0 else h.ramLatency),
                      h.totalRequests + 1)
  {
  }

  /** What a request costs and which counters it moves: the L1 latency on an
      L1 hit, L1 + L2 on an L2 hit, L1 + L2 + RAM on a miss in both. */
  lemma AccessCost(h: Hierarchy, a: Address)
    requires HierarchyOk(h)
    ensures var r := HierarchyAccess(h, a);
      && r.totalRequests == h.totalRequests + 1
      && r.ramLatency == h.ramLatency
      && r.l1.latency == h.l1.latency && r.l2.latency == h.l2.latency
      && r.totalAccessCycles == h.totalAccessCycles
           + (if Present(h.l1, a) then h.l1.latency
              else if Present(h.l2, a) then h.l1.latency + h.l2.latency
              else h.l1.latency + h.l2.latency + h.ramLatency)
      && (Present(h.l1, a) ==> r.l1.hits == h.l1.hits + 1 && r.l1.misses == h.l1.misses)
      && (!Present(h.l1, a) ==> r.l1.hits == h.l1.hits && r.l1.misses == h.l1.misses + 1)
      && (Present(h.l1, a) ==> r.l2 == h.l2)
      && (!Present(h.l1, a) && Present(h.l2, a) ==> r.l2.hits == h.l2.hits + 1 && r.l2.misses == h.l2.misses)
      && (!Present(h.l1, a) && !Present(h.l2, a) ==> r.l2.hits == h.l2.hits && r.l2.misses == h.l2.misses + 1)
  {
  }

  /** After a request, the address is in L1. */
  lemma AccessThenInL1(h: Hierarchy, a: Address)
    requires HierarchyOk(h)
    ensures Present(HierarchyAccess(h, a).l1, a)
  {
    if !Present(h.l1, a) {
      InstallThenPresent(LevelAccess(h.l1, a), a);
    }
  }

  /** A repeated request is an L1 hit and costs only the L1 latency. */
  lemma RepeatIsL1Hit(h: Hierarchy, a: Address)
    requires HierarchyOk(h)
    ensures var r := HierarchyAccess(h, a);
      HierarchyAccess(r, a).totalAccessCycles == r.totalAccessCycles + h.l1.latency
  {
    AccessThenInL1(h, a);
    AccessCost(h, a);
    AccessCost(HierarchyAccess(h, a), a);
  }

  /** Each level installs only right after missing on the address, so no set
      ever holds the same tag twice. */
  lemma AccessKeepsNoDuplicates(h: Hierarchy, a: Address)
    requires HierarchyOk(h) && NoDuplicateTags(h.l1) && NoDuplicateTags(h.l2)
    ensures NoDuplicateTags(HierarchyAccess(h, a).l1) && NoDuplicateTags(HierarchyAccess(h, a).l2)
  {
    if !Present(h.l1, a) {
      InstallAbsentKeepsNoDuplicates(LevelAccess(h.l1, a), a);
      if !Present(h.l2, a) {
        InstallAbsentKeepsNoDuplicates(LevelAccess(h.l2, a), a);
      }
    }
  }

  /** The default cache, the same address twice: a miss in both levels
      (1 + 10 + 100 cycles), then an L1 hit (1 cycle): 112 cycles over 2
      requests, 56 cycles on average. */
  lemma DefaultRepeatedAccess(a: Address)
    ensures var r := HierarchyAccess(HierarchyAccess(DefaultHierarchy(), a), a);
      r.totalAccessCycles == 112 && r.totalRequests == 2 && r.totalAccessCycles == 56 * r.totalRequests
  {
    var h := DefaultHierarchy();
    NewLevelEmpty(h.l1.geometry, L1_LATENCY, a);
    NewLevelEmpty(h.l2.geometry, L2_LATENCY, a);
    AccessCost(h, a);
    AccessThenInL1(h, a);
    AccessCost(HierarchyAccess(h, a), a);
  }

  /** Level 1 or 2 is rebuilt cold from the new configuration with its fixed
      latency; any other level number changes nothing. */
  function HierarchyReconfigure(h: Hierarchy, level: int, size: nat, block: nat, assoc: nat): (r: Hierarchy)
    requires HierarchyOk(h)
    requires level == 1 || level == 2 ==> ValidConfig(size, block, assoc)
    ensures HierarchyOk(r)
  {
    if level == 1 then h.(l1 := NewLevel(MakeGeometry(size, block, assoc), L1_LATENCY))
    else if level == 2 then h.(l2 := NewLevel(MakeGeometry(size, block, assoc), L2_LATENCY))
    else h
  }

  /** After reconfiguring a level nothing is present in it and its counters
      are zero, while the other level and the totals are kept. */
  lemma ReconfigureIsCold(h: Hierarchy, level: int, size: nat, block: nat, assoc: nat, a: Address)
    requires HierarchyOk(h)
    requires level == 1 || level == 2 ==> ValidConfig(size, block, assoc)
    ensures var r := HierarchyReconfigure(h, level, size, block, assoc);
      && r.totalAccessCycles == h.totalAccessCycles && r.totalRequests == h.totalRequests
      && r.ramLatency == h.ramLatency
      && (level == 1 ==> r.l1.geometry == MakeGeometry(size, block, assoc))
      && (level == 2 ==> r.l2.geometry == MakeGeometry(size, block, assoc))
      && (level == 1 ==> !Present(r.l1, a) && r.l1.hits == 0 && r.l1.misses == 0
                         && r.l1.latency == L1_LATENCY && r.l2 == h.l2)
      && (level == 2 ==> !Present(r.l2, a) && r.l2.hits == 0 && r.l2.misses == 0
                         && r.l2.latency == L2_LATENCY && r.l1 == h.l1)
      && (level != 1 && level != 2 ==> r == h)
  {
    if level == 1 || level == 2 {
      NewLevelEmpty(MakeGeometry(size, block, assoc), if level == 1 then L1_LATENCY else L2_LATENCY, a);
    }
  }
}
