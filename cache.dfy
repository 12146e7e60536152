/** A cache level: its lines in a numSets x associativity array and one
    FIFO cursor per set. Each method is proved against its function in
    CacheSpec. */
module CacheLevels {
  import opened Bits
  import opened CacheSpec

  class CacheLevel {
    const capacityBytes: nat
    const blockSize: nat
    const associativity: nat
    const numSets: nat
    const latencyCycles: nat
    const offsetBits: nat
    const indexBits: nat
    const tagBits: nat
    const sets: array2<CacheLine>
    const fifoNextVictim: array<nat>
    var hits: nat
    var misses: nat

    function Geom(): Geometry
    {
      Geometry(capacityBytes, blockSize, associativity, numSets, offsetBits, indexBits, tagBits)
    }

    /** The level as a value; Valid ties it to the arrays and counters. */
    ghost var model: Level

    /** The arrays have the shape the geometry gives and hold, line by line
        and cursor by cursor, what the model says. */
    ghost predicate Valid()
      reads this, sets, fifoNextVictim
    {
      && LevelOk(model)
      && model.geometry == Geom() && model.latency == latencyCycles
      && model.hits == hits && model.misses == misses
      && sets.Length0 == numSets && sets.Length1 == associativity
      && fifoNextVictim.Length == numSets
      && (forall s, w :: 0 <= s < numSets && 0 <= w < associativity ==> sets[s, w] == model.sets[s][w])
      && (forall s :: 0 <= s < numSets ==> fifoNextVictim[s] == model.fifoNextVictim[s])
    }

    /** The shifting loop of log2_int: halve until the next halving would
        reach zero, counting the halvings. */
    static method Log2Int(n: nat) returns (r: nat)
      ensures r == Log2(n)
      ensures n >= 1 ==> Pow2(r) <= n < Pow2(r + 1)
    {
      var x := n;
      r := 0;
      while x / 2 != 0
        invariant r + Log2(x) == Log2(n)
        decreases x
      {
        x := x / 2;
        r := r + 1;
      }
      if n >= 1 {
        Log2Bounds(n);
      }
    }

    /** Lines invalid with tag 0, cursors at way 0, no hits or misses. */
    constructor (size: nat, blkSize: nat, assoc: nat, latency: nat)
      requires ValidConfig(size, blkSize, assoc)
      ensures Valid() && fresh(sets) && fresh(fifoNextVictim)
      ensures model == NewLevel(MakeGeometry(size, blkSize, assoc), latency)
    {
      capacityBytes := size;
      blockSize := blkSize;
      associativity := assoc;
      latencyCycles := latency;
      hits := 0;
      misses := 0;
      var n := size / (blkSize * assoc);
      numSets := n;
      sets := new CacheLine[n, assoc]((_, _) => CacheLine(0, false));
      fifoNextVictim := new nat[n](_ => 0);
      var ob := Log2Int(blkSize);
      var ib := Log2Int(n);
      offsetBits := ob;
      indexBits := ib;
      tagBits := ADDRESS_BITS - ib - ob;
      MakeGeometryFields(size, blkSize, assoc, n, ob, ib);
      model := NewLevel(Geometry(size, blkSize, assoc, n, ob, ib, ADDRESS_BITS - ib - ob), latency);
    }

    /** A tag probe of the address's set; counts a hit or a miss. */
    method Access(address: Address) returns (hit: bool)
      requires Valid()
      modifies this`hits, this`misses, this`model
      ensures Valid()
      ensures hit == Present(old(model), address)
      ensures model == LevelAccess(old(model), address)
    {
      var index := SetIndex(Geom(), address);
      var tag := Tag(Geom(), address);
      for way := 0 to associativity
        invariant forall w :: 0 <= w < way ==> !(sets[index, w].valid && sets[index, w].tag == tag)
      {
        if sets[index, way].valid && sets[index, way].tag == tag {
          hits := hits + 1;
          model := LevelAccess(model, address);
          return true;
        }
      }
      misses := misses + 1;
      model := LevelAccess(model, address);
      return false;
    }

    /** Writes the address's tag, valid, into the way under the set's FIFO
        cursor and advances the cursor. */
    method Install(address: Address)
      requires Valid()
      modifies this`model, sets, fifoNextVictim
      ensures Valid()
      ensures model == LevelInstall(old(model), address)
    {
      var index := SetIndex(Geom(), address);
      var tag := Tag(Geom(), address);
      var way := fifoNextVictim[index];
      sets[index, way] := sets[index, way].(valid := true);
      sets[index, way] := sets[index, way].(tag := tag);
      fifoNextVictim[index] := (way + 1) % associativity;
      model := LevelInstall(model, address);
    }
  }

  /** The two-way level of 64 bytes: after installing 0x00, 0x20 and 0x40,
      0x00 has been evicted and 0x20 is still held. */
  method FifoEviction() returns (hitFirst: bool, hitSecond: bool)
    ensures !hitFirst && hitSecond
  {
    var level := new CacheLevel(64, 32, 2, 1);
    ghost var l0 := level.model;
    level.Install(0x00);
    level.Install(0x20);
    level.Install(0x40);
    FifoEvictionExample();
    TwoWayGeometryIsMade();
    InstallAllThree(l0, 0x00, 0x20, 0x40);
    hitFirst := level.Access(0x00);
    hitSecond := level.Access(0x20);
  }
}

/** The two-level cache: an L1 and an L2 level and the cycle and request
    totals, proved against the hierarchy functions of CacheSpec. */
module CacheSim {
  import opened Bits
  import opened CacheSpec
  import opened CacheLevels

  class Cache {
    var l1: CacheLevel
    var l2: CacheLevel
    const ramLatency: nat
    var totalAccessCycles: nat
    var totalRequests: nat

    /** The two levels are distinct objects with distinct storage. */
    ghost predicate Valid()
      reads this, l1, l2, l1.sets, l1.fifoNextVictim, l2.sets, l2.fifoNextVictim
    {
      && l1 != l2 && l1.sets != l2.sets && l1.fifoNextVictim != l2.fifoNextVictim
      && l1.Valid() && l2.Valid()
    }

    ghost function Value(): Hierarchy
      reads this, l1, l2
    {
      Hierarchy(l1.model, l2.model, ramLatency, totalAccessCycles, totalRequests)
    }

    constructor ()
      ensures Valid() && Value() == DefaultHierarchy()
      ensures fresh(l1) && fresh(l1.sets) && fresh(l1.fifoNextVictim)
      ensures fresh(l2) && fresh(l2.sets) && fresh(l2.fifoNextVictim)
    {
      totalAccessCycles := 0;
      totalRequests := 0;
      DefaultGeometriesMade();
      l1 := new CacheLevel(1024, 32, 1, L1_LATENCY);
      l2 := new CacheLevel(4096, 32, 2, L2_LATENCY);
      ramLatency := RAM_LATENCY;
    }

    /** Levels 1 and 2 are rebuilt from the new configuration with their
        fixed latencies; any other level number is ignored. */
    method Reconfigure(level: int, size: nat, block: nat, assoc: nat)
      requires Valid()
      requires level == 1 || level == 2 ==> ValidConfig(size, block, assoc)
      modifies this
      ensures Valid()
      ensures Value() == HierarchyReconfigure(old(Value()), level, size, block, assoc)
    {
      if level == 1 {
        l1 := new CacheLevel(size, block, assoc, L1_LATENCY);
      } else if level == 2 {
        l2 := new CacheLevel(size, block, assoc, L2_LATENCY);
      }
    }

    /** One request through L1, L2 and RAM; the write flag has no effect. */
    method Access(address: Address, isWrite: bool)
      requires Valid()
      modifies this`totalRequests, this`totalAccessCycles
      modifies l1, l2, l1.sets, l1.fifoNextVictim, l2.sets, l2.fifoNextVictim
      ensures Valid()
      ensures Value() == HierarchyAccess(old(Value()), address)
    {
      ghost var h := Value();
      totalRequests := totalRequests + 1;
      var currentRequestCycles := 0;

      currentRequestCycles := currentRequestCycles + l1.latencyCycles;
      var hit1 := l1.Access(address);
      if hit1 {
        AccessOnL1Hit(h, address);
        totalAccessCycles := totalAccessCycles + currentRequestCycles;
        return;
      }
      AccessOnL1Miss(h, address);
      var lowerCycles := AfterL1Miss(l1, l2, ramLatency, address);
      currentRequestCycles := currentRequestCycles + lowerCycles;
      totalAccessCycles := totalAccessCycles + currentRequestCycles;
    }
  }

  /** After an L1 miss: the L2 probe, then the fills. An L2 hit installs
      the line in L1; a miss in L2 too installs it in L2, then in L1. */
  method AfterL1Miss(l1: CacheLevel, l2: CacheLevel, ramLatency: nat, address: Address) returns (cycles: nat)
    requires l1 != l2 && l1.sets != l2.sets && l1.fifoNextVictim != l2.fifoNextVictim
    requires l1.Valid() && l2.Valid()
    modifies l1`model, l1.sets, l1.fifoNextVictim
    modifies l2`hits, l2`misses, l2`model, l2.sets, l2.fifoNextVictim
    ensures l1.Valid() && l2.Valid()
    ensures cycles == l2.latencyCycles + (if Present(old(l2.model), address) then 0 else ramLatency)
    ensures l1.model == LevelInstall(old(l1.model), address)
    ensures l2.model == if Present(old(l2.model), address) then LevelAccess(old(l2.model), address)
                        else LevelInstall(LevelAccess(old(l2.model), address), address)
  {
    cycles := l2.latencyCycles;
    var hit2 := l2.Access(address);
    if hit2 {
      l1.Install(address);
      return;
    }
    cycles := cycles + ramLatency;
    l2.Install(address);
    l1.Install(address);
  }

  /** The default cache asked for the same address twice spends 112 cycles
      on 2 requests. */
  method DefaultRepeated(address: Address) returns (cycles: nat, requests: nat)
    ensures cycles == 112 && requests == 2
  {
    var cache := new Cache();
    cache.Access(address, false);
    cache.Access(address, true);
    DefaultRepeatedAccess(address);
    cycles, requests := cache.totalAccessCycles, cache.totalRequests;
  }
}
