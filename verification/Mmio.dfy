/**
 The table of memory-mapped devices (src/device/mmio.c, include/device/map.h). An address
 belongs to at most one region whatever was registered; AdmitAllIff and PmemIsFreeIff say
 which regions the registration accepts and when none of them hides under physical memory.
 */
module Mmio {
  import opened Words
  import opened Memory

  const NR_MAP: nat := 16

  /** IOMap, without the device behind it. Both ends belong to the region. */
  datatype Region = Region(name: string, low: Word, high: Word)

  /** The region add_mmio_map makes of its arguments; the last address may wrap around. */
  function RegionOf(name: string, addr: Word, len: Word): Region {
    Region(name, addr, Sub(Add(addr, len), 1))
  }

  /** map_inside. */
  predicate Inside(r: Region, a: Word) {
    r.low <= a <= r.high
  }

  /** A region that does not wrap around holds exactly the len addresses from addr on. */
  lemma InsideIff(name: string, addr: Word, len: Word, a: Word)
    requires 1 <= len && addr + len <= 0x1_0000_0000
    ensures Inside(RegionOf(name, addr, len), a) <==> addr <= a < addr + len
    ensures RegionOf(name, addr, len).name == name
  {
  }

  /** The overlap test of add_mmio_map. */
  predicate Clash(r: Region, q: Region) {
    r.low <= q.high && r.high >= q.low
  }

  predicate EndsInPmem(r: Region) {
    InPmem(r.low) || InPmem(r.high)
  }

  predicate Accepts(maps: seq<Region>, r: Region) {
    |maps| < NR_MAP && !EndsInPmem(r) && forall i :: 0 <= i < |maps| ==> !Clash(r, maps[i])
  }

  /** No address lies in two regions. */
  ghost predicate Apart(maps: seq<Region>) {
    forall i, j, a: Word :: 0 <= i < j < |maps| && Inside(maps[i], a) ==> !Inside(maps[j], a)
  }

  class Table {
    const maps: array<Region>
    var nr_map: nat

    ghost predicate Valid()
      reads this, maps
    {
      maps.Length == NR_MAP && nr_map <= NR_MAP && Apart(maps[..nr_map])
    }

    constructor ()
      ensures Valid() && nr_map == 0 && fresh(maps)
    {
      maps := new Region[NR_MAP](_ => Region("", 0, 0));
      nr_map := 0;
    }

    /** add_mmio_map; ok is false where the source panics. */
    method AddMmioMap(name: string, addr: Word, len: Word) returns (ok: bool)
      requires Valid()
      modifies this`nr_map, maps
      ensures Valid()
      ensures ok == Accepts(old(maps[..nr_map]), RegionOf(name, addr, len))
      ensures maps[..nr_map] == old(maps[..nr_map]) + if ok then [RegionOf(name, addr, len)] else []
    {
      if nr_map == NR_MAP { return false; }
      var r := RegionOf(name, addr, len);
      if InPmem(r.low) || InPmem(r.high) { return false; }
      for i := 0 to nr_map
        invariant forall j :: 0 <= j < i ==> !Clash(r, maps[j])
      {
        if r.low <= maps[i].high && r.high >= maps[i].low {
          assert Clash(r, maps[..nr_map][i]);
          return false;
        }
      }
      AcceptedApart(maps[..nr_map], r);
      ghost var before := maps[..nr_map];
      maps[nr_map] := r;
      nr_map := nr_map + 1;
      assert maps[..nr_map] == before + [r];
      ok := true;
    }

    /** find_mapid_by_addr: the only region with the address, or -1 if there is none. */
    method FindMapidByAddr(a: Word) returns (id: int)
      requires Valid()
      ensures -1 <= id < nr_map
      ensures forall j :: 0 <= j < nr_map ==> (Inside(maps[j], a) <==> j == id)
    {
      for i := 0 to nr_map
        invariant forall j :: 0 <= j < i ==> !Inside(maps[j], a)
      {
        if Inside(maps[i], a) {
          forall j | i < j < nr_map ensures !Inside(maps[j], a) {
            assert Inside(maps[..nr_map][i], a) && maps[..nr_map][j] == maps[j];
          }
          return i;
        }
      }
      return -1;
    }

    /** fetch_mmio_map, with None for a null pointer. */
    method FetchMmioMap(a: Word) returns (r: Option<Region>)
      requires Valid()
      ensures match r
        case Some(m) => m in maps[..nr_map] && Inside(m, a)
        case None => forall j :: 0 <= j < nr_map ==> !Inside(maps[j], a)
    {
      var id := FindMapidByAddr(a);
      if id == -1 { return None; }
      assert maps[id] == maps[..nr_map][id];
      return Some(maps[id]);
    }
  }

  /** An accepted region shares no address with those before it, even if one of them wraps around. */
  lemma AcceptedApart(maps: seq<Region>, r: Region)
    requires Apart(maps) && forall i :: 0 <= i < |maps| ==> !Clash(r, maps[i])
    ensures Apart(maps + [r])
  {
    var all := maps + [r];
    forall i, j, a: Word | 0 <= i < j < |all| && Inside(all[i], a) ensures !Inside(all[j], a) {
      assert all[i] == maps[i];
      if j == |maps| { assert !Clash(r, maps[i]); }
    }
  }

  // ---------------------------------------------------------------------------
  // What is accepted.

  /** A sequence of registrations; None once one is refused. */
  function AdmitAll(rs: seq<Region>): Option<seq<Region>>
    decreases |rs|
  {
    if rs == [] then Some([])
    else
      var n := |rs| - 1;
      match AdmitAll(rs[..n])
      case None => None
      case Some(maps) => if Accepts(maps, rs[n]) then Some(maps + [rs[n]]) else None
  }

  /** The overlap test is exact for two regions that do not wrap around. */
  lemma ClashIff(r: Region, q: Region)
    requires r.low <= r.high && q.low <= q.high
    ensures Clash(r, q) <==> exists a: Word :: Inside(r, a) && Inside(q, a)
  {
    var a: Word := if r.low < q.low then q.low else r.low;
    if Clash(r, q) { assert Inside(r, a) && Inside(q, a); }
  }

  /** Otherwise it may refuse a region that shares no address with the other. */
  lemma WrappedClash()
    ensures var (r, q) := (RegionOf("r", 8, 0xffff_ffff), RegionOf("q", 2, 8));
      Clash(r, q) && forall a: Word :: !(Inside(r, a) && Inside(q, a))
  {
  }

  predicate Proper(rs: seq<Region>) {
    forall i :: 0 <= i < |rs| ==> rs[i].low <= rs[i].high
  }

  /**
   Regions that do not wrap around are all accepted exactly if there are at most 16, no two
   share an address and none begins or ends in physical memory.
   */
  lemma {:induction false} AdmitAllIff(rs: seq<Region>)
    requires Proper(rs)
    ensures AdmitAll(rs) == None || AdmitAll(rs) == Some(rs)
    ensures AdmitAll(rs).Some? <==> |rs| <= 16 && Apart(rs) && forall i :: 0 <= i < |rs| ==> !EndsInPmem(rs[i])
    decreases |rs|
  {
    if rs != [] {
      var n := |rs| - 1;
      var init, r := rs[..n], rs[n];
      assert rs == init + [r];
      AdmitAllIff(init);
      forall i | 0 <= i < n ensures Clash(r, init[i]) <==> exists a: Word :: Inside(r, a) && Inside(init[i], a) {
        ClashIff(r, init[i]);
      }
      if AdmitAll(rs).Some? { AcceptedApart(init, r); }
      if Apart(rs) { ApartInit(rs); }
    }
  }

  lemma ApartInit(rs: seq<Region>)
    requires rs != [] && Apart(rs)
    ensures Apart(rs[..|rs| - 1])
    ensures forall i, a: Word :: 0 <= i < |rs| - 1 && Inside(rs[|rs| - 1], a) ==> !Inside(rs[i], a)
  {
    var init := rs[..|rs| - 1];
    forall i, j, a: Word | 0 <= i < j < |init| && Inside(init[i], a) ensures !Inside(init[j], a) {
      assert Inside(rs[i], a) && init[j] == rs[j];
    }
  }

  // ---------------------------------------------------------------------------
  // Physical memory. add_mmio_map tests only the two ends of a region against it.

  /** An accepted region meets physical memory exactly if it begins before it and ends behind it. */
  lemma PmemIsFreeIff(r: Region)
    requires !EndsInPmem(r)
    ensures (forall a: Word :: InPmem(a) ==> !Inside(r, a)) <==> !(r.low < MBASE && MBASE + MSIZE <= r.high)
  {
    if r.low < MBASE && MBASE + MSIZE <= r.high {
      assert InPmem(MBASE) && Inside(r, MBASE);
    }
  }

  /** A region no longer than physical memory and one byte, without wrap-around, cannot. */
  lemma ShortRegionsAvoidPmem(name: string, addr: Word, len: Word, a: Word)
    requires 1 <= len <= MSIZE + 1 && addr + len <= TWO_32 && !EndsInPmem(RegionOf(name, addr, len)) && InPmem(a)
    ensures !Inside(RegionOf(name, addr, len), a)
  {
    PmemIsFreeIff(RegionOf(name, addr, len));
  }

  /** One byte more is accepted although it covers all of it, and so is the empty region at 0. */
  lemma LongRegionsCoverPmem(a: Word)
    requires InPmem(a)
    ensures Accepts([], RegionOf("", MBASE - 1, MSIZE + 2)) && Inside(RegionOf("", MBASE - 1, MSIZE + 2), a)
    ensures Accepts([], RegionOf("", 0, 0)) && Inside(RegionOf("", 0, 0), a)
  {
  }
}
