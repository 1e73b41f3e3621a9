/** The software hypervisor's 4-level EPT and the guest RAM behind it.

    The three upper levels are one table each and leaf tables are keyed by the
    directory index alone, so guest pages of different 1 GiB regions share leaves. */
module SoftwareEpt {
  import opened Bits
  import opened EptFlags
  import opened Options

  const U64: nat := 0x1_0000_0000_0000_0000

  function I4(gpa: nat): nat { gpa / (512 * GIB) % 512 }
  function I3(gpa: nat): nat { gpa / GIB % 512 }
  function I2(gpa: nat): nat { gpa / (512 * PAGE) % 512 }
  function I1(gpa: nat): nat { gpa / PAGE % 512 }

  function PageOf(a: nat): nat {
    a / PAGE * PAGE
  }

  function WalkBits(): nat {
    Or(Or(EPT_READ, EPT_WRITE), EPT_EXECUTE)
  }

  function Pte(hpa: nat): nat {
    Or(Or(PageOf(hpa), WalkBits()), EPT_MEMORY_TYPE_WB)
  }

  lemma PteValue(hpa: nat)
    ensures Pte(hpa) == PageOf(hpa) + 55 && WalkBits() == 7
  {
    assert Or(1, 2) == 3 && Or(3, 4) == 7 && Or(7, 48) == 55;
    assert Pow2(6) == 64;
    OrHigh(PageOf(hpa), 0, 7, 6);
    OrHigh(PageOf(hpa), 7, 48, 6);
  }

  datatype Ept = Ept(pml4: seq<nat>, pdpt: seq<nat>, pd: seq<nat>, pt: map<nat, seq<nat>>)
  {
    ghost predicate Valid() {
      |pml4| == |pdpt| == |pd| == 512 && forall i :: i in pt ==> |pt[i]| == 512
    }
  }

  function ZeroTable(): (t: seq<nat>)
    ensures |t| == 512 && forall i :: 0 <= i < 512 ==> t[i] == 0
  {
    seq(512, _ => 0)
  }

  function NewEpt(): Ept {
    Ept(ZeroTable(), ZeroTable(), ZeroTable(), map[])
  }

  function Leaf(e: Ept, i2: nat): seq<nat> {
    if i2 in e.pt then e.pt[i2] else ZeroTable()
  }

  function Map4k(e: Ept, gpa: nat, hpa: nat): Ept
    requires e.Valid()
  {
    Ept(e.pml4[I4(gpa) := WalkBits()], e.pdpt[I3(gpa) := WalkBits()], e.pd[I2(gpa) := WalkBits()],
        e.pt[I2(gpa) := Leaf(e, I2(gpa))[I1(gpa) := Pte(hpa)]])
  }

  function Walk(e: Ept, gpa: nat): Option<nat>
    requires e.Valid()
  {
    WalkAt(e, I4(gpa), I3(gpa), I2(gpa), I1(gpa), gpa % PAGE)
  }

  function WalkAt(e: Ept, i4: nat, i3: nat, i2: nat, i1: nat, offset: nat): Option<nat>
    requires e.Valid() && i4 < 512 && i3 < 512 && i2 < 512 && i1 < 512
  {
    if e.pml4[i4] % 2 == 0 || e.pdpt[i3] % 2 == 0 || e.pd[i2] % 2 == 0 then None
    else if i2 !in e.pt then None
    else
      var pte := e.pt[i2][i1];
      if pte % 2 == 0 then None else Some(Or(PageOf(pte), offset))
  }

  /** Whatever the tables hold, an address translates exactly when the leaf table is there and each of the four entries
      has its lowest bit, the read right, and then to the frame of the leaf entry and the offset in the page. */
  lemma WalkNeedsRead(e: Ept, gpa: nat)
    requires e.Valid()
    ensures
      var readable := && BitAt(e.pml4[I4(gpa)], 0) && BitAt(e.pdpt[I3(gpa)], 0) && BitAt(e.pd[I2(gpa)], 0)
                      && I2(gpa) in e.pt && BitAt(e.pt[I2(gpa)][I1(gpa)], 0);
      && (Walk(e, gpa).Some? <==> readable)
      && (readable ==> Walk(e, gpa).value == e.pt[I2(gpa)][I1(gpa)] / 4096 * 4096 + gpa % 4096)
  {
    if I2(gpa) in e.pt {
      var pte := e.pt[I2(gpa)][I1(gpa)];
      PageAligned(pte);
      OrDisjoint(PageOf(pte), gpa % PAGE, 12);
    }
  }

  // ---- What a walk returns after any sequence of mappings ----

  datatype Mapping = Mapping(gpa: nat, hpa: nat)

  ghost function Build(h: seq<Mapping>): (e: Ept)
    ensures e.Valid()
  {
    if h == [] then NewEpt()
    else var m := h[|h| - 1]; Map4k(Build(h[..|h| - 1]), m.gpa, m.hpa)
  }

  /** The last mapping whose two low indices are these. */
  function LastAlias(h: seq<Mapping>, i2: nat, i1: nat): Option<Mapping> {
    if h == [] then None
    else if I2(h[|h| - 1].gpa) == i2 && I1(h[|h| - 1].gpa) == i1 then Some(h[|h| - 1])
    else LastAlias(h[..|h| - 1], i2, i1)
  }

  predicate Uses4(h: seq<Mapping>, i: nat) {
    exists k :: 0 <= k < |h| && I4(h[k].gpa) == i
  }

  predicate Uses3(h: seq<Mapping>, i: nat) {
    exists k :: 0 <= k < |h| && I3(h[k].gpa) == i
  }

  /** The tables after h: upper entries record which indices were used, a leaf entry the last mapping that aliases it. */
  ghost predicate Describes(e: Ept, h: seq<Mapping>) {
    && e.Valid()
    && (forall i :: 0 <= i < 512 ==> e.pml4[i] == if Uses4(h, i) then 7 else 0)
    && (forall i :: 0 <= i < 512 ==> e.pdpt[i] == if Uses3(h, i) then 7 else 0)
    && (forall i :: i in e.pt ==> 0 <= i < 512 && e.pd[i] == 7)
    && (forall i2: nat, i1: nat :: i2 < 512 && i1 < 512 ==>
          Leaf(e, i2)[i1] == if LastAlias(h, i2, i1).Some? then PageOf(LastAlias(h, i2, i1).value.hpa) + 55 else 0)
  }

  lemma {:induction false} BuildDescribes(h: seq<Mapping>)
    ensures Describes(Build(h), h)
  {
    if h != [] {
      var h', m := h[..|h| - 1], h[|h| - 1];
      BuildDescribes(h');
      PteValue(m.hpa);
      UsesLast(h);
      var e, e' := Build(h), Build(h');
      forall i2: nat, i1: nat | i2 < 512 && i1 < 512
        ensures Leaf(e, i2)[i1] == if LastAlias(h, i2, i1).Some? then PageOf(LastAlias(h, i2, i1).value.hpa) + 55 else 0
      {
        assert Leaf(e', i2)[i1] == if LastAlias(h', i2, i1).Some? then PageOf(LastAlias(h', i2, i1).value.hpa) + 55 else 0;
      }
    }
  }

  lemma UsesLast(h: seq<Mapping>)
    requires h != []
    ensures forall i :: Uses4(h, i) <==> Uses4(h[..|h| - 1], i) || I4(h[|h| - 1].gpa) == i
    ensures forall i :: Uses3(h, i) <==> Uses3(h[..|h| - 1], i) || I3(h[|h| - 1].gpa) == i
  {
    var h', m := h[..|h| - 1], h[|h| - 1];
    assert forall k :: 0 <= k < |h'| ==> h[k] == h'[k];
    assert m == h[|h| - 1];
  }

  lemma PageOfPte(hpa: nat)
    ensures PageOf(PageOf(hpa) + 55) == PageOf(hpa) && PageOf(PageOf(hpa)) == PageOf(hpa)
  {
    Euclid(PageOf(hpa) + 55, PAGE, hpa / PAGE, 55);
    Euclid(PageOf(hpa), PAGE, hpa / PAGE, 0);
  }

  lemma PteReadable(hpa: nat)
    ensures (PageOf(hpa) + 55) % 2 == 1
  {
    Euclid(PageOf(hpa) + 55, 2, 2048 * (hpa / PAGE) + 27, 1);
  }

  lemma FrameValue(hpa: nat, offset: nat)
    requires offset < PAGE
    ensures Or(PageOf(PageOf(hpa) + 55), offset) == PageOf(hpa) + offset && (PageOf(hpa) + 55) % 2 == 1
  {
    PageOfPte(hpa);
    PteReadable(hpa);
    PageAligned(hpa);
    OrDisjoint(PageOf(hpa), offset, 12);
  }

  lemma PageAligned(hpa: nat)
    ensures PageOf(hpa) % Pow2(12) == 0 && Pow2(12) == PAGE
  {
    assert Pow2(12) == 4096;
    Euclid(PageOf(hpa), PAGE, hpa / PAGE, 0);
  }

  lemma WalkDescribed(e: Ept, h: seq<Mapping>, i4: nat, i3: nat, i2: nat, i1: nat, offset: nat)
    requires Describes(e, h) && i4 < 512 && i3 < 512 && i2 < 512 && i1 < 512 && offset < PAGE
    ensures WalkAt(e, i4, i3, i2, i1, offset) ==
            if Uses4(h, i4) && Uses3(h, i3) && LastAlias(h, i2, i1).Some?
            then Some(PageOf(LastAlias(h, i2, i1).value.hpa) + offset) else None
  {
    assert Leaf(e, i2)[i1] == if LastAlias(h, i2, i1).Some? then PageOf(LastAlias(h, i2, i1).value.hpa) + 55 else 0;
    if LastAlias(h, i2, i1).Some? {
      FrameValue(LastAlias(h, i2, i1).value.hpa, offset);
    }
  }

  /** After any mappings at all, a walk finds the last mapping with the same two low indices, provided each of the
      two upper indices was used by some mapping. */
  lemma WalkExact(h: seq<Mapping>, gpa: nat)
    ensures Walk(Build(h), gpa) ==
            if Uses4(h, I4(gpa)) && Uses3(h, I3(gpa)) && LastAlias(h, I2(gpa), I1(gpa)).Some?
            then Some(PageOf(LastAlias(h, I2(gpa), I1(gpa)).value.hpa) + gpa % PAGE) else None
  {
    BuildDescribes(h);
    WalkDescribed(Build(h), h, I4(gpa), I3(gpa), I2(gpa), I1(gpa), gpa % PAGE);
  }

  // ---- The page map a caller expects ----

  /** The frame last mapped for the page of gpa, plus the offset in the page. */
  function PageMap(h: seq<Mapping>, gpa: nat): Option<nat> {
    if h == [] then None
    else if PageOf(h[|h| - 1].gpa) == PageOf(gpa) then Some(PageOf(h[|h| - 1].hpa) + gpa % PAGE)
    else PageMap(h[..|h| - 1], gpa)
  }

  ghost predicate Confined(h: seq<Mapping>, regions: set<nat>) {
    forall k :: 0 <= k < |h| ==> h[k].gpa / GIB in regions
  }

  lemma SameRegion(a: nat, b: nat)
    requires a / GIB == b / GIB
    ensures I4(a) == I4(b) && I3(a) == I3(b)
    ensures PageOf(a) == PageOf(b) <==> I2(a) == I2(b) && I1(a) == I1(b)
  {
    PageIndices(a);
    PageIndices(b);
    assert a / (512 * GIB) == a / GIB / 512 && b / (512 * GIB) == b / GIB / 512;
  }

  /** A page is its region and its two low indices. */
  lemma PageIndices(a: nat)
    ensures PageOf(a) == a / GIB * GIB + I2(a) * (512 * PAGE) + I1(a) * PAGE
    ensures I2(a) < 512 && I1(a) < 512
  {
    var p := a / PAGE;
    assert a / (512 * PAGE) == p / 512;
    assert a / GIB == p / 512 / 512;
  }

  lemma {:induction false} AliasIsPageMap(h: seq<Mapping>, r: nat, gpa: nat)
    requires Confined(h, {r}) && gpa / GIB == r
    ensures PageMap(h, gpa) == match LastAlias(h, I2(gpa), I1(gpa))
                               case None => None
                               case Some(m) => Some(PageOf(m.hpa) + gpa % PAGE)
    ensures LastAlias(h, I2(gpa), I1(gpa)).Some? ==> Uses4(h, I4(gpa)) && Uses3(h, I3(gpa))
  {
    if h != [] {
      AliasIsPageMap(h[..|h| - 1], r, gpa);
      SameRegion(h[|h| - 1].gpa, gpa);
    }
  }

  /** Every history that stays inside these regions behaves, inside them, like a plain page map. */
  ghost predicate RefinesPageMap(regions: set<nat>) {
    forall h, gpa: nat :: Confined(h, regions) && gpa / GIB in regions ==> Walk(Build(h), gpa) == PageMap(h, gpa)
  }

  lemma OneRegionRefines(h: seq<Mapping>, r: nat, gpa: nat)
    requires Confined(h, {r}) && gpa / GIB == r
    ensures Walk(Build(h), gpa) == PageMap(h, gpa)
  {
    WalkExact(h, gpa);
    AliasIsPageMap(h, r, gpa);
  }

  lemma LowI1(r: nat)
    ensures I1(r * GIB + PAGE) == 1
  {
    Euclid(r * GIB + PAGE, PAGE, r * 0x4_0000 + 1, 0);
    Euclid(r * 0x4_0000 + 1, 512, r * 512, 1);
  }

  lemma LowI2(r: nat)
    ensures I2(r * GIB + PAGE) == 0
  {
    Euclid(r * GIB + PAGE, 512 * PAGE, r * 512, PAGE);
    Euclid(r * 512, 512, r, 0);
  }

  lemma LowPages(r: nat)
    ensures PageOf(r * GIB + PAGE) == r * GIB + PAGE && PageOf(r * GIB) == r * GIB
  {
    Euclid(r * GIB + PAGE, PAGE, r * 0x4_0000 + 1, 0);
    Euclid(r * GIB, PAGE, r * 0x4_0000, 0);
  }

  lemma LowRegion(r: nat)
    ensures (r * GIB + PAGE) / GIB == r && r * GIB / GIB == r
  {
    Euclid(r * GIB + PAGE, GIB, r, PAGE);
    Euclid(r * GIB, GIB, r, 0);
  }

  lemma LowIndices(r: nat)
    ensures I2(r * GIB + PAGE) == 0 && I1(r * GIB + PAGE) == 1
    ensures PageOf(r * GIB + PAGE) == r * GIB + PAGE && PageOf(r * GIB) == r * GIB
    ensures (r * GIB + PAGE) / GIB == r && r * GIB / GIB == r
  {
    LowI1(r);
    LowI2(r);
    LowPages(r);
    LowRegion(r);
  }

  lemma PageMapPair(a: Mapping, b: Mapping, gpa: nat)
    requires PageOf(a.gpa) != PageOf(gpa) && PageOf(b.gpa) != PageOf(gpa)
    ensures PageMap([a, b], gpa) == None
  {
    assert [a, b][..1] == [a] && [a][..0] == [];
    assert PageMap([a], gpa) == PageMap([], gpa);
  }

  /** Mapping page 0 of one region and page 1 of another makes page 1 of the first appear. */
  lemma TwoRegionsClash(r1: nat, r2: nat, hpa: nat) returns (h: seq<Mapping>, gpa: nat)
    requires r1 != r2
    ensures Confined(h, {r1, r2}) && gpa / GIB == r1 && Walk(Build(h), gpa).Some? && PageMap(h, gpa).None?
  {
    var a, b := Mapping(r1 * GIB, hpa), Mapping(r2 * GIB + PAGE, hpa);
    h, gpa := [a, b], r1 * GIB + PAGE;
    LowIndices(r1);
    LowIndices(r2);
    PageMapPair(a, b, gpa);
    assert Uses4(h, I4(gpa)) && Uses3(h, I3(gpa)) by {
      SameRegion(gpa, a.gpa);
      assert I4(h[0].gpa) == I4(gpa) && I3(h[0].gpa) == I3(gpa);
    }
    assert LastAlias(h, 0, 1) == Some(b);
    WalkExact(h, gpa);
  }

  /** The software EPT is a page map on a set of 1 GiB regions exactly when the set has at most one region. */
  lemma RefinesExactly(regions: set<nat>)
    ensures RefinesPageMap(regions) <==> forall r1, r2 :: r1 in regions && r2 in regions ==> r1 == r2
  {
    if r1, r2 :| r1 in regions && r2 in regions && r1 != r2 {
      var h, gpa := TwoRegionsClash(r1, r2, 0);
      assert Confined(h, regions);
    } else {
      forall h, gpa: nat | Confined(h, regions) && gpa / GIB in regions ensures Walk(Build(h), gpa) == PageMap(h, gpa) {
        var r := gpa / GIB;
        assert Confined(h, {r});
        OneRegionRefines(h, r, gpa);
      }
    }
  }

  // ---- Guest RAM behind the EPT ----

  datatype Vm = Vm(ept: Ept, ram: map<nat, nat>)

  function NewVm(): Vm {
    Vm(NewEpt(), map[])
  }

  function FetchGuest(vm: Vm, gpa: nat): Option<nat>
    requires vm.ept.Valid()
  {
    if Walk(vm.ept, gpa).None? then None else if gpa in vm.ram then Some(vm.ram[gpa]) else None
  }

  /** A byte comes back exactly when it is stored and its address walks: RAM behind an unmapped page cannot be fetched. */
  lemma FetchNeedsWalk(vm: Vm, gpa: nat, b: nat)
    requires vm.ept.Valid()
    ensures FetchGuest(vm, gpa) == Some(b) <==> Walk(vm.ept, gpa).Some? && gpa in vm.ram && vm.ram[gpa] == b
  {
  }

  /** Write one byte: map its page unless it is the page mapped first. */
  function StoreByte(vm: Vm, first: nat, addr: nat, b: nat): Vm
    requires vm.ept.Valid()
  {
    Vm(if PageOf(addr) != first then Map4k(vm.ept, PageOf(addr), PageOf(addr)) else vm.ept, vm.ram[addr := b])
  }

  /** The machine after the first n bytes of a write, in 64-bit address arithmetic. */
  ghost function Stored(vm: Vm, gpa: nat, bytes: seq<nat>, n: nat): (r: Vm)
    requires vm.ept.Valid() && n <= |bytes|
    ensures r.ept.Valid()
  {
    if n == 0 then vm.(ept := Map4k(vm.ept, PageOf(gpa), PageOf(gpa)))
    else StoreByte(Stored(vm, gpa, bytes, n - 1), PageOf(gpa), (gpa + n - 1) % U64, bytes[n - 1])
  }

  class EptTables {
    var tables: Ept

    constructor ()
      ensures tables == NewEpt()
    {
      tables := NewEpt();
    }

    method Map(gpa: nat, hpa: nat)
      requires tables.Valid()
      modifies this
      ensures tables == Map4k(old(tables), gpa, hpa)
    {
      var i4, i3, i2, i1 := gpa / (512 * GIB) % 512, gpa / GIB % 512, gpa / (512 * PAGE) % 512, gpa / PAGE % 512;
      var walk := Or(Or(EPT_READ, EPT_WRITE), EPT_EXECUTE);
      var pt := if i2 in tables.pt then tables.pt[i2] else ZeroTable();
      pt := pt[i1 := Or(Or(PageOf(hpa), walk), EPT_MEMORY_TYPE_WB)];
      tables := Ept(tables.pml4[i4 := walk], tables.pdpt[i3 := walk], tables.pd[i2 := walk], tables.pt[i2 := pt]);
    }
  }

  class VirtualMachine {
    const ept: EptTables
    var guestRam: map<nat, nat>

    ghost function View(): Vm
      reads this, ept
    {
      Vm(ept.tables, guestRam)
    }

    constructor ()
      ensures fresh(ept) && View() == NewVm()
    {
      ept := new EptTables();
      guestRam := map[];
    }

    method WriteGuest(gpa: nat, bytes: seq<nat>)
      requires ept.tables.Valid()
      modifies this, ept
      ensures ept.tables.Valid() && View() == Stored(old(View()), gpa, bytes, |bytes|)
    {
      var page := PageOf(gpa);
      ept.Map(page, page);
      for i := 0 to |bytes|
        invariant ept.tables.Valid() && View() == Stored(old(View()), gpa, bytes, i)
      {
        ghost var vm := View();
        WriteByte(page, (gpa + i) % U64, bytes[i]);
        assert View() == StoreByte(vm, page, (gpa + i) % U64, bytes[i]);
        assert (gpa + (i + 1) - 1) % U64 == (gpa + i) % U64;
      }
    }

    method WriteByte(page: nat, addr: nat, b: nat)
      requires ept.tables.Valid()
      modifies this, ept
      ensures ept.tables.Valid() && View() == StoreByte(old(View()), page, addr, b)
    {
      if PageOf(addr) != page {
        ept.Map(PageOf(addr), PageOf(addr));
      }
      guestRam := guestRam[addr := b];
    }
  }

  /** Mapping a page makes it walkable and takes nothing away. */
  lemma MapGrows(e: Ept, gpa: nat, hpa: nat, a: nat)
    requires e.Valid()
    ensures Walk(e, a).Some? ==> Walk(Map4k(e, gpa, hpa), a).Some?
    ensures PageOf(a) == PageOf(gpa) ==> Walk(Map4k(e, gpa, hpa), a).Some?
  {
    PteValue(hpa);
    if PageOf(a) == PageOf(gpa) {
      assert a / PAGE == gpa / PAGE;
      assert a / GIB == a / PAGE / 512 / 512 && gpa / GIB == gpa / PAGE / 512 / 512;
      SameRegion(a, gpa);
    }
  }

  ghost predicate RamWalkable(vm: Vm) {
    vm.ept.Valid() && forall a :: a in vm.ram ==> Walk(vm.ept, a).Some?
  }

  datatype Write = Write(gpa: nat, bytes: seq<nat>)

  predicate WriteOk(w: Write) {
    w.gpa < 0x1_0000_0000_0000_0000 && |w.bytes| <= 0x1_0000_0000_0000_0000
  }

  /** The offset of address a in a write that starts at gpa, wrapping at 2^64. */
  function Offset(gpa: nat, a: nat): nat
  {
    (a - gpa) % 0x1_0000_0000_0000_0000
  }

  lemma StoreStarts(vm: Vm, gpa: nat)
    requires RamWalkable(vm)
    ensures var vm' := vm.(ept := Map4k(vm.ept, PageOf(gpa), PageOf(gpa)));
            RamWalkable(vm') && Walk(vm'.ept, gpa).Some?
  {
    var first := PageOf(gpa);
    PageOfPte(gpa);
    MapGrowsAll(vm.ept, first);
    MapGrows(vm.ept, first, first, gpa);
  }

  lemma {:induction false} StoredWalkable(vm: Vm, w: Write, n: nat)
    requires RamWalkable(vm) && n <= |w.bytes|
    ensures RamWalkable(Stored(vm, w.gpa, w.bytes, n)) && Walk(Stored(vm, w.gpa, w.bytes, n).ept, w.gpa).Some?
  {
    if n == 0 {
      StoreStarts(vm, w.gpa);
    } else {
      StoredWalkable(vm, w, n - 1);
      StoreKeeps(Stored(vm, w.gpa, w.bytes, n - 1), w.gpa, (w.gpa + n - 1) % U64, w.bytes[n - 1]);
    }
  }

  lemma {:induction false} StoredBytes(vm: Vm, w: Write, n: nat, a: nat)
    requires vm.ept.Valid() && WriteOk(w) && n <= |w.bytes| && a < U64
    ensures var ram := Stored(vm, w.gpa, w.bytes, n).ram;
            if Offset(w.gpa, a) < n then a in ram && ram[a] == w.bytes[Offset(w.gpa, a)]
            else (a in ram <==> a in vm.ram) && (a in ram ==> ram[a] == vm.ram[a])
  {
    if n > 0 {
      StoredBytes(vm, w, n - 1, a);
      OffsetUnique(w.gpa, n - 1, a);
    }
  }

  lemma OffsetUnique(gpa: nat, i: nat, a: nat)
    requires i < U64 && a < U64 && gpa < U64
    ensures (gpa + i) % U64 == a <==> Offset(gpa, a) == i
  {
  }

  lemma StoreKeeps(vm: Vm, gpa: nat, addr: nat, b: nat)
    requires RamWalkable(vm) && Walk(vm.ept, gpa).Some?
    ensures RamWalkable(StoreByte(vm, PageOf(gpa), addr, b)) && Walk(StoreByte(vm, PageOf(gpa), addr, b).ept, gpa).Some?
  {
    var p := PageOf(addr);
    PageOfPte(addr);
    if p == PageOf(gpa) {
      SamePageWalks(vm.ept, gpa, addr);
    } else {
      MapGrows(vm.ept, p, p, gpa);
      MapGrows(vm.ept, p, p, addr);
      MapGrowsAll(vm.ept, p);
    }
  }

  lemma MapGrowsAll(e: Ept, p: nat)
    requires e.Valid()
    ensures forall a :: Walk(e, a).Some? ==> Walk(Map4k(e, p, p), a).Some?
  {
    forall a: nat ensures Walk(e, a).Some? ==> Walk(Map4k(e, p, p), a).Some? {
      MapGrows(e, p, p, a);
    }
  }

  lemma SamePageWalks(e: Ept, a: nat, b: nat)
    requires e.Valid() && PageOf(a) == PageOf(b)
    ensures Walk(e, a).Some? <==> Walk(e, b).Some?
  {
    assert a / PAGE == b / PAGE;
    assert a / GIB == a / PAGE / 512 / 512 && b / GIB == b / PAGE / 512 / 512;
    SameRegion(a, b);
  }

  ghost function AfterWrites(ws: seq<Write>): (vm: Vm)
    ensures vm.ept.Valid()
  {
    if ws == [] then NewVm()
    else var w := ws[|ws| - 1]; Stored(AfterWrites(ws[..|ws| - 1]), w.gpa, w.bytes, |w.bytes|)
  }

  /** The byte the latest covering write put at address a. */
  function LastWritten(ws: seq<Write>, a: nat): Option<nat> {
    if ws == [] then None
    else
      var w := ws[|ws| - 1];
      if Offset(w.gpa, a) < |w.bytes| then Some(w.bytes[Offset(w.gpa, a)]) else LastWritten(ws[..|ws| - 1], a)
  }

  lemma {:induction false} WritesInv(ws: seq<Write>, a: nat)
    requires (forall k :: 0 <= k < |ws| ==> WriteOk(ws[k])) && a < 0x1_0000_0000_0000_0000
    ensures RamWalkable(AfterWrites(ws))
    ensures LastWritten(ws, a) == if a in AfterWrites(ws).ram then Some(AfterWrites(ws).ram[a]) else None
  {
    if ws != [] {
      WritesInv(ws[..|ws| - 1], a);
      var w := ws[|ws| - 1];
      StoredWalkable(AfterWrites(ws[..|ws| - 1]), w, |w.bytes|);
      StoredBytes(AfterWrites(ws[..|ws| - 1]), w, |w.bytes|, a);
    }
  }

  /** After any writes, anywhere, fetching an address returns the byte last written there, or nothing. */
  lemma FetchReturnsLastWritten(ws: seq<Write>, a: nat)
    requires (forall k :: 0 <= k < |ws| ==> WriteOk(ws[k])) && a < 0x1_0000_0000_0000_0000
    ensures FetchGuest(AfterWrites(ws), a) == LastWritten(ws, a)
  {
    WritesInv(ws, a);
  }
}
