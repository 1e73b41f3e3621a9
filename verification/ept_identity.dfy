/** Building the hardware EPT that identity-maps guest memory with 2 MiB pages, and the
    processor's walk of it (EPT translation mechanism, section 28.2.2 of Intel SDM Vol. 3C).

    Physical memory is a map from 8-byte-aligned addresses to 64-bit words; a word that is
    not in the map reads as zero. */
module EptIdentity {
  import opened Bits
  import opened EptFlags

  const MIB2: nat := 0x20_0000
  const U64: nat := 0x1_0000_0000_0000_0000
  const POOL_START: nat := 0x0100_0000
  const GUEST_LIMIT: nat := 0x1_0000_0000_0000    // 2^48, what a 4-level walk translates
  const PHYS_LIMIT: nat := 0x10_0000_0000_0000    // 2^52, the widest physical address

  // ---- The processor's side ----

  type Memory = map<nat, nat>

  /** The i-th 64-bit entry of the table at base. */
  function Entry(mem: Memory, base: nat, i: nat): nat {
    var a := base + 8 * i;
    if a in mem then mem[a] else 0
  }

  datatype Rights = Rights(r: bool, w: bool, x: bool)

  /** The low byte of an entry: rights in bits 2:0, memory type in 5:3, large page in 7. */
  function Flags(e: nat): nat {
    e % 256
  }

  function RightsOf(e: nat): Rights {
    var f := Flags(e);
    Rights(f % 2 == 1, f / 2 % 2 == 1, f / 4 % 2 == 1)
  }

  function Meet(a: Rights, b: Rights): Rights {
    Rights(a.r && b.r, a.w && b.w, a.x && b.x)
  }

  const FULL_RIGHTS := Rights(true, true, true)

  datatype Walk = NotPresent | Misconfigured | Mapped(hpa: nat, rights: Rights, memoryType: nat)

  predicate Present(e: nat) {
    Flags(e) % 8 != 0
  }

  predicate Large(e: nat) {
    Flags(e) / EPT_LARGE_PAGE == 1
  }

  /** Writable but not readable, or a reserved bit set in an entry that references a table. */
  predicate BadTableEntry(e: nat) {
    (RightsOf(e).w && !RightsOf(e).r) || Flags(e) / 8 % 16 != 0
  }

  function MemoryType(e: nat): nat {
    Flags(e) / 8 % 8
  }

  /** Writable but not readable, an unsupported memory type, or a misaligned large frame. */
  predicate BadLeaf(e: nat, size: nat)
    requires size > 0
  {
    (RightsOf(e).w && !RightsOf(e).r) || MemoryType(e) in {2, 3, 7} || Frame(e, PAGE) % size != 0
  }

  /** Bits 51 and down of the entry, cut to a multiple of size. */
  function Frame(e: nat, size: nat): nat
    requires size > 0
  {
    e % PHYS_LIMIT / size * size
  }

  function Leaf(e: nat, size: nat, gpa: nat, above: Rights): Walk
    requires size > 0
  {
    if BadLeaf(e, size) then Misconfigured
    else Mapped(Frame(e, size) + gpa % size, Meet(above, RightsOf(e)), MemoryType(e))
  }

  function WalkPt(mem: Memory, pt: nat, gpa: nat, above: Rights): Walk {
    var e := Entry(mem, pt, gpa / PAGE % 512);
    if !Present(e) then NotPresent else Leaf(e, PAGE, gpa, above)
  }

  function WalkPd(mem: Memory, pd: nat, gpa: nat, above: Rights): Walk {
    var e := Entry(mem, pd, gpa / MIB2 % 512);
    if !Present(e) then NotPresent
    else if Large(e) then Leaf(e, MIB2, gpa, above)
    else if BadTableEntry(e) then Misconfigured
    else WalkPt(mem, Frame(e, PAGE), gpa, Meet(above, RightsOf(e)))
  }

  function WalkPdpt(mem: Memory, pdpt: nat, gpa: nat, above: Rights): Walk {
    var e := Entry(mem, pdpt, gpa / GIB % 512);
    if !Present(e) then NotPresent
    else if Large(e) then Leaf(e, GIB, gpa, above)
    else if BadTableEntry(e) then Misconfigured
    else WalkPd(mem, Frame(e, PAGE), gpa, Meet(above, RightsOf(e)))
  }

  /** The 4-level walk of a guest-physical address below 2^48. */
  function WalkPml4(mem: Memory, pml4: nat, gpa: nat): Walk {
    var e := Entry(mem, pml4, gpa / (512 * GIB) % 512);
    if !Present(e) then NotPresent
    else if Large(e) || BadTableEntry(e) then Misconfigured
    else WalkPdpt(mem, Frame(e, PAGE), gpa, RightsOf(e))
  }

  // ---- What the tables must say ----

  function Pages2M(memoryMb: nat): nat {
    (memoryMb + 1) / 2
  }

  function Directories(memoryMb: nat): nat {
    (Pages2M(memoryMb) + 511) / 512
  }

  /** Every guest address below the memory size, rounded up to 2 MiB, maps to itself with full rights
      and write-back caching, and every other address is not present. */
  ghost predicate IdentityMapped(mem: Memory, pml4: nat, memoryMb: nat) {
    forall gpa: nat :: gpa < GUEST_LIMIT ==>
      WalkPml4(mem, pml4, gpa) == if gpa < Pages2M(memoryMb) * MIB2 then Mapped(gpa, FULL_RIGHTS, 6) else NotPresent
  }

  function TableEntry(phys: nat): nat {
    Or(Or(Or(phys, EPT_READ), EPT_WRITE), EPT_EXECUTE)
  }

  /** The page's address as a 64-bit product. */
  function Wrapped(page: nat): (a: nat)
    ensures page < 0x80_0000_0000 ==> a == page * MIB2
  {
    page * 2 * 1024 * 1024 % U64
  }

  lemma WrappedAligned(page: nat)
    ensures Wrapped(page) % 256 == 0
  {
    var q := page * MIB2 / U64;
    Euclid(Wrapped(page), 256, 8192 * page - U64 / 256 * q, 0);
  }

  function LeafEntry(page: nat): nat {
    Or(Or(Or(Or(Or(Wrapped(page), EPT_READ), EPT_WRITE), EPT_EXECUTE), EPT_MEMORY_TYPE_WB), EPT_LARGE_PAGE)
  }

  lemma TableEntryValue(phys: nat)
    requires phys % PAGE == 0
    ensures TableEntry(phys) == phys + 7
  {
    assert Pow2(3) == 8;
    OrHigh(phys, 0, 1, 3);
    OrHigh(phys, 1, 2, 3);
    OrHigh(phys, 3, 4, 3);
    assert Or(1, 2) == 3 && Or(3, 4) == 7;
  }

  lemma LeafFlags()
    ensures Or(0, 1) == 1 && Or(1, 2) == 3 && Or(3, 4) == 7 && Or(7, 48) == 55 && Or(55, 128) == 183
  {
  }

  lemma LeafEntryValue(page: nat)
    ensures LeafEntry(page) == Wrapped(page) + 183
  {
    var a := Wrapped(page);
    WrappedAligned(page);
    assert Pow2(8) == 256;
    OrHigh(a, 0, 1, 8);
    OrHigh(a, 1, 2, 8);
    OrHigh(a, 3, 4, 8);
    OrHigh(a, 7, 48, 8);
    OrHigh(a, 55, 128, 8);
    LeafFlags();
  }

  /** The k-th page directory of the tables rooted at p: the allocator hands pages out in order. */
  function Pd(p: nat, k: nat): nat {
    p + 2 * PAGE + PAGE * k
  }

  /** The table at pdpt links the first k page directories and nothing else. */
  ghost predicate Links(mem: Memory, pdpt: nat, p: nat, k: nat) {
    forall i: nat :: i < 512 ==> Entry(mem, pdpt, i) == if i < k then Pd(p, i) + 7 else 0
  }

  /** The first k page directories of n large pages are in place under root p, and nothing else is. */
  ghost predicate Tables(mem: Memory, p: nat, k: nat, n: nat) {
    && Entry(mem, p, 0) == p + PAGE + 7
    && (forall i: nat :: 1 <= i < 512 ==> Entry(mem, p, i) == 0)
    && Links(mem, p + PAGE, p, k)
    && (forall i: nat, j: nat :: i < k && j < 512 ==>
          Entry(mem, Pd(p, i), j) == if 512 * i + j < n then (512 * i + j) * MIB2 + 183 else 0)
  }

  lemma TableEntryWalk(phys: nat)
    requires phys % PAGE == 0 && phys < PHYS_LIMIT
    ensures Present(phys + 7) && !Large(phys + 7) && !BadTableEntry(phys + 7)
    ensures Frame(phys + 7, PAGE) == phys && RightsOf(phys + 7) == FULL_RIGHTS
  {
    assert Flags(phys + 7) == 7;
  }

  lemma LeafEntryBits(page: nat)
    ensures var e := page * MIB2 + 183; Present(e) && Large(e) && RightsOf(e) == FULL_RIGHTS && MemoryType(e) == 6
  {
    assert Flags(page * MIB2 + 183) == 183;
  }

  lemma LeafEntryFrame(page: nat)
    requires page < 0x8000_0000
    ensures Frame(page * MIB2 + 183, PAGE) % MIB2 == 0 && Frame(page * MIB2 + 183, MIB2) == page * MIB2
  {
    var e := page * MIB2 + 183;
    assert e % PHYS_LIMIT == e;
    Euclid(e, PAGE, 512 * page, 183);
    Euclid(e, MIB2, page, 183);
    Euclid(page * MIB2, MIB2, page, 0);
  }

  lemma LeafEntryWalk(page: nat, gpa: nat)
    requires page == gpa / MIB2 && gpa < PHYS_LIMIT
    ensures Leaf(page * MIB2 + 183, MIB2, gpa, FULL_RIGHTS) == Mapped(gpa, FULL_RIGHTS, 6)
  {
    LeafEntryBits(page);
    LeafEntryFrame(page);
  }

  lemma WalkLarge(mem: Memory, pd: nat, gpa: nat, e: nat)
    requires gpa < PHYS_LIMIT && e == gpa / MIB2 * MIB2 + 183 && Entry(mem, pd, gpa / MIB2 % 512) == e
    ensures WalkPd(mem, pd, gpa, FULL_RIGHTS) == Mapped(gpa, FULL_RIGHTS, 6)
  {
    LeafEntryBits(gpa / MIB2);
    LeafEntryWalk(gpa / MIB2, gpa);
  }

  lemma BelowPages(gpa: nat, n: nat)
    ensures gpa / MIB2 < n <==> gpa < n * MIB2
  {
  }

  lemma IndexParts(gpa: nat)
    requires gpa / (512 * GIB) % 512 == 0 && gpa < GUEST_LIMIT
    ensures gpa / MIB2 == 512 * (gpa / GIB % 512) + gpa / MIB2 % 512
  {
    assert gpa < 512 * GIB;
    assert gpa / GIB == gpa / MIB2 / 512;
  }

  lemma TablesTranslate(mem: Memory, p: nat, memoryMb: nat)
    requires memoryMb <= 524288 && p % PAGE == 0 && Pd(p, Directories(memoryMb)) <= PHYS_LIMIT
    requires Tables(mem, p, Directories(memoryMb), Pages2M(memoryMb))
    ensures IdentityMapped(mem, p, memoryMb)
  {
    forall gpa: nat | gpa < GUEST_LIMIT
      ensures WalkPml4(mem, p, gpa) == if gpa < Pages2M(memoryMb) * MIB2 then Mapped(gpa, FULL_RIGHTS, 6) else NotPresent
    {
      TranslateOne(mem, p, memoryMb, gpa);
    }
  }

  lemma TranslateLow(mem: Memory, p: nat, k: nat, n: nat, gpa: nat)
    requires p % PAGE == 0 && Pd(p, k) <= PHYS_LIMIT && n <= 512 * k && Tables(mem, p, k, n)
    requires gpa / (512 * GIB) % 512 == 0 && gpa < GUEST_LIMIT
    ensures WalkPdpt(mem, p + PAGE, gpa, FULL_RIGHTS) == if gpa / MIB2 < n then Mapped(gpa, FULL_RIGHTS, 6) else NotPresent
  {
    var i3, i2 := gpa / GIB % 512, gpa / MIB2 % 512;
    IndexParts(gpa);
    assert Entry(mem, p + PAGE, i3) == if i3 < k then Pd(p, i3) + 7 else 0;
    if i3 < k {
      TableEntryWalk(Pd(p, i3));
      assert Entry(mem, Pd(p, i3), i2) == if gpa / MIB2 < n then gpa / MIB2 * MIB2 + 183 else 0;
      if gpa / MIB2 < n {
        WalkLarge(mem, Pd(p, i3), gpa, gpa / MIB2 * MIB2 + 183);
      }
    }
  }

  lemma FollowPml4(mem: Memory, pml4: nat, next: nat, gpa: nat)
    requires next % PAGE == 0 && next < PHYS_LIMIT && Entry(mem, pml4, gpa / (512 * GIB) % 512) == next + 7
    ensures WalkPml4(mem, pml4, gpa) == WalkPdpt(mem, next, gpa, FULL_RIGHTS)
  {
    TableEntryWalk(next);
  }

  /** Nothing but the first entry of the root is there. */
  lemma TranslateHigh(mem: Memory, p: nat, k: nat, n: nat, gpa: nat)
    requires Tables(mem, p, k, n) && gpa / (512 * GIB) % 512 > 0
    ensures WalkPml4(mem, p, gpa) == NotPresent
  {
    assert Entry(mem, p, gpa / (512 * GIB) % 512) == 0;
  }

  lemma TranslateOne(mem: Memory, p: nat, memoryMb: nat, gpa: nat)
    requires memoryMb <= 524288 && p % PAGE == 0 && Pd(p, Directories(memoryMb)) <= PHYS_LIMIT && gpa < GUEST_LIMIT
    requires Tables(mem, p, Directories(memoryMb), Pages2M(memoryMb))
    ensures WalkPml4(mem, p, gpa) == if gpa < Pages2M(memoryMb) * MIB2 then Mapped(gpa, FULL_RIGHTS, 6) else NotPresent
  {
    var k, n := Directories(memoryMb), Pages2M(memoryMb);
    BelowPages(gpa, n);
    if gpa / (512 * GIB) % 512 > 0 {
      TranslateHigh(mem, p, k, n, gpa);
      HighIsBeyond(gpa, n);
    } else {
      AlignedRoot(p);
      FollowPml4(mem, p, p + PAGE, gpa);
      TranslateLow(mem, p, k, n, gpa);
    }
  }

  lemma HighIsBeyond(gpa: nat, n: nat)
    requires gpa / (512 * GIB) % 512 > 0 && n <= 0x4_0000
    ensures gpa >= n * MIB2
  {
  }

  lemma AlignedRoot(p: nat)
    requires p % PAGE == 0
    ensures (p + PAGE) % PAGE == 0
  {
    Euclid(p + PAGE, PAGE, p / PAGE + 1, 0);
  }

  /** With PML4[1] empty, nothing at or above 512 GiB is mapped. */
  lemma NothingAbove512G(mem: Memory, p: nat, memoryMb: nat)
    requires memoryMb > 524288 && Entry(mem, p, 1) == 0
    ensures !IdentityMapped(mem, p, memoryMb)
  {
    var gpa := 512 * GIB;
    assert gpa < Pages2M(memoryMb) * MIB2;
    assert WalkPml4(mem, p, gpa) == NotPresent;
  }

  /** What one turn of the outer loop does to memory: a new link, a filled directory, all words below it as they were. */
  ghost predicate Linked(was: Memory, mem: Memory, p: nat, k: nat, n: nat) {
    && Entry(mem, p + PAGE, k) == Pd(p, k) + 7
    && (forall j: nat :: j < 512 ==> Entry(mem, Pd(p, k), j) == if 512 * k + j < n then Wrapped(512 * k + j) + 183 else 0)
    && (forall b: nat, j: nat :: b + 8 * j < Pd(p, k) && b + 8 * j != p + PAGE + 8 * k ==> Entry(mem, b, j) == Entry(was, b, j))
  }

  lemma LinkAdded(was: Memory, mem: Memory, pdpt: nat, p: nat, k: nat)
    requires k < 512 && pdpt == p + PAGE && Links(was, pdpt, p, k) && Entry(mem, pdpt, k) == Pd(p, k) + 7
    requires forall b: nat, j: nat :: b + 8 * j < Pd(p, k) && b + 8 * j != pdpt + 8 * k ==> Entry(mem, b, j) == Entry(was, b, j)
    ensures Links(mem, pdpt, p, k + 1)
  {
    forall i: nat | i < 512 ensures Entry(mem, pdpt, i) == if i < k + 1 then Pd(p, i) + 7 else 0 {
      if i != k {
        assert pdpt + 8 * i < Pd(p, k);
        assert Entry(mem, pdpt, i) == Entry(was, pdpt, i);
      }
    }
  }

  /** While the links fit in their page, a turn adds directory k to the tables. */
  lemma Extended(was: Memory, mem: Memory, p: nat, k: nat, n: nat)
    requires k < 512 && 512 * k < n && Tables(was, p, k, n) && Linked(was, mem, p, k, n)
    ensures Tables(mem, p, k + 1, n)
  {
    LinkAdded(was, mem, p + PAGE, p, k);
    forall i: nat, j: nat | i < k && j < 512 ensures Entry(mem, Pd(p, i), j) == Entry(was, Pd(p, i), j) {
    }
  }

  // ---- Beyond 512 GiB: the links run over the first directory ----

  /** An entry for some frame other than the first. */
  predicate Elsewhere(e: nat) {
    PAGE <= e < PHYS_LIMIT && (e % PAGE == 7 || e % PAGE == 183)
  }

  /** The first entry of the first directory is a link to directory 512, whose entries are not those of a page table. */
  ghost predicate Astray(mem: Memory, p: nat) {
    && Entry(mem, p, 0) == p + PAGE + 7
    && Entry(mem, p + PAGE, 0) == Pd(p, 0) + 7
    && Entry(mem, Pd(p, 0), 0) == Pd(p, 512) + 7
    && Elsewhere(Entry(mem, Pd(p, 512), 0))
  }

  lemma GoesAstray(was: Memory, mem: Memory, p: nat, n: nat)
    requires 512 * 512 < n && Tables(was, p, 512, n) && Linked(was, mem, p, 512, n)
    ensures Astray(mem, p)
  {
    assert p + PAGE + 8 * 512 == Pd(p, 0);
    assert Entry(mem, Pd(p, 0), 0) == Entry(mem, p + PAGE, 512);
    assert Entry(was, p + PAGE, 0) == Pd(p, 0) + 7;
    assert Entry(mem, p + PAGE, 0) == Entry(was, p + PAGE, 0);
    assert Entry(mem, Pd(p, 512), 0) == Wrapped(512 * 512 + 0) + 183;
  }

  lemma StaysAstray(was: Memory, mem: Memory, p: nat, k: nat, n: nat)
    requires k > 512 && p % PAGE == 0 && Pd(p, k + 1) <= PHYS_LIMIT && Astray(was, p) && Linked(was, mem, p, k, n)
    ensures Astray(mem, p)
  {
    assert Entry(mem, p, 0) == Entry(was, p, 0) && Entry(mem, p + PAGE, 0) == Entry(was, p + PAGE, 0);
    assert Entry(mem, Pd(p, 0), 0) == Entry(was, Pd(p, 0), 0);
    if p + PAGE + 8 * k == Pd(p, 512) {
      assert Entry(mem, Pd(p, 512), 0) == Entry(mem, p + PAGE, k);
    } else {
      assert Entry(mem, Pd(p, 512), 0) == Entry(was, Pd(p, 512), 0);
    }
  }

  lemma ElsewhereLeaf(e: nat, gpa: nat)
    requires Elsewhere(e) && gpa < PAGE
    ensures Present(e) && Leaf(e, PAGE, gpa, FULL_RIGHTS).Mapped? && Leaf(e, PAGE, gpa, FULL_RIGHTS).hpa != gpa
  {
    assert Flags(e) == if e % PAGE == 7 then 7 else 183;
    assert Frame(e, PAGE) % PAGE == 0 && Frame(e, PAGE) >= PAGE;
  }

  lemma FollowPt(mem: Memory, pt: nat, gpa: nat)
    requires gpa < PAGE && Elsewhere(Entry(mem, pt, gpa / PAGE % 512))
    ensures WalkPt(mem, pt, gpa, FULL_RIGHTS).Mapped? && WalkPt(mem, pt, gpa, FULL_RIGHTS).hpa != gpa
  {
    ElsewhereLeaf(Entry(mem, pt, gpa / PAGE % 512), gpa);
  }

  lemma FollowPd(mem: Memory, pd: nat, next: nat, gpa: nat)
    requires next % PAGE == 0 && next < PHYS_LIMIT && Entry(mem, pd, gpa / MIB2 % 512) == next + 7
    ensures WalkPd(mem, pd, gpa, FULL_RIGHTS) == WalkPt(mem, next, gpa, FULL_RIGHTS)
  {
    TableEntryWalk(next);
  }

  lemma FollowPdpt(mem: Memory, pdpt: nat, next: nat, gpa: nat)
    requires next % PAGE == 0 && next < PHYS_LIMIT && Entry(mem, pdpt, gpa / GIB % 512) == next + 7
    ensures WalkPdpt(mem, pdpt, gpa, FULL_RIGHTS) == WalkPd(mem, next, gpa, FULL_RIGHTS)
  {
    TableEntryWalk(next);
  }

  lemma FirstIndices(gpa: nat)
    requires gpa < PAGE
    ensures gpa / (512 * GIB) % 512 == gpa / GIB % 512 == gpa / MIB2 % 512 == gpa / PAGE % 512 == 0
  {
  }

  lemma FollowAll(mem: Memory, pml4: nat, pdpt: nat, pd: nat, pt: nat, gpa: nat)
    requires pdpt % PAGE == 0 && pd % PAGE == 0 && pt % PAGE == 0
    requires pdpt < PHYS_LIMIT && pd < PHYS_LIMIT && pt < PHYS_LIMIT && gpa < PAGE
    requires Entry(mem, pml4, 0) == pdpt + 7 && Entry(mem, pdpt, 0) == pd + 7 && Entry(mem, pd, 0) == pt + 7
    requires Elsewhere(Entry(mem, pt, 0))
    ensures WalkPml4(mem, pml4, gpa).Mapped? && WalkPml4(mem, pml4, gpa).hpa != gpa
  {
    FirstIndices(gpa);
    FollowPml4(mem, pml4, pdpt, gpa);
    FollowPdpt(mem, pdpt, pd, gpa);
    FollowPd(mem, pd, pt, gpa);
    FollowPt(mem, pt, gpa);
  }

  lemma AlignedPds(p: nat, k: nat)
    requires p % PAGE == 0
    ensures (p + PAGE) % PAGE == 0 && Pd(p, k) % PAGE == 0
  {
    Euclid(p + PAGE, PAGE, p / PAGE + 1, 0);
    Euclid(Pd(p, k), PAGE, p / PAGE + 2 + k, 0);
  }

  /** Every address of the first guest page maps to some other address. */
  ghost predicate FirstPageLost(mem: Memory, pml4: nat) {
    forall gpa: nat :: gpa < PAGE ==> WalkPml4(mem, pml4, gpa).Mapped? && WalkPml4(mem, pml4, gpa).hpa != gpa
  }

  lemma AstrayWalk(mem: Memory, p: nat)
    requires p % PAGE == 0 && Pd(p, 513) <= PHYS_LIMIT && Astray(mem, p)
    ensures FirstPageLost(mem, p)
  {
    AlignedPds(p, 0);
    AlignedPds(p, 512);
    forall gpa: nat | gpa < PAGE ensures WalkPml4(mem, p, gpa).Mapped? && WalkPml4(mem, p, gpa).hpa != gpa {
      FollowAll(mem, p, p + PAGE, Pd(p, 0), Pd(p, 512), gpa);
    }
  }

  // ---- The outer loop ----

  /** Memory after k turns. */
  ghost predicate Built(mem: Memory, p: nat, k: nat, n: nat) {
    Entry(mem, p, 1) == 0 && if k <= 512 then Tables(mem, p, k, n) else Astray(mem, p)
  }

  lemma TurnBounds(p: nat, k: nat, n: nat)
    requires k < (n + 511) / 512
    ensures 512 * k < n && Pd(p, k + 1) <= Pd(p, (n + 511) / 512)
  {
  }

  /** Two zeroed pages and one link. */
  lemma NothingBuilt(mem: Memory, p: nat, n: nat)
    requires Entry(mem, p, 0) == p + PAGE + 7
    requires forall b: nat, j: nat :: p < b + 8 * j < p + 2 * PAGE ==> Entry(mem, b, j) == 0
    ensures Built(mem, p, 0, n)
  {
  }

  lemma TurnKeeps(was: Memory, mem: Memory, p: nat, k: nat, n: nat)
    requires p % PAGE == 0 && Pd(p, k + 1) <= PHYS_LIMIT && 512 * k < n
    requires Built(was, p, k, n) && Linked(was, mem, p, k, n)
    ensures Built(mem, p, k + 1, n)
  {
    assert Entry(mem, p, 1) == Entry(was, p, 1);
    if k < 512 {
      Extended(was, mem, p, k, n);
    } else if k == 512 {
      GoesAstray(was, mem, p, n);
    } else {
      StaysAstray(was, mem, p, k, n);
    }
  }

  /** What the finished tables are: the identity map up to 512 GiB; beyond, the first guest page maps elsewhere and
      everything from 512 GiB on is missing. */
  lemma BuiltTables(mem: Memory, p: nat, memoryMb: nat)
    requires p % PAGE == 0 && Pd(p, Directories(memoryMb)) <= PHYS_LIMIT
    requires Built(mem, p, Directories(memoryMb), Pages2M(memoryMb))
    ensures IdentityMapped(mem, p, memoryMb) <==> memoryMb <= 524288
    ensures memoryMb > 524288 ==> FirstPageLost(mem, p)
  {
    if memoryMb <= 524288 {
      TablesTranslate(mem, p, memoryMb);
    } else {
      NothingAbove512G(mem, p, memoryMb);
      AstrayWalk(mem, p);
    }
  }

  // ---- The kernel's side ----

  class Vmx {
    var poolNext: nat
    var mem: Memory

    /** Physical memory starts with arbitrary contents. */
    constructor (contents: Memory)
      ensures poolNext == POOL_START && mem == contents
    {
      poolNext, mem := POOL_START, contents;
    }

    /** Bump-allocate and zero one page. */
    method AllocPage() returns (addr: nat)
      modifies this
      ensures addr == old(poolNext) && poolNext == addr + PAGE
      ensures forall base: nat, i: nat :: addr <= base + 8 * i < addr + PAGE ==> Entry(mem, base, i) == 0
      ensures forall base: nat, i: nat :: !(addr <= base + 8 * i < addr + PAGE) ==> Entry(mem, base, i) == old(Entry(mem, base, i))
    {
      addr := poolNext;
      poolNext := poolNext + PAGE;
      mem := map a | a in mem && !(addr <= a < addr + PAGE) :: mem[a];
    }

    method WriteEntry(base: nat, i: nat, value: nat)
      modifies this`mem
      ensures Entry(mem, base, i) == value
      ensures forall b: nat, j: nat :: b + 8 * j != base + 8 * i ==> Entry(mem, b, j) == old(Entry(mem, b, j))
    {
      mem := mem[base + 8 * i := value];
    }

    /** Fill a page directory with the large pages start .. end-1. */
    method FillDirectory(pd: nat, start: nat, end: nat)
      requires start <= end
      modifies this`mem
      ensures forall j: nat :: j < end - start ==> Entry(mem, pd, j) == Wrapped(start + j) + 183
      ensures forall b: nat, j: nat :: !(pd <= b + 8 * j < pd + 8 * (end - start)) ==> Entry(mem, b, j) == old(Entry(mem, b, j))
    {
      for page := start to end
        invariant forall j: nat :: j < page - start ==> Entry(mem, pd, j) == Wrapped(start + j) + 183
        invariant forall b: nat, j: nat :: !(pd <= b + 8 * j < pd + 8 * (page - start)) ==> Entry(mem, b, j) == old(Entry(mem, b, j))
      {
        LeafEntryValue(page);
        WriteEntry(pd, page - start, LeafEntry(page));
      }
    }

    /** Build the tables. The identity map comes out exactly when the memory fits under one PML4 entry. */
    method NewIdentity(memoryMb: nat) returns (pml4: nat, pageCount: nat)
      requires poolNext % PAGE == 0 && Pd(poolNext, Directories(memoryMb)) <= PHYS_LIMIT
      modifies this
      ensures IdentityMapped(mem, pml4, memoryMb) <==> memoryMb <= 524288
      ensures memoryMb > 524288 ==> FirstPageLost(mem, pml4)
      ensures pageCount == 512 * Pages2M(memoryMb)
      ensures poolNext == Pd(old(poolNext), Directories(memoryMb)) && poolNext % PAGE == 0
      ensures forall b: nat, j: nat :: b + 8 * j < old(poolNext) ==> Entry(mem, b, j) == old(Entry(mem, b, j))
    {
      pml4 := AllocPage();
      var pages := (memoryMb + 1) / 2;
      var pdpt := AllocPage();
      TableEntryValue(pdpt);
      WriteEntry(pml4, 0, TableEntry(pdpt));
      NothingBuilt(mem, pml4, pages);
      var pds := (pages + 511) / 512;
      BuildDirectories(pml4, pds, pages);
      pageCount := pages * 512;
      AlignedPds(pml4, pds);
      BuiltTables(mem, pml4, memoryMb);
    }

    /** The outer loop. */
    method BuildDirectories(pml4: nat, pds: nat, pages: nat)
      requires pml4 % PAGE == 0 && poolNext == Pd(pml4, 0) && Built(mem, pml4, 0, pages)
      requires pds == (pages + 511) / 512 && Pd(pml4, pds) <= PHYS_LIMIT
      modifies this
      ensures poolNext == Pd(pml4, pds) && Built(mem, pml4, pds, pages)
      ensures forall b: nat, j: nat :: b + 8 * j < pml4 ==> Entry(mem, b, j) == old(Entry(mem, b, j))
    {
      for k := 0 to pds
        invariant poolNext == Pd(pml4, k) && Built(mem, pml4, k, pages)
        invariant forall b: nat, j: nat :: b + 8 * j < pml4 ==> Entry(mem, b, j) == old(Entry(mem, b, j))
      {
        TurnBounds(pml4, k, pages);
        ghost var was := mem;
        BuildDirectory(pml4, k, pages);
        TurnKeeps(was, mem, pml4, k, pages);
      }
    }

    /** One turn of the outer loop: allocate directory k, link it and fill it. */
    method BuildDirectory(pml4: nat, k: nat, pages: nat)
      requires pml4 % PAGE == 0 && poolNext == Pd(pml4, k) && 512 * k < pages
      modifies this
      ensures poolNext == Pd(pml4, k + 1) && Linked(old(mem), mem, pml4, k, pages)
    {
      var pd := AllocPage();
      TableEntryValue(pd);
      WriteEntry(pml4 + PAGE, k, TableEntry(pd));
      var start := k * 512;
      var end := if start + 512 < pages then start + 512 else pages;
      FillDirectory(pd, start, end);
    }
  }

  // ---- The EPT pointer ----

  function Eptp(pml4: nat): nat {
    Or(Or(pml4, EPTP_WB), EPTP_WALK_LENGTH_4)
  }

  lemma EptpValue(pml4: nat)
    requires pml4 % PAGE == 0
    ensures Eptp(pml4) == pml4 + 30
  {
    assert Pow2(5) == 32;
    OrHigh(pml4, 0, 6, 5);
    OrHigh(pml4, 6, 24, 5);
    assert Or(6, 24) == 30;
  }

  /** The pointer written to the VMCS says write-back, four levels (encoded as 3), and the root table. */
  lemma EptpFields(pml4: nat)
    requires pml4 % PAGE == 0 && pml4 < PHYS_LIMIT
    ensures var low := Eptp(pml4) % PAGE; low % 8 == 6 && low / 8 % 8 == 3 && low / 64 == 0
    ensures Frame(Eptp(pml4), PAGE) == pml4
  {
    EptpValue(pml4);
    assert Eptp(pml4) % PAGE == 30;
  }
}
