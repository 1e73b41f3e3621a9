/** The kernel module registry: insmod, rmmod, the built-in modules and the ELF loader's entry. */
module Modules {

  datatype ModuleState = Live | Loading | Unloading | Builtin

  datatype Dep = Dep(name: string, hard: bool)

  datatype Module = Module(name: string, state: ModuleState, deps: seq<Dep>, refCount: nat)

  type Registry = map<string, Module>

  datatype Error =
    | Lockdown | AlreadyLoaded | DependencyNotAvailable | DependencyNotLoaded
    | NotFound | CannotUnloadBuiltin | InUse | DependedUpon

  datatype Outcome = Ok | Err(error: Error)

  // ---- The operations ----

  /** The error the dependency check reports: that of the first hard dependency that is missing or not usable. */
  function DepError(reg: Registry, deps: seq<Dep>): Outcome {
    if deps == [] then Ok
    else if deps[0].hard && deps[0].name !in reg then Err(DependencyNotLoaded)
    else if deps[0].hard && !Usable(reg[deps[0].name]) then Err(DependencyNotAvailable)
    else DepError(reg, deps[1..])
  }

  predicate Usable(m: Module) {
    m.state.Live? || m.state.Builtin?
  }

  /** insert_module; `unlocked` is the lockdown policy's answer. */
  function Insert(reg: Registry, m: Module, unlocked: bool): (Registry, Outcome) {
    if !m.state.Builtin? && !unlocked then (reg, Err(Lockdown))
    else if m.name in reg then (reg, Err(AlreadyLoaded))
    else if DepError(reg, m.deps).Err? then (reg, DepError(reg, m.deps))
    else (reg[m.name := m], Ok)
  }

  predicate DependsOn(m: Module, name: string) {
    exists i :: 0 <= i < |m.deps| && m.deps[i].name == name
  }

  predicate HasDependents(reg: Registry, name: string) {
    exists k :: k in reg && DependsOn(reg[k], name)
  }

  function Remove(reg: Registry, name: string): (Registry, Outcome) {
    if name !in reg then (reg, Err(NotFound))
    else if reg[name].state.Builtin? then (reg, Err(CannotUnloadBuiltin))
    else if reg[name].refCount > 0 then (reg, Err(InUse))
    else if HasDependents(reg, name) then (reg, Err(DependedUpon))
    else (reg - {name}, Ok)
  }

  function RegisterBuiltin(reg: Registry, name: string, deps: seq<Dep>): Registry {
    reg[name := Module(name, Builtin, deps, 1)]
  }

  /** One hard dependency. */
  function On(parent: string): seq<Dep> {
    [Dep(parent, true)]
  }

  const CORE := "knoxos_core"
  const VFS := "vfs"
  const NET := "net_core"

  function InitKernel(reg: Registry): Registry {
    var r0 := RegisterBuiltin(reg, CORE, []);
    var r1 := RegisterBuiltin(r0, "gdt", On(CORE));
    var r2 := RegisterBuiltin(r1, "idt", On(CORE));
    var r3 := RegisterBuiltin(r2, "memory", On(CORE));
    var r4 := RegisterBuiltin(r3, "scheduler", On(CORE));
    var r5 := RegisterBuiltin(r4, VFS, On(CORE));
    RegisterBuiltin(r5, "ext2", On(VFS))
  }

  function InitNet(reg: Registry): Registry {
    var r0 := RegisterBuiltin(reg, "block", On(CORE));
    var r1 := RegisterBuiltin(r0, NET, On(CORE));
    var r2 := RegisterBuiltin(r1, "tcp", On(NET));
    var r3 := RegisterBuiltin(r2, "udp", On(NET));
    RegisterBuiltin(r3, "ip", On(NET))
  }

  function InitDrivers(reg: Registry): Registry {
    var r0 := RegisterBuiltin(reg, "pcspkr", On(CORE));
    var r1 := RegisterBuiltin(r0, "ps2_kbd", On(CORE));
    var r2 := RegisterBuiltin(r1, "ps2_mouse", On(CORE));
    RegisterBuiltin(r2, "fb", On(CORE))
  }

  function InitServices(reg: Registry): Registry {
    var r0 := RegisterBuiltin(reg, "tty", On(CORE));
    var r1 := RegisterBuiltin(r0, "security", On(CORE));
    RegisterBuiltin(r1, "ai_engine", On(CORE))
  }

  function Init(reg: Registry): Registry {
    InitServices(InitDrivers(InitNet(InitKernel(reg))))
  }

  const GATE_KO := Module("gate_ko", Live, [], 0)

  /** The last step of load_elf_module. */
  function LoadElf(reg: Registry): Registry {
    reg["gate_ko" := GATE_KO]
  }

  // ---- The registry object ----

  class ModuleRegistry {
    var modules: Registry

    constructor ()
      ensures modules == map[]
    {
      modules := map[];
    }

    method InsertModule(m: Module, unlocked: bool) returns (r: Outcome)
      modifies this
      ensures (modules, r) == Insert(old(modules), m, unlocked)
    {
      if m.state != Builtin && !unlocked {
        return Err(Lockdown);
      }
      if m.name in modules {
        return Err(AlreadyLoaded);
      }
      for i := 0 to |m.deps|
        invariant modules == old(modules)
        invariant DepError(modules, m.deps) == DepError(modules, m.deps[i..])
      {
        var dep := m.deps[i];
        assert m.deps[i..][1..] == m.deps[i + 1..];
        if dep.name in modules {
          if modules[dep.name].state != Live && modules[dep.name].state != Builtin && dep.hard {
            return Err(DependencyNotAvailable);
          }
        } else if dep.hard {
          return Err(DependencyNotLoaded);
        }
      }
      modules := modules[m.name := m];
      r := Ok;
    }

    method AddBuiltin(name: string, deps: seq<Dep>)
      modifies this
      ensures modules == RegisterBuiltin(old(modules), name, deps)
    {
      modules := modules[name := Module(name, Builtin, deps, 1)];
    }

    method Start()
      modifies this
      ensures modules == Init(old(modules))
    {
      AddBuiltin(CORE, []);
      AddBuiltin("gdt", On(CORE));
      AddBuiltin("idt", On(CORE));
      AddBuiltin("memory", On(CORE));
      AddBuiltin("scheduler", On(CORE));
      AddBuiltin(VFS, On(CORE));
      AddBuiltin("ext2", On(VFS));
      AddBuiltin("block", On(CORE));
      AddBuiltin(NET, On(CORE));
      AddBuiltin("tcp", On(NET));
      AddBuiltin("udp", On(NET));
      AddBuiltin("ip", On(NET));
      AddBuiltin("pcspkr", On(CORE));
      AddBuiltin("ps2_kbd", On(CORE));
      AddBuiltin("ps2_mouse", On(CORE));
      AddBuiltin("fb", On(CORE));
      AddBuiltin("tty", On(CORE));
      AddBuiltin("security", On(CORE));
      AddBuiltin("ai_engine", On(CORE));
    }

    /** What load_elf_module does to the registry once the image is mapped. */
    method AddElfModule()
      modifies this
      ensures modules == LoadElf(old(modules))
    {
      modules := modules["gate_ko" := GATE_KO];
    }

    method RemoveModule(name: string) returns (r: Outcome)
      modifies this
      ensures (modules, r) == Remove(old(modules), name)
    {
      if name !in modules {
        return Err(NotFound);
      }
      if modules[name].state == Builtin {
        return Err(CannotUnloadBuiltin);
      }
      if modules[name].refCount > 0 {
        return Err(InUse);
      }
      if exists k :: k in modules && DependsOn(modules[k], name) {
        return Err(DependedUpon);
      }
      modules := modules - {name};
      r := Ok;
    }
  }

  // ---- The dependency graph ----

  function HardDeps(m: Module): set<string> {
    set i | 0 <= i < |m.deps| && m.deps[i].hard :: m.deps[i].name
  }

  /** Names are keys, and every hard dependency of a loaded module is loaded and usable. */
  ghost predicate Closed(reg: Registry) {
    && (forall k :: k in reg ==> reg[k].name == k)
    && (forall k, d :: k in reg && d in HardDeps(reg[k]) ==> d in reg && Usable(reg[d]))
  }

  /** A numbering that falls along every hard dependency. */
  ghost predicate Ranks(reg: Registry, rank: map<string, nat>) {
    && reg.Keys <= rank.Keys
    && forall k, d :: k in reg && d in HardDeps(reg[k]) ==> d in rank && rank[d] < rank[k]
  }

  ghost predicate Ranked(reg: Registry) {
    exists rank :: Ranks(reg, rank)
  }

  ghost predicate Inv(reg: Registry) {
    Closed(reg) && Ranked(reg)
  }

  /** A chain of modules, each hard-depending on the next. */
  ghost predicate Path(reg: Registry, p: seq<string>) {
    && |p| >= 1
    && (forall i :: 0 <= i < |p| ==> p[i] in reg)
    && (forall i :: 0 <= i < |p| - 1 ==> p[i + 1] in HardDeps(reg[p[i]]))
  }

  ghost predicate Acyclic(reg: Registry) {
    forall p :: Path(reg, p) && |p| >= 2 ==> p[0] != p[|p| - 1]
  }

  lemma {:induction false} RankFalls(reg: Registry, rank: map<string, nat>, p: seq<string>)
    requires Ranks(reg, rank) && Path(reg, p) && |p| >= 2
    ensures rank[p[|p| - 1]] < rank[p[0]]
  {
    assert p[1] in HardDeps(reg[p[0]]);
    if |p| > 2 {
      var q := p[1..];
      forall i | 0 <= i < |q| - 1 ensures q[i + 1] in HardDeps(reg[q[i]]) {
        assert p[i + 2] in HardDeps(reg[p[i + 1]]);
      }
      RankFalls(reg, rank, q);
    }
  }

  lemma RankedAcyclic(reg: Registry)
    requires Ranked(reg)
    ensures Acyclic(reg)
  {
    var rank: map<string, nat> :| Ranks(reg, rank);
    forall p | Path(reg, p) && |p| >= 2 ensures p[0] != p[|p| - 1] {
      RankFalls(reg, rank, p);
    }
  }

  /** A set of loaded modules whose hard dependencies stay inside it. */
  ghost predicate Base(reg: Registry, base: set<string>) {
    forall n :: n in base ==> n in reg && Usable(reg[n]) && HardDeps(reg[n]) <= base
  }

  ghost function MaxRank(rank: map<string, nat>, names: set<string>): (m: nat)
    requires names <= rank.Keys
    ensures forall n :: n in names ==> rank[n] < m
  {
    if names == {} then 0
    else
      var n :| n in names;
      var m := MaxRank(rank, names - {n});
      if rank[n] < m then m else rank[n] + 1
  }

  /** Rank the base as before, one module above it, and everything else above both. */
  ghost function Rerank(rank: map<string, nat>, base: set<string>, name: string, top: nat): map<string, nat> {
    map k | k in rank.Keys + {name} ::
      if k == name then top else if k in base then rank[k] else rank[k] + top + 1
  }

  lemma RerankFalls(rank: map<string, nat>, base: set<string>, name: string, top: nat, k: string, d: string)
    requires k in rank && d in rank && rank[d] < rank[k] && k != name && name !in base
    requires k in base ==> d in base
    requires d in base ==> rank[d] < top
    ensures Rerank(rank, base, name, top)[d] < Rerank(rank, base, name, top)[k]
  {
  }

  /** Pointing a (new or replaced) module at a base that does not contain it cannot close a cycle. */
  lemma ReplaceRanked(reg: Registry, m: Module, base: set<string>)
    requires Ranked(reg) && Base(reg, base) && m.name !in base && HardDeps(m) <= base
    ensures Ranked(reg[m.name := m])
  {
    var rank: map<string, nat> :| Ranks(reg, rank);
    var top := MaxRank(rank, base);
    var rank' := Rerank(rank, base, m.name, top);
    forall k, d | k in reg && k != m.name && d in HardDeps(reg[k]) ensures d in rank' && rank'[d] < rank'[k] {
      RerankFalls(rank, base, m.name, top, k, d);
    }
    assert Ranks(reg[m.name := m], rank');
  }

  lemma ReplaceInv(reg: Registry, m: Module, base: set<string>)
    requires Inv(reg) && Base(reg, base) && m.name !in base && HardDeps(m) <= base
    requires m.name in reg ==> Usable(m)
    ensures Inv(reg[m.name := m])
  {
    ReplaceRanked(reg, m, base);
  }

  // ---- Each operation keeps the graph sound ----

  lemma {:induction false} DepsChecked(reg: Registry, deps: seq<Dep>, i: nat)
    requires DepError(reg, deps).Ok? && i < |deps| && deps[i].hard
    ensures deps[i].name in reg && Usable(reg[deps[i].name])
  {
    if i > 0 {
      DepsChecked(reg, deps[1..], i - 1);
    }
  }

  /** A checked insertion points only at usable modules, which depend only on usable ones. */
  lemma InsertInv(reg: Registry, m: Module, unlocked: bool)
    requires Inv(reg)
    ensures Inv(Insert(reg, m, unlocked).0)
  {
    if Insert(reg, m, unlocked).1.Ok? {
      forall d | d in HardDeps(m) ensures d in reg && Usable(reg[d]) {
        var i :| 0 <= i < |m.deps| && m.deps[i].hard && m.deps[i].name == d;
        DepsChecked(reg, m.deps, i);
      }
      var base := set k | k in reg && Usable(reg[k]);
      ReplaceInv(reg, m, base);
    }
  }

  lemma HardIsDependence(m: Module, d: string)
    requires d in HardDeps(m)
    ensures DependsOn(m, d)
  {
  }

  lemma RemoveRanked(reg: Registry, name: string)
    requires Ranked(reg)
    ensures Ranked(reg - {name})
  {
    var rank: map<string, nat> :| Ranks(reg, rank);
    assert Ranks(reg - {name}, rank);
  }

  lemma RemoveInv(reg: Registry, name: string)
    requires Inv(reg)
    ensures Inv(Remove(reg, name).0)
  {
    if Remove(reg, name).1.Ok? {
      RemoveRanked(reg, name);
      forall k, d | k in reg && d in HardDeps(reg[k]) ensures d != name {
        HardIsDependence(reg[k], d);
      }
    }
  }

  lemma LoadElfInv(reg: Registry)
    requires Inv(reg)
    ensures Inv(LoadElf(reg))
  {
    ReplaceInv(reg, GATE_KO, {});
  }

  /** A sound registry in which `base` holds what later registrations may depend on. */
  ghost predicate Rooted(reg: Registry, base: set<string>) {
    Inv(reg) && Base(reg, base)
  }

  lemma RegisterKeeps(reg: Registry, name: string, deps: seq<Dep>, base: set<string>)
    requires Rooted(reg, base) && name !in base && forall i :: 0 <= i < |deps| && deps[i].hard ==> deps[i].name in base
    ensures Rooted(RegisterBuiltin(reg, name, deps), base)
    ensures Rooted(RegisterBuiltin(reg, name, deps), base + {name})
  {
    ReplaceInv(reg, Module(name, Builtin, deps, 1), base);
  }

  lemma ChildKeeps(reg: Registry, name: string, parent: string, base: set<string>)
    requires Rooted(reg, base) && parent in base && name !in base
    ensures Rooted(RegisterBuiltin(reg, name, On(parent)), base)
  {
    RegisterKeeps(reg, name, On(parent), base);
  }

  lemma InitKernelKeeps(reg: Registry)
    requires Inv(reg)
    ensures Rooted(InitKernel(reg), {CORE} + {VFS})
  {
    RegisterKeeps(reg, CORE, [], {});
    var r0 := RegisterBuiltin(reg, CORE, []);
    assert {} + {CORE} == {CORE};
    ChildKeeps(r0, "gdt", CORE, {CORE});
    var r1 := RegisterBuiltin(r0, "gdt", On(CORE));
    ChildKeeps(r1, "idt", CORE, {CORE});
    var r2 := RegisterBuiltin(r1, "idt", On(CORE));
    ChildKeeps(r2, "memory", CORE, {CORE});
    var r3 := RegisterBuiltin(r2, "memory", On(CORE));
    ChildKeeps(r3, "scheduler", CORE, {CORE});
    var r4 := RegisterBuiltin(r3, "scheduler", On(CORE));
    RegisterKeeps(r4, VFS, On(CORE), {CORE});
    var r5 := RegisterBuiltin(r4, VFS, On(CORE));
    ChildKeeps(r5, "ext2", VFS, {CORE} + {VFS});
  }

  lemma CoreKeeps(reg: Registry, name: string)
    requires Rooted(reg, {CORE} + {VFS}) && name != CORE && name != VFS
    ensures Rooted(RegisterBuiltin(reg, name, On(CORE)), {CORE} + {VFS})
  {
    ChildKeeps(reg, name, CORE, {CORE} + {VFS});
  }

  /** A child of net_core leaves both the kernel's base and net_core's in place. */
  ghost predicate NetRooted(reg: Registry) {
    Rooted(reg, {CORE} + {VFS}) && Rooted(reg, {CORE} + {VFS} + {NET})
  }

  lemma NetKeeps(reg: Registry, name: string)
    requires NetRooted(reg) && name != CORE && name != VFS && name != NET
    ensures NetRooted(RegisterBuiltin(reg, name, On(NET)))
  {
    ChildKeeps(reg, name, NET, {CORE} + {VFS} + {NET});
  }

  lemma NetRoots(reg: Registry)
    requires Rooted(reg, {CORE} + {VFS})
    ensures NetRooted(RegisterBuiltin(RegisterBuiltin(reg, "block", On(CORE)), NET, On(CORE)))
  {
    CoreKeeps(reg, "block");
    RegisterKeeps(RegisterBuiltin(reg, "block", On(CORE)), NET, On(CORE), {CORE} + {VFS});
  }

  lemma InitNetKeeps(reg: Registry)
    requires Rooted(reg, {CORE} + {VFS})
    ensures Rooted(InitNet(reg), {CORE} + {VFS})
  {
    NetRoots(reg);
    var r1 := RegisterBuiltin(RegisterBuiltin(reg, "block", On(CORE)), NET, On(CORE));
    NetKeeps(r1, "tcp");
    var r2 := RegisterBuiltin(r1, "tcp", On(NET));
    NetKeeps(r2, "udp");
    var r3 := RegisterBuiltin(r2, "udp", On(NET));
    NetKeeps(r3, "ip");
  }

  lemma InitDriversKeeps(reg: Registry)
    requires Rooted(reg, {CORE} + {VFS})
    ensures Rooted(InitDrivers(reg), {CORE} + {VFS})
  {
    CoreKeeps(reg, "pcspkr");
    var r0 := RegisterBuiltin(reg, "pcspkr", On(CORE));
    CoreKeeps(r0, "ps2_kbd");
    var r1 := RegisterBuiltin(r0, "ps2_kbd", On(CORE));
    CoreKeeps(r1, "ps2_mouse");
    var r2 := RegisterBuiltin(r1, "ps2_mouse", On(CORE));
    CoreKeeps(r2, "fb");
  }

  lemma InitServicesKeeps(reg: Registry)
    requires Rooted(reg, {CORE} + {VFS})
    ensures Rooted(InitServices(reg), {CORE} + {VFS})
  {
    CoreKeeps(reg, "tty");
    var r0 := RegisterBuiltin(reg, "tty", On(CORE));
    CoreKeeps(r0, "security");
    var r1 := RegisterBuiltin(r0, "security", On(CORE));
    CoreKeeps(r1, "ai_engine");
  }

  lemma InitInv(reg: Registry)
    requires Inv(reg)
    ensures Inv(Init(reg))
  {
    InitKernelKeeps(reg);
    InitNetKeeps(InitKernel(reg));
    InitDriversKeeps(InitNet(InitKernel(reg)));
    InitServicesKeeps(InitDrivers(InitNet(InitKernel(reg))));
  }

  // ---- The table of built-ins ----

  predicate IsBuiltin(reg: Registry, name: string, deps: seq<Dep>) {
    name in reg && reg[name] == Module(name, Builtin, deps, 1)
  }

  /** Outside these names nothing changed. */
  ghost predicate OnlyAdds(reg: Registry, reg': Registry, names: set<string>) {
    forall n :: n !in names ==> (n in reg <==> n in reg') && (n in reg ==> reg'[n] == reg[n])
  }

  ghost predicate KernelTable(reg: Registry) {
    && IsBuiltin(reg, "knoxos_core", [])
    && IsBuiltin(reg, "gdt", [Dep("knoxos_core", true)])
    && IsBuiltin(reg, "idt", [Dep("knoxos_core", true)])
    && IsBuiltin(reg, "memory", [Dep("knoxos_core", true)])
    && IsBuiltin(reg, "scheduler", [Dep("knoxos_core", true)])
    && IsBuiltin(reg, "vfs", [Dep("knoxos_core", true)])
    && IsBuiltin(reg, "ext2", [Dep("vfs", true)])
  }

  const KERNEL_NAMES: set<string> := {"knoxos_core", "gdt", "idt", "memory", "scheduler", "vfs", "ext2"}

  lemma KernelRegistered(reg: Registry)
    ensures KernelTable(InitKernel(reg)) && OnlyAdds(reg, InitKernel(reg), KERNEL_NAMES)
  {
  }

  ghost predicate NetTable(reg: Registry) {
    && IsBuiltin(reg, "block", [Dep("knoxos_core", true)])
    && IsBuiltin(reg, "net_core", [Dep("knoxos_core", true)])
    && IsBuiltin(reg, "tcp", [Dep("net_core", true)])
    && IsBuiltin(reg, "udp", [Dep("net_core", true)])
    && IsBuiltin(reg, "ip", [Dep("net_core", true)])
  }

  const NET_NAMES: set<string> := {"block", "net_core", "tcp", "udp", "ip"}

  lemma NetRegistered(reg: Registry)
    ensures NetTable(InitNet(reg)) && OnlyAdds(reg, InitNet(reg), NET_NAMES)
  {
  }

  ghost predicate DriversTable(reg: Registry) {
    && IsBuiltin(reg, "pcspkr", [Dep("knoxos_core", true)])
    && IsBuiltin(reg, "ps2_kbd", [Dep("knoxos_core", true)])
    && IsBuiltin(reg, "ps2_mouse", [Dep("knoxos_core", true)])
    && IsBuiltin(reg, "fb", [Dep("knoxos_core", true)])
  }

  const DRIVERS_NAMES: set<string> := {"pcspkr", "ps2_kbd", "ps2_mouse", "fb"}

  lemma DriversRegistered(reg: Registry)
    ensures DriversTable(InitDrivers(reg)) && OnlyAdds(reg, InitDrivers(reg), DRIVERS_NAMES)
  {
  }

  ghost predicate ServicesTable(reg: Registry) {
    && IsBuiltin(reg, "tty", [Dep("knoxos_core", true)])
    && IsBuiltin(reg, "security", [Dep("knoxos_core", true)])
    && IsBuiltin(reg, "ai_engine", [Dep("knoxos_core", true)])
  }

  const SERVICES_NAMES: set<string> := {"tty", "security", "ai_engine"}

  lemma ServicesRegistered(reg: Registry)
    ensures ServicesTable(InitServices(reg)) && OnlyAdds(reg, InitServices(reg), SERVICES_NAMES)
  {
  }

  lemma NetKeepsTables(reg: Registry)
    ensures KernelTable(reg) ==> KernelTable(InitNet(reg))
  {
    NetRegistered(reg);
  }

  lemma DriversKeepTables(reg: Registry)
    ensures KernelTable(reg) ==> KernelTable(InitDrivers(reg))
    ensures NetTable(reg) ==> NetTable(InitDrivers(reg))
  {
    DriversRegistered(reg);
  }

  lemma ServicesKeepTables(reg: Registry)
    ensures KernelTable(reg) ==> KernelTable(InitServices(reg))
    ensures NetTable(reg) ==> NetTable(InitServices(reg))
    ensures DriversTable(reg) ==> DriversTable(InitServices(reg))
  {
    ServicesRegistered(reg);
  }

  /** Over any registry, the nineteen built-ins are registered with these dependencies, and no other name is touched. */
  lemma InitExactly(reg: Registry)
    ensures KernelTable(Init(reg)) && NetTable(Init(reg)) && DriversTable(Init(reg)) && ServicesTable(Init(reg))
    ensures OnlyAdds(reg, Init(reg), KERNEL_NAMES + NET_NAMES + DRIVERS_NAMES + SERVICES_NAMES)
  {
    var r1 := InitKernel(reg);
    var r2 := InitNet(r1);
    var r3 := InitDrivers(r2);
    KernelRegistered(reg);
    NetRegistered(r1);
    DriversRegistered(r2);
    ServicesRegistered(r3);
    NetKeepsTables(r1);
    DriversKeepTables(r2);
    ServicesKeepTables(r3);
  }

  /** A loaded image is the live module gate_ko, without dependencies or references; nothing else changes. */
  lemma LoadElfExactly(reg: Registry)
    ensures "gate_ko" in LoadElf(reg) && LoadElf(reg)["gate_ko"] == Module("gate_ko", Live, [], 0)
    ensures OnlyAdds(reg, LoadElf(reg), {"gate_ko"})
  {
  }

  // ---- Who gets in, who gets out, and why not ----

  /** The first dependency that stands in the way. */
  ghost predicate FirstBad(reg: Registry, deps: seq<Dep>, i: nat) {
    && i < |deps| && Bad(reg, deps[i])
    && forall j :: 0 <= j < i ==> !Bad(reg, deps[j])
  }

  /** A hard dependency that is not loaded, or is loaded but neither live nor built in. */
  predicate Bad(reg: Registry, d: Dep) {
    d.hard && (d.name !in reg || reg[d.name].state == Loading || reg[d.name].state == Unloading)
  }

  lemma {:induction false} DepErrorExactly(reg: Registry, deps: seq<Dep>)
    ensures DepError(reg, deps).Ok? <==> forall i :: 0 <= i < |deps| ==> !Bad(reg, deps[i])
    ensures forall i: nat :: FirstBad(reg, deps, i) ==>
              DepError(reg, deps) == Err(if deps[i].name in reg then DependencyNotAvailable else DependencyNotLoaded)
  {
    if deps != [] && !Bad(reg, deps[0]) {
      DepErrorExactly(reg, deps[1..]);
      forall i: nat | FirstBad(reg, deps, i) ensures i > 0 && FirstBad(reg, deps[1..], i - 1) {
        assert deps[i] == deps[1..][i - 1];
        forall j | 0 <= j < i - 1 ensures !Bad(reg, deps[1..][j]) {
          assert deps[1..][j] == deps[j + 1];
        }
      }
    }
  }

  /** A module gets in exactly when the policy allows it or it is built in, its name is free, and no dependency stands in
      the way. Otherwise nothing changes, and the reason is the first of these that fails. */
  lemma InsertExactly(reg: Registry, m: Module, unlocked: bool)
    ensures
      var (reg', o) := Insert(reg, m, unlocked);
      && (o.Ok? <==> (unlocked || m.state == Builtin) && m.name !in reg &&
                     forall i :: 0 <= i < |m.deps| ==> !Bad(reg, m.deps[i]))
      && (o.Ok? ==> m.name in reg' && reg'[m.name] == m && reg' - {m.name} == reg)
      && (o.Err? ==> reg' == reg)
      && (o == Err(Lockdown) <==> !unlocked && m.state != Builtin)
      && (o == Err(AlreadyLoaded) <==> (unlocked || m.state == Builtin) && m.name in reg)
      && forall i: nat :: (unlocked || m.state == Builtin) && m.name !in reg && FirstBad(reg, m.deps, i) ==>
           o == Err(if m.deps[i].name in reg then DependencyNotAvailable else DependencyNotLoaded)
  {
    DepErrorExactly(reg, m.deps);
    DepErrorKinds(reg, m.deps);
  }

  lemma {:induction false} DepErrorKinds(reg: Registry, deps: seq<Dep>)
    ensures DepError(reg, deps) in {Ok, Err(DependencyNotAvailable), Err(DependencyNotLoaded)}
  {
    if deps != [] {
      DepErrorKinds(reg, deps[1..]);
    }
  }

  /** A module gets out exactly when it is loaded, not built in, unreferenced and named by nobody. Otherwise nothing
      changes, and the reason is the first of these that fails. */
  lemma RemoveExactly(reg: Registry, name: string)
    ensures
      var (reg', o) := Remove(reg, name);
      var named := exists k, i :: k in reg && 0 <= i < |reg[k].deps| && reg[k].deps[i].name == name;
      && reg' == (if o.Ok? then reg - {name} else reg)
      && o == if name !in reg then Err(NotFound)
              else if reg[name].state == Builtin then Err(CannotUnloadBuiltin)
              else if reg[name].refCount != 0 then Err(InUse)
              else if named then Err(DependedUpon)
              else Ok
  {
    if k, i :| k in reg && 0 <= i < |reg[k].deps| && reg[k].deps[i].name == name {
      assert DependsOn(reg[k], name);
    }
    if HasDependents(reg, name) {
      var k :| k in reg && DependsOn(reg[k], name);
    }
  }

  // ---- Whole runs ----

  datatype Op = Boot | Insmod(m: Module, unlocked: bool) | Rmmod(name: string) | LoadKo

  function Apply(reg: Registry, op: Op): Registry {
    match op
    case Boot => Init(reg)
    case Insmod(m, unlocked) => Insert(reg, m, unlocked).0
    case Rmmod(name) => Remove(reg, name).0
    case LoadKo => LoadElf(reg)
  }

  function Play(ops: seq<Op>): Registry {
    if ops == [] then map[] else Apply(Play(ops[..|ops| - 1]), ops[|ops| - 1])
  }

  lemma {:induction false} RunInv(ops: seq<Op>)
    ensures Inv(Play(ops))
  {
    if ops == [] {
      var rank: map<string, nat> := map[];
      assert Ranks(map[], rank);
    } else {
      var reg := Play(ops[..|ops| - 1]);
      RunInv(ops[..|ops| - 1]);
      match ops[|ops| - 1]
      case Boot => InitInv(reg);
      case Insmod(m, unlocked) => InsertInv(reg, m, unlocked);
      case Rmmod(name) => RemoveInv(reg, name);
      case LoadKo => LoadElfInv(reg);
    }
  }

  /** In every reachable registry the hard dependencies are met and form no cycle. */
  lemma RunSound(ops: seq<Op>)
    ensures Closed(Play(ops)) && Acyclic(Play(ops))
  {
    RunInv(ops);
    RankedAcyclic(Play(ops));
  }

  /** A module just inserted can be removed exactly when it is unreferenced, not built in, and nothing, itself
      included, names it even softly; removal then restores the registry. */
  lemma InsertThenRemove(reg: Registry, m: Module, unlocked: bool)
    requires Insert(reg, m, unlocked).1.Ok?
    ensures
      var reg' := Insert(reg, m, unlocked).0;
      && (Remove(reg', m.name).1.Ok? <==>
            !m.state.Builtin? && m.refCount == 0 && !DependsOn(m, m.name) && !HasDependents(reg, m.name))
      && (Remove(reg', m.name).1.Ok? ==> Remove(reg', m.name).0 == reg)
  {
    var reg' := Insert(reg, m, unlocked).0;
    assert reg' - {m.name} == reg;
    assert reg'[m.name] == m;
    assert forall k :: k in reg ==> k in reg' && reg'[k] == reg[k];
  }

  // ---- Draining the registry ----

  predicate OnlyBuiltins(reg: Registry) {
    forall k :: k in reg ==> reg[k].state.Builtin?
  }

  /** Removing these modules in this order succeeds every time and leaves only built-ins. */
  ghost predicate Drains(reg: Registry, names: seq<string>)
    decreases |names|
  {
    if names == [] then OnlyBuiltins(reg)
    else Remove(reg, names[0]).1.Ok? && Drains(Remove(reg, names[0]).0, names[1..])
  }

  ghost predicate CanDrain(reg: Registry) {
    exists names :: Drains(reg, names)
  }

  predicate Loose(reg: Registry, k: string) {
    k in reg && !reg[k].state.Builtin?
  }

  /** A chain of removable modules, each naming the next as a dependency, hard or soft. */
  ghost predicate LoosePath(reg: Registry, p: seq<string>) {
    && |p| >= 1
    && (forall i :: 0 <= i < |p| ==> Loose(reg, p[i]))
    && (forall i :: 0 <= i < |p| - 1 ==> DependsOn(reg[p[i]], p[i + 1]))
  }

  ghost predicate LooseAcyclic(reg: Registry) {
    forall p :: LoosePath(reg, p) && |p| >= 2 ==> p[0] != p[|p| - 1]
  }

  ghost predicate Unpinned(reg: Registry) {
    && (forall k :: Loose(reg, k) ==> reg[k].refCount == 0)
    && (forall k, d :: k in reg && Loose(reg, d) && DependsOn(reg[k], d) ==> Loose(reg, k))
  }

  ghost predicate Drainable(reg: Registry) {
    Unpinned(reg) && LooseAcyclic(reg)
  }

  /** A cycle through a module needs something that names it, so a removable one lies on none. */
  lemma RemovedCycle(reg: Registry, name: string, p: seq<string>)
    requires Remove(reg, name).1.Ok? && LoosePath(reg, p) && |p| >= 2 && p[0] == p[|p| - 1]
    ensures LoosePath(Remove(reg, name).0, p)
  {
    var reg' := Remove(reg, name).0;
    forall i | 0 <= i < |p| ensures p[i] != name {
      var j := if i == 0 then |p| - 1 else i;
      assert p[j] == p[i] && DependsOn(reg[p[j - 1]], p[j]);
    }
    assert forall i :: 0 <= i < |p| ==> Loose(reg', p[i]) && reg'[p[i]] == reg[p[i]];
  }

  lemma DrainStepBack(reg: Registry, name: string)
    requires Remove(reg, name).1.Ok? && Drainable(Remove(reg, name).0)
    ensures Drainable(reg)
  {
    var reg' := Remove(reg, name).0;
    forall p | LoosePath(reg, p) && |p| >= 2 ensures p[0] != p[|p| - 1] {
      if p[0] == p[|p| - 1] {
        RemovedCycle(reg, name, p);
        assert false;
      }
    }
    forall k, d | k in reg && Loose(reg, d) && DependsOn(reg[k], d) ensures Loose(reg, k) {
      assert d != name && Loose(reg', d);
      assert k != name ==> k in reg' && (Loose(reg', k) ==> Loose(reg, k));
    }
    forall k | Loose(reg, k) ensures reg[k].refCount == 0 {
      assert k != name ==> Loose(reg', k);
    }
  }

  lemma {:induction false} DrainedWasDrainable(reg: Registry, names: seq<string>)
    requires Drains(reg, names)
    ensures Drainable(reg)
    decreases |names|
  {
    if names != [] {
      DrainedWasDrainable(Remove(reg, names[0]).0, names[1..]);
      DrainStepBack(reg, names[0]);
    }
  }

  /** In an acyclic registry a chain visits no module twice. */
  lemma ChainDistinct(reg: Registry, p: seq<string>, i: nat, j: nat)
    requires LooseAcyclic(reg) && LoosePath(reg, p) && i < j < |p|
    ensures p[i] != p[j]
  {
    var q := p[i..j + 1];
    forall k | 0 <= k < |q| - 1 ensures DependsOn(reg[q[k]], q[k + 1]) {
      assert DependsOn(reg[p[i + k]], p[i + k + 1]);
    }
    assert LoosePath(reg, q);
  }

  lemma {:induction false} DistinctBound(p: seq<string>, names: set<string>)
    requires forall i, j :: 0 <= i < j < |p| ==> p[i] != p[j]
    requires forall i :: 0 <= i < |p| ==> p[i] in names
    ensures |p| <= |names|
  {
    if p != [] {
      var rest := p[..|p| - 1];
      DistinctBound(rest, names - {p[|p| - 1]});
    }
  }

  lemma ChainBound(reg: Registry, p: seq<string>)
    requires LooseAcyclic(reg) && LoosePath(reg, p)
    ensures |p| <= |reg.Keys|
  {
    forall i, j | 0 <= i < j < |p| ensures p[i] != p[j] {
      ChainDistinct(reg, p, i, j);
    }
    DistinctBound(p, reg.Keys);
  }

  /** Following a chain backwards ends, because the registry is finite, at a module nothing names. */
  lemma {:induction false} Topmost(reg: Registry, p: seq<string>) returns (top: string)
    requires Drainable(reg) && LoosePath(reg, p)
    ensures Loose(reg, top) && !HasDependents(reg, top)
    decreases |reg.Keys| - |p|
  {
    top := p[0];
    if HasDependents(reg, top) {
      var k :| k in reg && DependsOn(reg[k], top);
      var longer := [k] + p;
      forall i | 0 <= i < |longer| - 1 ensures DependsOn(reg[longer[i]], longer[i + 1]) {
        assert i > 0 ==> DependsOn(reg[p[i - 1]], p[i]);
      }
      assert LoosePath(reg, longer);
      ChainBound(reg, longer);
      top := Topmost(reg, longer);
    }
  }

  lemma RemovalKeepsDrainable(reg: Registry, name: string)
    requires Drainable(reg)
    ensures Drainable(Remove(reg, name).0)
  {
    var reg' := Remove(reg, name).0;
    assert forall k :: k in reg' ==> k in reg && reg'[k] == reg[k] && (Loose(reg', k) <==> Loose(reg, k));
    assert forall k :: Loose(reg', k) ==> k in reg';
    forall p | LoosePath(reg', p) ensures LoosePath(reg, p) {
    }
  }

  /** Until only built-ins remain some module can be removed, and what is left can be drained too. */
  lemma SomeRemovable(reg: Registry) returns (name: string)
    requires Drainable(reg) && !OnlyBuiltins(reg)
    ensures Remove(reg, name).1.Ok? && Drainable(Remove(reg, name).0)
  {
    var k :| k in reg && !reg[k].state.Builtin?;
    assert LoosePath(reg, [k]);
    name := Topmost(reg, [k]);
    RemovalKeepsDrainable(reg, name);
  }

  lemma {:induction false} DrainableDrains(reg: Registry) returns (names: seq<string>)
    requires Drainable(reg)
    ensures Drains(reg, names)
    decreases |reg|
  {
    if OnlyBuiltins(reg) {
      names := [];
    } else {
      var name := SomeRemovable(reg);
      var reg' := Remove(reg, name).0;
      assert reg'.Keys == reg.Keys - {name};
      assert |reg'| == |reg'.Keys| && |reg| == |reg.Keys|;
      var rest := DrainableDrains(reg');
      names := [name] + rest;
      assert names[1..] == rest;
    }
  }

  /** Every non-built-in module can be unloaded, one at a time, exactly when each is unreferenced, no built-in names
      one, and their dependencies, soft ones included, form no cycle. */
  lemma DrainExactly(reg: Registry)
    ensures CanDrain(reg) <==> Drainable(reg)
  {
    if CanDrain(reg) {
      var names :| Drains(reg, names);
      DrainedWasDrainable(reg, names);
    }
    if Drainable(reg) {
      var names := DrainableDrains(reg);
    }
  }

  /** In a reachable registry with hard dependencies only and no references, one condition is left. */
  lemma HardDrainExactly(ops: seq<Op>)
    requires forall k, i :: k in Play(ops) && 0 <= i < |Play(ops)[k].deps| ==> Play(ops)[k].deps[i].hard
    requires forall k :: Loose(Play(ops), k) ==> Play(ops)[k].refCount == 0
    ensures CanDrain(Play(ops)) <==>
            forall k, d :: k in Play(ops) && Loose(Play(ops), d) && DependsOn(Play(ops)[k], d) ==> Loose(Play(ops), k)
  {
    var reg := Play(ops);
    RunSound(ops);
    DrainExactly(reg);
    forall p | LoosePath(reg, p) && |p| >= 2 ensures p[0] != p[|p| - 1] {
      HardChain(reg, p);
    }
  }

  lemma HardChain(reg: Registry, p: seq<string>)
    requires LoosePath(reg, p) && forall k, i :: k in reg && 0 <= i < |reg[k].deps| ==> reg[k].deps[i].hard
    ensures Path(reg, p)
  {
    forall j | 0 <= j < |p| - 1 ensures p[j + 1] in HardDeps(reg[p[j]]) {
      assert DependsOn(reg[p[j]], p[j + 1]);
      var i :| 0 <= i < |reg[p[j]].deps| && reg[p[j]].deps[i].name == p[j + 1];
      assert reg[p[j]].deps[i].hard;
    }
  }

  /** A module inserted as built-in may depend on a removable one, which then stays for good. */
  lemma BuiltinPins()
    ensures
      var a := Module("a", Live, [], 0);
      var b := Module("b", Builtin, [Dep("a", true)], 1);
      var reg := Play([Insmod(a, true), Insmod(b, true)]);
      reg == map["a" := a, "b" := b] && !CanDrain(reg)
  {
    var a := Module("a", Live, [], 0);
    var b := Module("b", Builtin, [Dep("a", true)], 1);
    TwoOps(Insmod(a, true), Insmod(b, true));
    var reg := Play([Insmod(a, true), Insmod(b, true)]);
    assert b.deps[1..] == [];
    assert reg == map["a" := a, "b" := b];
    assert DependsOn(b, "a") by {
      assert b.deps[0].name == "a";
    }
    assert Loose(reg, "a") && !Loose(reg, "b");
    DrainExactly(reg);
  }

  /** A module with a soft dependency on itself can be inserted and never removed. */
  lemma SoftSelfPins()
    ensures
      var a := Module("a", Live, [Dep("a", false)], 0);
      var reg := Play([Insmod(a, true)]);
      reg == map["a" := a] && Remove(reg, "a").1 == Err(DependedUpon) && !CanDrain(reg)
  {
    var a := Module("a", Live, [Dep("a", false)], 0);
    OneOp(Insmod(a, true));
    var reg := Play([Insmod(a, true)]);
    assert a.deps[1..] == [];
    assert reg == map["a" := a];
    assert DependsOn(a, "a") by {
      assert a.deps[0].name == "a";
    }
    assert LoosePath(reg, ["a", "a"]);
    DrainExactly(reg);
  }

  lemma OneOp(op: Op)
    ensures Play([op]) == Apply(map[], op)
  {
    assert [op][..0] == [];
  }

  lemma TwoOps(first: Op, second: Op)
    ensures Play([first, second]) == Apply(Apply(map[], first), second)
  {
    assert [first, second][..1] == [first];
    OneOp(first);
  }
}
