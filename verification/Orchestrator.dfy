/** The sandbox orchestrator: spawns reserve an address under the registry lock, build a TAP interface and a VM
    outside it, and commit or abort; teardowns stop the VM, drop it from the registry, and then delete its TAP.
    The name of a TAP is an arbitrary function of the VM id: two ids may share a name. */
module Orchestrator {
  import opened Addresses
  import opened Options

  type VmId = string

  /** Which spawn made the entry tells apart VMs that use the same id one after the other. */
  datatype Entry = Entry(ip: string, spawn: nat, tap: Option<string>)

  datatype SpawnAt = Reserved | Checked | Created | Deleting | Found | Aborting

  datatype Spawn = Spawn(vm: VmId, index: nat, at: SpawnAt)

  datatype TearAt = Stopping | Removing | Finding

  /** What the look-up found; an entry made by a spawn that has not returned has no machine to stop. */
  datatype Teardown = Teardown(vm: VmId, spawn: nat, tap: string, machine: bool, at: TearAt)

  /** Who holds a TAP that a spawn created. */
  datatype Holder = BySpawn | ByVm(vm: VmId) | ByTeardown(id: nat)

  datatype Owner = Owner(spawn: nat, holder: Holder)

  datatype State = State(
    registry: map<VmId, Entry>,
    spawns: map<nat, Spawn>,
    teardowns: map<nat, Teardown>,
    interfaces: set<string>,       // what exists on the host
    owner: map<string, Owner>,     // history: for which spawn each TAP was created, and who holds it now
    next: nat,
    up: bool)                      // false once the server has crashed

  datatype Action =
    | Reserve(vm: VmId)
    | CheckTap(p: nat)
    | CheckFails(p: nat)
    | AddTap(p: nat)
    | AddFails(p: nat)
    | SpawnFails(p: nat)        // attaching, bringing up, disk, or boot failed
    | FindOwn(p: nat)
    | DeleteOwn(p: nat)
    | Unreserve(p: nat)
    | CommitVm(p: nat)
    | TearLookup(t: nat, vm: VmId)
    | Crash(t: nat)             // the stop of a machine that is not there
    | StopFails(t: nat)
    | Unregister(t: nat)
    | FindTap(t: nat)
    | DeleteTap(t: nat)

  function HeldAddresses(registry: map<VmId, Entry>): set<string> {
    set vm | vm in registry :: registry[vm].ip
  }

  function Allocate(s: State): Option<nat> { LeastFree(UsedBy(HeldAddresses(s.registry)), FIRST_INDEX) }

  /** A teardown that may still drop its VM. */
  predicate Dropping(td: Teardown) { td.at.Stopping? && td.machine }

  predicate Enabled(s: State, a: Action, tapOf: VmId -> string) {
    s.up &&
    match a
    case Reserve(vm) => vm !in s.registry && Allocate(s).Some? && GenerateIPFromIndex(Allocate(s).value).Some?
    case CheckTap(p) => p in s.spawns && s.spawns[p].at.Reserved?
    case CheckFails(p) => p in s.spawns && s.spawns[p].at.Reserved?
    case AddTap(p) => p in s.spawns && s.spawns[p].at.Checked? && tapOf(s.spawns[p].vm) !in s.interfaces
    case AddFails(p) => p in s.spawns && s.spawns[p].at.Checked?
    case SpawnFails(p) => p in s.spawns && s.spawns[p].at.Created?
    case FindOwn(p) => p in s.spawns && s.spawns[p].at.Deleting?
    case DeleteOwn(p) => p in s.spawns && s.spawns[p].at.Found?
    case Unreserve(p) => p in s.spawns && s.spawns[p].at.Aborting?
    case CommitVm(p) => p in s.spawns && s.spawns[p].at.Created?
    case TearLookup(t, vm) => t !in s.teardowns && vm in s.registry
    case Crash(t) => t in s.teardowns && s.teardowns[t].at.Stopping? && !s.teardowns[t].machine
    case StopFails(t) => t in s.teardowns && Dropping(s.teardowns[t])
    case Unregister(t) => t in s.teardowns && Dropping(s.teardowns[t])
    case FindTap(t) => t in s.teardowns && s.teardowns[t].at.Removing?
    case DeleteTap(t) => t in s.teardowns && s.teardowns[t].at.Finding?
  }

  /** An active VM is not looked up for teardown while another teardown of it is under way. */
  predicate Orderly(s: State, a: Action) {
    a.TearLookup? && a.vm in s.registry && s.registry[a.vm].tap.Some? ==>
      forall t | t in s.teardowns && Dropping(s.teardowns[t]) :: s.teardowns[t].vm != a.vm
  }

  function SetAt(s: State, p: nat, at: SpawnAt): State
    requires p in s.spawns
  {
    s.(spawns := s.spawns[p := s.spawns[p].(at := at)])
  }

  function SetTear(s: State, t: nat, at: TearAt): State
    requires t in s.teardowns
  {
    s.(teardowns := s.teardowns[t := s.teardowns[t].(at := at)])
  }

  function Apply(s: State, a: Action, tapOf: VmId -> string): State
    requires Enabled(s, a, tapOf)
  {
    match a
    case Reserve(vm) =>
      var index := Allocate(s).value;
      s.(registry := s.registry[vm := Entry(GenerateIPFromIndex(index).value, s.next, None)],
         spawns := s.spawns[s.next := Spawn(vm, index, Reserved)], next := s.next + 1)
    case CheckTap(p) => SetAt(s, p, if tapOf(s.spawns[p].vm) in s.interfaces then Aborting else Checked)
    case CheckFails(p) => SetAt(s, p, Aborting)
    case AddTap(p) =>
      var tap := tapOf(s.spawns[p].vm);
      SetAt(s, p, Created).(interfaces := s.interfaces + {tap}, owner := s.owner[tap := Owner(p, BySpawn)])
    case AddFails(p) => SetAt(s, p, Aborting)
    case SpawnFails(p) => SetAt(s, p, Deleting)
    case FindOwn(p) => SetAt(s, p, if tapOf(s.spawns[p].vm) in s.interfaces then Found else Aborting)
    case DeleteOwn(p) =>
      var tap := tapOf(s.spawns[p].vm);
      SetAt(s, p, Aborting).(interfaces := s.interfaces - {tap}, owner := s.owner - {tap})
    case Unreserve(p) => s.(registry := s.registry - {s.spawns[p].vm}, spawns := s.spawns - {p})
    case CommitVm(p) =>
      var sp := s.spawns[p];
      var tap := tapOf(sp.vm);
      s.(registry := s.registry[sp.vm := Entry(GenerateIPFromIndex(sp.index).GetOr(""), p, Some(tap))],
         spawns := s.spawns - {p},
         owner := s.owner[tap := Owner(p, ByVm(sp.vm))])
    case TearLookup(t, vm) =>
      var e := s.registry[vm];
      s.(teardowns := s.teardowns[t := Teardown(vm, e.spawn, e.tap.GetOr(""), e.tap.Some?, Stopping)])
    case Crash(_) => s.(up := false)
    case StopFails(t) => s.(teardowns := s.teardowns - {t})
    case Unregister(t) =>
      var td := s.teardowns[t];
      SetTear(s, t, Removing).(registry := s.registry - {td.vm},
                               owner := if td.tap in s.owner then s.owner[td.tap := s.owner[td.tap].(holder := ByTeardown(t))]
                                        else s.owner)
    case FindTap(t) =>
      if s.teardowns[t].tap in s.interfaces then SetTear(s, t, Finding) else s.(teardowns := s.teardowns - {t})
    case DeleteTap(t) =>
      var tap := s.teardowns[t].tap;
      s.(teardowns := s.teardowns - {t}, interfaces := s.interfaces - {tap}, owner := s.owner - {tap})
  }

  // ---------------------------------------------------------------- the invariant

  ghost predicate InRange(ip: string) {
    IndexOfIP(ip).Some? && 2 <= IndexOfIP(ip).value <= 254
  }

  /** Registered addresses, tentative ones included, are in range and pairwise distinct by index. */
  ghost predicate AddressesOk(registry: map<VmId, Entry>) {
    && (forall vm | vm in registry :: InRange(registry[vm].ip))
    && (forall v, w | v in registry && w in registry && v != w ::
          IndexOfIP(registry[v].ip) != IndexOfIP(registry[w].ip))
  }

  /** Tentative entries and spawns in flight are the same thing. */
  ghost predicate SpawnsOk(s: State, tapOf: VmId -> string) {
    && (forall p | p in s.spawns ::
          && p < s.next && s.spawns[p].vm in s.registry
          && s.registry[s.spawns[p].vm] == Entry(GenerateIPFromIndex(s.spawns[p].index).GetOr(""), p, None))
    && (forall vm | vm in s.registry :: s.registry[vm].spawn < s.next)
    && (forall vm | vm in s.registry ::
          if s.registry[vm].tap.None? then s.registry[vm].spawn in s.spawns && s.spawns[s.registry[vm].spawn].vm == vm
          else s.registry[vm].tap == Some(tapOf(vm)))
  }

  /** A teardown that may still drop its VM is the only one, and its VM is still the one it looked up. */
  ghost predicate TeardownsOk(s: State, tapOf: VmId -> string) {
    && (forall t | t in s.teardowns && Dropping(s.teardowns[t]) ::
          var td := s.teardowns[t];
          td.vm in s.registry && s.registry[td.vm].spawn == td.spawn && s.registry[td.vm].tap == Some(td.tap))
    && (forall t, u | t in s.teardowns && u in s.teardowns && t != u
                      && Dropping(s.teardowns[t]) && Dropping(s.teardowns[u]) ::
          s.teardowns[t].vm != s.teardowns[u].vm)
  }

  predicate HoldsTap(at: SpawnAt) { at.Created? || at.Deleting? || at.Found? }

  /** Whoever should hold a TAP holds it. */
  ghost predicate HoldersOk(s: State, tapOf: VmId -> string) {
    && (forall p | p in s.spawns && HoldsTap(s.spawns[p].at) ::
          var tap := tapOf(s.spawns[p].vm); tap in s.owner && s.owner[tap] == Owner(p, BySpawn))
    && (forall vm | vm in s.registry && s.registry[vm].tap.Some? ::
          var tap := tapOf(vm); tap in s.owner && s.owner[tap] == Owner(s.registry[vm].spawn, ByVm(vm)))
    && (forall t | t in s.teardowns && !s.teardowns[t].at.Stopping? ::
          var td := s.teardowns[t]; td.tap in s.owner && s.owner[td.tap] == Owner(td.spawn, ByTeardown(t)))
  }

  /** The TAPs on the host are the ones held, and each has a holder; other interfaces are left alone. */
  ghost predicate OwnedOk(s: State, tapOf: VmId -> string, foreign: set<string>) {
    && s.interfaces == foreign + s.owner.Keys && foreign !! s.owner.Keys
    && (forall n | n in s.owner :: Backed(s, tapOf, n, s.owner[n]))
  }

  ghost predicate Backed(s: State, tapOf: VmId -> string, n: string, o: Owner) {
    match o.holder
    case BySpawn => o.spawn in s.spawns && HoldsTap(s.spawns[o.spawn].at) && tapOf(s.spawns[o.spawn].vm) == n
    case ByVm(vm) => vm in s.registry && s.registry[vm].tap == Some(n)
    case ByTeardown(t) => t in s.teardowns && !s.teardowns[t].at.Stopping? && s.teardowns[t].tap == n
  }

  ghost predicate Inv(s: State, tapOf: VmId -> string, foreign: set<string>) {
    && AddressesOk(s.registry) && SpawnsOk(s, tapOf) && TeardownsOk(s, tapOf)
    && HoldersOk(s, tapOf) && OwnedOk(s, tapOf, foreign)
  }

  function Init(foreign: set<string>): State { State(map[], map[], map[], foreign, map[], 0, true) }

  // ---------------------------------------------------------------- every orderly step

  datatype Part = Building | Ending | Tearing

  /** Which part of the protocol a step belongs to. */
  function PartOf(a: Action): Part {
    match a
    case CommitVm(_) => Ending
    case Unreserve(_) => Ending
    case DeleteOwn(_) => Ending
    case TearLookup(_, _) => Tearing
    case Crash(_) => Tearing
    case StopFails(_) => Tearing
    case Unregister(_) => Tearing
    case FindTap(_) => Tearing
    case DeleteTap(_) => Tearing
    case _ => Building
  }

  /** Reserving takes the least index that no registered VM has. */
  lemma ReserveFresh(s: State, vm: VmId, tapOf: VmId -> string)
    requires AddressesOk(s.registry) && Enabled(s, Reserve(vm), tapOf)
    ensures var k := Allocate(s).value;
            && 2 <= k <= 254 && IndexOfIP(GenerateIPFromIndex(k).value) == Some(k)
            && (forall w | w in s.registry :: IndexOfIP(s.registry[w].ip) != Some(k))
            && (forall j | 2 <= j < k :: exists w :: w in s.registry && IndexOfIP(s.registry[w].ip) == Some(j))
  {
    var used := UsedBy(HeldAddresses(s.registry));
    var k := Allocate(s).value;
    LeastFreeIs(used, FIRST_INDEX);
    AddressReadBack(k);
    forall w | w in s.registry ensures IndexOfIP(s.registry[w].ip) != Some(k) {
      assert s.registry[w].ip in HeldAddresses(s.registry);
    }
    forall j | 2 <= j < k ensures exists w :: w in s.registry && IndexOfIP(s.registry[w].ip) == Some(j) {
      assert j in used;
      var ip :| ip in HeldAddresses(s.registry) && IndexOfIP(ip) == Some(j);
      var w :| w in s.registry && s.registry[w].ip == ip;
    }
  }

  lemma AddressesKept(before: map<VmId, Entry>, after: map<VmId, Entry>)
    requires AddressesOk(before)
    requires forall vm | vm in after :: vm in before && after[vm].ip == before[vm].ip
    ensures AddressesOk(after)
  {
    hide IndexOfIP;
  }

  lemma ReserveAddresses(s: State, vm: VmId, tapOf: VmId -> string)
    requires AddressesOk(s.registry) && Enabled(s, Reserve(vm), tapOf)
    ensures AddressesOk(Apply(s, Reserve(vm), tapOf).registry)
  {
    hide Allocate, GenerateIPFromIndex, IndexOfIP;
    ReserveFresh(s, vm, tapOf);
  }

  lemma StepAddresses(s: State, a: Action, tapOf: VmId -> string)
    requires AddressesOk(s.registry) && SpawnsOk(s, tapOf) && Enabled(s, a, tapOf)
    ensures AddressesOk(Apply(s, a, tapOf).registry)
  {
    hide Allocate, GenerateIPFromIndex, AddressesOk;
    if a.Reserve? {
      ReserveAddresses(s, a.vm, tapOf);
    } else if a.CommitVm? {
      assert s.registry[s.spawns[a.p].vm].ip == Apply(s, a, tapOf).registry[s.spawns[a.p].vm].ip;
      hide SpawnsOk;
      AddressesKept(s.registry, Apply(s, a, tapOf).registry);
    } else {
      hide SpawnsOk;
      AddressesKept(s.registry, Apply(s, a, tapOf).registry);
    }
  }

  lemma SpawnsEnding(s: State, a: Action, tapOf: VmId -> string)
    requires SpawnsOk(s, tapOf) && TeardownsOk(s, tapOf) && Enabled(s, a, tapOf) && PartOf(a).Ending?
    ensures SpawnsOk(Apply(s, a, tapOf), tapOf)
  {
    hide SpawnsOk, TeardownsOk, Allocate, GenerateIPFromIndex;
    match a {
      case CommitVm(p) => SpawnsCommit(s, p, tapOf);
      case Unreserve(p) => SpawnsUnreserve(s, p, tapOf);
      case DeleteOwn(p) => SpawnsDeleteOwn(s, p, tapOf);
    }
  }

  lemma OneSpawnEach(s: State, p: nat, tapOf: VmId -> string)
    requires SpawnsOk(s, tapOf) && p in s.spawns
    ensures forall q | q in s.spawns && q != p :: s.spawns[q].vm != s.spawns[p].vm
  {
    hide GenerateIPFromIndex;
  }

  lemma SpawnsCommit(s: State, p: nat, tapOf: VmId -> string)
    requires SpawnsOk(s, tapOf) && Enabled(s, CommitVm(p), tapOf)
    ensures SpawnsOk(Apply(s, CommitVm(p), tapOf), tapOf)
  {
    hide Allocate, GenerateIPFromIndex;
    OneSpawnEach(s, p, tapOf);
  }

  lemma SpawnsUnreserve(s: State, p: nat, tapOf: VmId -> string)
    requires SpawnsOk(s, tapOf) && Enabled(s, Unreserve(p), tapOf)
    ensures SpawnsOk(Apply(s, Unreserve(p), tapOf), tapOf)
  {
    hide Allocate, GenerateIPFromIndex;
    OneSpawnEach(s, p, tapOf);
  }

  lemma SpawnsDeleteOwn(s: State, p: nat, tapOf: VmId -> string)
    requires SpawnsOk(s, tapOf) && Enabled(s, DeleteOwn(p), tapOf)
    ensures SpawnsOk(Apply(s, DeleteOwn(p), tapOf), tapOf)
  {
    hide Allocate, GenerateIPFromIndex;
  }

  lemma SpawnsTearing(s: State, a: Action, tapOf: VmId -> string)
    requires SpawnsOk(s, tapOf) && TeardownsOk(s, tapOf) && Enabled(s, a, tapOf) && PartOf(a).Tearing?
    ensures SpawnsOk(Apply(s, a, tapOf), tapOf)
  {
    hide Allocate, GenerateIPFromIndex;
  }

  lemma StepTeardowns(s: State, a: Action, tapOf: VmId -> string)
    requires SpawnsOk(s, tapOf) && TeardownsOk(s, tapOf) && Enabled(s, a, tapOf) && Orderly(s, a)
    ensures TeardownsOk(Apply(s, a, tapOf), tapOf)
  {
    hide Allocate, GenerateIPFromIndex, HoldsTap;
    if !PartOf(a).Tearing? {
      TeardownsOther(s, a, tapOf);
    }
  }

  /** Entries of active VMs are as they were. */
  ghost predicate ActiveSame(before: map<VmId, Entry>, after: map<VmId, Entry>) {
    forall vm | vm in before && before[vm].tap.Some? :: vm in after && after[vm] == before[vm]
  }

  /** Spawns touch no entry that is active. */
  lemma TeardownsOther(s: State, a: Action, tapOf: VmId -> string)
    requires SpawnsOk(s, tapOf) && TeardownsOk(s, tapOf) && Enabled(s, a, tapOf) && !PartOf(a).Tearing?
    ensures TeardownsOk(Apply(s, a, tapOf), tapOf)
  {
    hide SpawnsOk, Allocate, GenerateIPFromIndex, HoldsTap, TeardownsOk, ActiveSame;
    var r, r' := s.registry, Apply(s, a, tapOf).registry;
    match a {
      case Reserve(vm) => ActiveElsewhere(r, vm, r');
      case CommitVm(p) =>
        Tentative(s, p, tapOf);
        ActiveElsewhere(r, s.spawns[p].vm, r');
      case Unreserve(p) =>
        Tentative(s, p, tapOf);
        ActiveElsewhere(r, s.spawns[p].vm, r');
      case _ => ActiveElsewhere(r, "", r);
    }
    TeardownsKept(s, Apply(s, a, tapOf), tapOf);
  }

  lemma Tentative(s: State, p: nat, tapOf: VmId -> string)
    requires SpawnsOk(s, tapOf) && p in s.spawns
    ensures s.spawns[p].vm in s.registry && s.registry[s.spawns[p].vm].tap.None?
  {
  }

  lemma ActiveElsewhere(before: map<VmId, Entry>, vm: VmId, after: map<VmId, Entry>)
    requires before - {vm} == after - {vm} && (vm in before && before[vm].tap.Some? ==> after == before)
    ensures ActiveSame(before, after)
  {
    forall v | v in before && v != vm ensures v in after && after[v] == before[v] {
      assert v in (before - {vm}) && v in (after - {vm});
      assert (before - {vm})[v] == (after - {vm})[v];
    }
  }

  lemma TeardownsKept(s: State, t: State, tapOf: VmId -> string)
    requires TeardownsOk(s, tapOf) && t.teardowns == s.teardowns && ActiveSame(s.registry, t.registry)
    ensures TeardownsOk(t, tapOf)
  {
  }

  /** A spawn that moves on without gaining or losing its TAP. */
  lemma MoveKeeps(s: State, p: nat, at: SpawnAt, tapOf: VmId -> string, foreign: set<string>)
    requires SpawnsOk(s, tapOf) && HoldersOk(s, tapOf) && OwnedOk(s, tapOf, foreign)
    requires p in s.spawns && HoldsTap(at) == HoldsTap(s.spawns[p].at)
    ensures var t := SetAt(s, p, at); SpawnsOk(t, tapOf) && HoldersOk(t, tapOf) && OwnedOk(t, tapOf, foreign)
  {
    hide *;
    MoveSpawns(s, p, at, tapOf);
    MoveHolders(s, p, at, tapOf);
    MoveOwned(s, p, at, tapOf, foreign);
  }

  lemma MoveSpawns(s: State, p: nat, at: SpawnAt, tapOf: VmId -> string)
    requires SpawnsOk(s, tapOf) && p in s.spawns
    ensures SpawnsOk(SetAt(s, p, at), tapOf)
  {
    hide GenerateIPFromIndex;
  }

  lemma MoveHolders(s: State, p: nat, at: SpawnAt, tapOf: VmId -> string)
    requires HoldersOk(s, tapOf) && p in s.spawns && HoldsTap(at) == HoldsTap(s.spawns[p].at)
    ensures HoldersOk(SetAt(s, p, at), tapOf)
  {
    hide HoldsTap;
  }

  lemma MoveOwned(s: State, p: nat, at: SpawnAt, tapOf: VmId -> string, foreign: set<string>)
    requires OwnedOk(s, tapOf, foreign) && p in s.spawns && HoldsTap(at) == HoldsTap(s.spawns[p].at)
    ensures OwnedOk(SetAt(s, p, at), tapOf, foreign)
  {
    hide HoldsTap;
  }

  lemma ReserveSpawns(s: State, vm: VmId, tapOf: VmId -> string)
    requires SpawnsOk(s, tapOf) && Enabled(s, Reserve(vm), tapOf)
    ensures SpawnsOk(Apply(s, Reserve(vm), tapOf), tapOf)
  {
    hide Allocate, GenerateIPFromIndex;
  }

  lemma ReserveOwners(s: State, vm: VmId, tapOf: VmId -> string, foreign: set<string>)
    requires SpawnsOk(s, tapOf) && HoldersOk(s, tapOf) && OwnedOk(s, tapOf, foreign) && Enabled(s, Reserve(vm), tapOf)
    ensures var t := Apply(s, Reserve(vm), tapOf); HoldersOk(t, tapOf) && OwnedOk(t, tapOf, foreign)
  {
    assert s.next !in s.spawns;
    hide SpawnsOk, HoldersOk, OwnedOk, Allocate, GenerateIPFromIndex;
    ReserveHolders(s, vm, tapOf);
    ReserveOwned(s, vm, tapOf, foreign);
  }

  lemma ReserveHolders(s: State, vm: VmId, tapOf: VmId -> string)
    requires s.next !in s.spawns && HoldersOk(s, tapOf) && Enabled(s, Reserve(vm), tapOf)
    ensures HoldersOk(Apply(s, Reserve(vm), tapOf), tapOf)
  {
    hide Allocate, GenerateIPFromIndex;
  }

  lemma ReserveOwned(s: State, vm: VmId, tapOf: VmId -> string, foreign: set<string>)
    requires s.next !in s.spawns && OwnedOk(s, tapOf, foreign) && Enabled(s, Reserve(vm), tapOf)
    ensures OwnedOk(Apply(s, Reserve(vm), tapOf), tapOf, foreign)
  {
    hide Allocate, GenerateIPFromIndex;
  }

  lemma AddTapSpawns(s: State, p: nat, tapOf: VmId -> string)
    requires SpawnsOk(s, tapOf) && Enabled(s, AddTap(p), tapOf)
    ensures SpawnsOk(Apply(s, AddTap(p), tapOf), tapOf)
  {
    hide Allocate, GenerateIPFromIndex;
  }

  lemma BuildingKeeps(s: State, a: Action, tapOf: VmId -> string, foreign: set<string>)
    requires Inv(s, tapOf, foreign) && Enabled(s, a, tapOf) && PartOf(a).Building?
    ensures var t := Apply(s, a, tapOf); SpawnsOk(t, tapOf) && HoldersOk(t, tapOf) && OwnedOk(t, tapOf, foreign)
  {
    hide AddressesOk, SpawnsOk, TeardownsOk, HoldersOk, OwnedOk, Allocate, GenerateIPFromIndex;
    match a {
      case Reserve(vm) =>
        ReserveSpawns(s, vm, tapOf);
        ReserveOwners(s, vm, tapOf, foreign);
      case AddTap(p) =>
        AddTapSpawns(s, p, tapOf);
        AddTapKeeps(s, p, tapOf, foreign);
      case CheckTap(p) => MoveKeeps(s, p, Apply(s, a, tapOf).spawns[p].at, tapOf, foreign);
      case CheckFails(p) => MoveKeeps(s, p, Aborting, tapOf, foreign);
      case AddFails(p) => MoveKeeps(s, p, Aborting, tapOf, foreign);
      case SpawnFails(p) => MoveKeeps(s, p, Deleting, tapOf, foreign);
      case FindOwn(p) =>
        HeldExists(s, p, tapOf, foreign);
        MoveKeeps(s, p, Found, tapOf, foreign);
    }
  }

  lemma HeldExists(s: State, p: nat, tapOf: VmId -> string, foreign: set<string>)
    requires HoldersOk(s, tapOf) && OwnedOk(s, tapOf, foreign) && p in s.spawns && HoldsTap(s.spawns[p].at)
    ensures tapOf(s.spawns[p].vm) in s.interfaces
  {
  }

  /** A TAP that was just created is nobody else's. */
  lemma AddTapKeeps(s: State, p: nat, tapOf: VmId -> string, foreign: set<string>)
    requires Inv(s, tapOf, foreign) && Enabled(s, AddTap(p), tapOf)
    ensures HoldersOk(Apply(s, AddTap(p), tapOf), tapOf) && OwnedOk(Apply(s, AddTap(p), tapOf), tapOf, foreign)
  {
    assert tapOf(s.spawns[p].vm) !in s.owner && tapOf(s.spawns[p].vm) !in foreign;
    assert forall q | q in s.spawns && q != p :: s.spawns[q].vm != s.spawns[p].vm by { OneSpawnEach(s, p, tapOf); }
    hide SpawnsOk, HoldersOk, OwnedOk, Allocate, GenerateIPFromIndex, AddressesOk, TeardownsOk;
    AddTapHolders(s, p, tapOf);
    AddTapOwned(s, p, tapOf, foreign);
  }

  lemma AddTapHolders(s: State, p: nat, tapOf: VmId -> string)
    requires HoldersOk(s, tapOf) && Enabled(s, AddTap(p), tapOf) && tapOf(s.spawns[p].vm) !in s.owner
    ensures HoldersOk(Apply(s, AddTap(p), tapOf), tapOf)
  {
    hide Allocate, GenerateIPFromIndex;
  }

  lemma AddTapOwned(s: State, p: nat, tapOf: VmId -> string, foreign: set<string>)
    requires OwnedOk(s, tapOf, foreign) && Enabled(s, AddTap(p), tapOf) && tapOf(s.spawns[p].vm) !in s.owner
    ensures OwnedOk(Apply(s, AddTap(p), tapOf), tapOf, foreign)
  {
    hide Allocate, GenerateIPFromIndex;
  }

  lemma HoldersEnding(s: State, a: Action, tapOf: VmId -> string, foreign: set<string>)
    requires Inv(s, tapOf, foreign) && Enabled(s, a, tapOf) && PartOf(a).Ending?
    ensures HoldersOk(Apply(s, a, tapOf), tapOf)
  {
    hide SpawnsOk, HoldersOk, OwnedOk, Allocate, GenerateIPFromIndex, AddressesOk, TeardownsOk;
    match a {
      case CommitVm(p) => HoldersCommit(s, p, tapOf);
      case Unreserve(p) => HoldersUnreserve(s, p, tapOf);
      case DeleteOwn(p) => HoldersDeleteOwn(s, p, tapOf);
    }
  }

  lemma HoldersCommit(s: State, p: nat, tapOf: VmId -> string)
    requires HoldersOk(s, tapOf) && Enabled(s, CommitVm(p), tapOf)
    ensures HoldersOk(Apply(s, CommitVm(p), tapOf), tapOf)
  {
    hide GenerateIPFromIndex;
  }

  lemma HoldersUnreserve(s: State, p: nat, tapOf: VmId -> string)
    requires HoldersOk(s, tapOf) && Enabled(s, Unreserve(p), tapOf)
    ensures HoldersOk(Apply(s, Unreserve(p), tapOf), tapOf)
  {
  }

  lemma HoldersDeleteOwn(s: State, p: nat, tapOf: VmId -> string)
    requires HoldersOk(s, tapOf) && Enabled(s, DeleteOwn(p), tapOf)
    ensures HoldersOk(Apply(s, DeleteOwn(p), tapOf), tapOf)
  {
  }

  lemma HoldersTearing(s: State, a: Action, tapOf: VmId -> string, foreign: set<string>)
    requires Inv(s, tapOf, foreign) && Enabled(s, a, tapOf) && PartOf(a).Tearing?
    ensures HoldersOk(Apply(s, a, tapOf), tapOf)
  {
    hide SpawnsOk, HoldersOk, OwnedOk, Allocate, GenerateIPFromIndex, AddressesOk, TeardownsOk;
    if a.Unregister? {
      StoppingHolds(s, a.t, tapOf, foreign);
      HoldersUnregister(s, a.t, tapOf);
    } else if a.DeleteTap? {
      HoldersDelete(s, a.t, tapOf);
    } else {
      HoldersMoved(s, Apply(s, a, tapOf), tapOf);
    }
  }

  lemma HoldersUnregister(s: State, t: nat, tapOf: VmId -> string)
    requires HoldersOk(s, tapOf) && Enabled(s, Unregister(t), tapOf)
    requires var td := s.teardowns[t]; td.tap in s.owner && s.owner[td.tap] == Owner(td.spawn, ByVm(td.vm))
    ensures HoldersOk(Apply(s, Unregister(t), tapOf), tapOf)
  {
  }

  lemma HoldersDelete(s: State, t: nat, tapOf: VmId -> string)
    requires HoldersOk(s, tapOf) && Enabled(s, DeleteTap(t), tapOf)
    ensures HoldersOk(Apply(s, DeleteTap(t), tapOf), tapOf)
  {
  }

  /** Teardowns come and go, but none comes to hold a TAP. */
  lemma HoldersMoved(s: State, s': State, tapOf: VmId -> string)
    requires HoldersOk(s, tapOf) && s' == s.(teardowns := s'.teardowns, up := s'.up)
    requires forall t | t in s'.teardowns && !s'.teardowns[t].at.Stopping? ::
               t in s.teardowns && !s.teardowns[t].at.Stopping?
               && s'.teardowns[t].tap == s.teardowns[t].tap && s'.teardowns[t].spawn == s.teardowns[t].spawn
    ensures HoldersOk(s', tapOf)
  {
  }

  lemma OwnedEnding(s: State, a: Action, tapOf: VmId -> string, foreign: set<string>)
    requires Inv(s, tapOf, foreign) && Enabled(s, a, tapOf) && PartOf(a).Ending?
    ensures OwnedOk(Apply(s, a, tapOf), tapOf, foreign)
  {
    hide AddressesOk, SpawnsOk, TeardownsOk, HoldersOk, OwnedOk, Allocate, GenerateIPFromIndex;
    match a {
      case CommitVm(p) => OwnedCommit(s, p, tapOf, foreign);
      case Unreserve(p) => OwnedUnreserve(s, p, tapOf, foreign);
      case DeleteOwn(p) => OwnedDeleteOwn(s, p, tapOf, foreign);
    }
  }

  lemma OwnedCommit(s: State, p: nat, tapOf: VmId -> string, foreign: set<string>)
    requires Inv(s, tapOf, foreign) && Enabled(s, CommitVm(p), tapOf)
    ensures OwnedOk(Apply(s, CommitVm(p), tapOf), tapOf, foreign)
  {
    hide AddressesOk, SpawnsOk, TeardownsOk, HoldersOk, OwnedOk, GenerateIPFromIndex;
    Tentative(s, p, tapOf);
    HeldOwned(s, p, tapOf);
    CommitOwned(s, p, tapOf, foreign);
  }

  lemma HeldOwned(s: State, p: nat, tapOf: VmId -> string)
    requires HoldersOk(s, tapOf) && p in s.spawns && HoldsTap(s.spawns[p].at)
    ensures tapOf(s.spawns[p].vm) in s.owner
  {
  }

  lemma CommitOwned(s: State, p: nat, tapOf: VmId -> string, foreign: set<string>)
    requires OwnedOk(s, tapOf, foreign) && Enabled(s, CommitVm(p), tapOf)
    requires var vm := s.spawns[p].vm; vm in s.registry && s.registry[vm].tap.None? && tapOf(vm) in s.owner
    ensures OwnedOk(Apply(s, CommitVm(p), tapOf), tapOf, foreign)
  {
    hide GenerateIPFromIndex, HoldsTap;
    var s' := Apply(s, CommitVm(p), tapOf);
    assert s'.owner.Keys == s.owner.Keys;
    forall n | n in s'.owner ensures Backed(s', tapOf, n, s'.owner[n]) {
      if n != tapOf(s.spawns[p].vm) {
        assert Backed(s, tapOf, n, s.owner[n]);
      }
    }
  }

  lemma OwnedUnreserve(s: State, p: nat, tapOf: VmId -> string, foreign: set<string>)
    requires SpawnsOk(s, tapOf) && OwnedOk(s, tapOf, foreign) && Enabled(s, Unreserve(p), tapOf)
    ensures OwnedOk(Apply(s, Unreserve(p), tapOf), tapOf, foreign)
  {
    hide Allocate, GenerateIPFromIndex;
    assert s.registry[s.spawns[p].vm].tap.None?;
  }

  lemma OwnedDeleteOwn(s: State, p: nat, tapOf: VmId -> string, foreign: set<string>)
    requires HoldersOk(s, tapOf) && OwnedOk(s, tapOf, foreign) && Enabled(s, DeleteOwn(p), tapOf)
    ensures OwnedOk(Apply(s, DeleteOwn(p), tapOf), tapOf, foreign)
  {
    hide Allocate, GenerateIPFromIndex;
  }

  lemma OwnedTearing(s: State, a: Action, tapOf: VmId -> string, foreign: set<string>)
    requires Inv(s, tapOf, foreign) && Enabled(s, a, tapOf) && Orderly(s, a) && PartOf(a).Tearing?
    ensures OwnedOk(Apply(s, a, tapOf), tapOf, foreign)
  {
    if a.Unregister? {
      OwnedUnregister(s, a.t, tapOf, foreign);
    } else if a.DeleteTap? {
      OwnedDelete(s, a.t, tapOf, foreign);
    } else {
      if a.FindTap? { TearHeldExists(s, a.t, tapOf, foreign); }
      TeardownsMoved(s, Apply(s, a, tapOf), tapOf, foreign);
    }
  }

  lemma TearHeldExists(s: State, t: nat, tapOf: VmId -> string, foreign: set<string>)
    requires HoldersOk(s, tapOf) && OwnedOk(s, tapOf, foreign) && t in s.teardowns && !s.teardowns[t].at.Stopping?
    ensures s.teardowns[t].tap in s.interfaces
  {
  }

  /** Teardowns come and go, but those that hold a TAP stay. */
  lemma TeardownsMoved(s: State, s': State, tapOf: VmId -> string, foreign: set<string>)
    requires OwnedOk(s, tapOf, foreign) && s' == s.(teardowns := s'.teardowns, up := s'.up)
    requires forall t | t in s.teardowns && !s.teardowns[t].at.Stopping? ::
               t in s'.teardowns && !s'.teardowns[t].at.Stopping? && s'.teardowns[t].tap == s.teardowns[t].tap
    ensures OwnedOk(s', tapOf, foreign)
  {
  }

  lemma StoppingHolds(s: State, t: nat, tapOf: VmId -> string, foreign: set<string>)
    requires Inv(s, tapOf, foreign) && t in s.teardowns && Dropping(s.teardowns[t])
    ensures var td := s.teardowns[t];
            && td.vm in s.registry && s.registry[td.vm].tap == Some(td.tap)
            && td.tap in s.owner && s.owner[td.tap] == Owner(td.spawn, ByVm(td.vm))
            && td.tap == tapOf(td.vm) && td.tap in s.interfaces
  {
    var td := s.teardowns[t];
    assert td.tap == tapOf(td.vm);
  }

  lemma OwnedUnregister(s: State, t: nat, tapOf: VmId -> string, foreign: set<string>)
    requires Inv(s, tapOf, foreign) && Enabled(s, Unregister(t), tapOf)
    ensures OwnedOk(Apply(s, Unregister(t), tapOf), tapOf, foreign)
  {
    hide Allocate, GenerateIPFromIndex, AddressesOk, SpawnsOk, TeardownsOk, HoldersOk;
    StoppingHolds(s, t, tapOf, foreign);
  }

  lemma OwnedDelete(s: State, t: nat, tapOf: VmId -> string, foreign: set<string>)
    requires Inv(s, tapOf, foreign) && Enabled(s, DeleteTap(t), tapOf)
    ensures OwnedOk(Apply(s, DeleteTap(t), tapOf), tapOf, foreign)
  {
    hide Allocate, GenerateIPFromIndex, AddressesOk, SpawnsOk, TeardownsOk;
  }

  lemma StepInv(s: State, a: Action, tapOf: VmId -> string, foreign: set<string>)
    requires Inv(s, tapOf, foreign) && Enabled(s, a, tapOf) && Orderly(s, a)
    ensures Inv(Apply(s, a, tapOf), tapOf, foreign)
  {
    hide AddressesOk, SpawnsOk, TeardownsOk, HoldersOk, OwnedOk;
    StepAddresses(s, a, tapOf);
    StepTeardowns(s, a, tapOf);
    match PartOf(a) {
      case Building =>
        BuildingKeeps(s, a, tapOf, foreign);
      case Ending =>
        SpawnsEnding(s, a, tapOf);
        HoldersEnding(s, a, tapOf, foreign);
        OwnedEnding(s, a, tapOf, foreign);
      case Tearing =>
        SpawnsTearing(s, a, tapOf);
        HoldersTearing(s, a, tapOf, foreign);
        OwnedTearing(s, a, tapOf, foreign);
    }
  }

  // ---------------------------------------------------------------- whole runs

  predicate IsRun(s: State, acts: seq<Action>, tapOf: VmId -> string)
    decreases |acts|
  {
    acts != [] ==> Enabled(s, acts[0], tapOf) && Orderly(s, acts[0]) && IsRun(Apply(s, acts[0], tapOf), acts[1..], tapOf)
  }

  function End(s: State, acts: seq<Action>, tapOf: VmId -> string): State
    requires IsRun(s, acts, tapOf)
    decreases |acts|
  {
    if acts == [] then s else End(Apply(s, acts[0], tapOf), acts[1..], tapOf)
  }

  lemma {:induction false} RunInv(s: State, acts: seq<Action>, tapOf: VmId -> string, foreign: set<string>)
    requires Inv(s, tapOf, foreign) && IsRun(s, acts, tapOf)
    ensures Inv(End(s, acts, tapOf), tapOf, foreign)
    decreases |acts|
  {
    hide Inv;
    if acts != [] {
      StepInv(s, acts[0], tapOf, foreign);
      RunInv(Apply(s, acts[0], tapOf), acts[1..], tapOf, foreign);
    }
  }

  lemma InitInv(tapOf: VmId -> string, foreign: set<string>)
    ensures Inv(Init(foreign), tapOf, foreign)
  {
  }

  /** The VSOCK context id given with an address index. */
  function Cid(index: nat): nat { index + 10 }

  /** Over every interleaving, registered VMs - tentative ones included - have distinct addresses and context ids,
      and a spawn still in flight has the one it reserved. */
  lemma AddressesExclusive(acts: seq<Action>, tapOf: VmId -> string, foreign: set<string>)
    requires IsRun(Init(foreign), acts, tapOf)
    ensures var s := End(Init(foreign), acts, tapOf);
            && (forall vm | vm in s.registry :: InRange(s.registry[vm].ip))
            && (forall v, w | v in s.registry && w in s.registry && v != w ::
                  && s.registry[v].ip != s.registry[w].ip
                  && Cid(IndexOfIP(s.registry[v].ip).value) != Cid(IndexOfIP(s.registry[w].ip).value))
            && (forall vm | vm in s.registry ::
                  12 <= Cid(IndexOfIP(s.registry[vm].ip).value) == IndexOfIP(s.registry[vm].ip).value + 10 <= 264)
            && (forall p | p in s.spawns ::
                  s.spawns[p].vm in s.registry
                  && s.registry[s.spawns[p].vm].ip == GenerateIPFromIndex(s.spawns[p].index).GetOr(""))
  {
    hide GenerateIPFromIndex, IndexOfIP, HoldersOk, OwnedOk, TeardownsOk, IsRun, End;
    InitInv(tapOf, foreign);
    RunInv(Init(foreign), acts, tapOf, foreign);
  }

  /** In every reachable state the next reservation gets the least free index, and there is none exactly when all
      253 are registered. */
  lemma AllocationExact(acts: seq<Action>, tapOf: VmId -> string, foreign: set<string>)
    requires IsRun(Init(foreign), acts, tapOf)
    ensures var s := End(Init(foreign), acts, tapOf);
            match Allocate(s)
            case Some(k) =>
              && 2 <= k <= 254 && GenerateIPFromIndex(k).Some?
              && (forall w | w in s.registry :: IndexOfIP(s.registry[w].ip) != Some(k))
              && (forall j | 2 <= j < k :: Registered(s, j))
            case None => forall j | 2 <= j <= 254 :: Registered(s, j)
  {
    var s := End(Init(foreign), acts, tapOf);
    hide *;
    InitInv(tapOf, foreign);
    RunInv(Init(foreign), acts, tapOf, foreign);
    AllocatesLeast(s);
  }

  /** Some registered VM has the address of index `j`. */
  ghost predicate Registered(s: State, j: nat) {
    exists w :: w in s.registry && IndexOfIP(s.registry[w].ip) == Some(j)
  }

  lemma UsedIsRegistered(s: State, j: nat)
    ensures j in UsedBy(HeldAddresses(s.registry)) <==> Registered(s, j)
  {
    hide IndexOfIP;
    if j in UsedBy(HeldAddresses(s.registry)) {
      var ip :| ip in HeldAddresses(s.registry) && IndexOfIP(ip) == Some(j);
      var w :| w in s.registry && s.registry[w].ip == ip;
    }
    if Registered(s, j) {
      var w :| w in s.registry && IndexOfIP(s.registry[w].ip) == Some(j);
      assert s.registry[w].ip in HeldAddresses(s.registry);
    }
  }

  lemma AllocatesLeast(s: State)
    ensures match Allocate(s)
            case Some(k) =>
              && 2 <= k <= 254 && GenerateIPFromIndex(k).Some?
              && (forall w | w in s.registry :: IndexOfIP(s.registry[w].ip) != Some(k))
              && (forall j | 2 <= j < k :: Registered(s, j))
            case None => forall j | 2 <= j <= 254 :: Registered(s, j)
  {
    hide IndexOfIP, GenerateIPFromIndex, LeastFree, UsedBy, HeldAddresses;
    var used := UsedBy(HeldAddresses(s.registry));
    LeastFreeIs(used, FIRST_INDEX);
    forall j: nat ensures j in used <==> Registered(s, j) { UsedIsRegistered(s, j); }
    if Allocate(s).Some? { AddressReadBack(Allocate(s).value); }
  }

  /** Whatever names collide: no spawn or teardown is ever about to delete a TAP created for another spawn, active
      VMs have distinct TAPs, and with nothing in flight the TAPs on the host are those of the registered VMs. */
  lemma TapsOwned(acts: seq<Action>, tapOf: VmId -> string, foreign: set<string>)
    requires IsRun(Init(foreign), acts, tapOf)
    ensures var s := End(Init(foreign), acts, tapOf);
            && (forall p | p in s.spawns && s.spawns[p].at.Found? ::
                  var tap := tapOf(s.spawns[p].vm); tap in s.owner && s.owner[tap].spawn == p && tap !in foreign)
            && (forall t | t in s.teardowns && s.teardowns[t].at.Finding? ::
                  var tap := s.teardowns[t].tap;
                  tap in s.owner && s.owner[tap].spawn == s.teardowns[t].spawn && tap !in foreign)
            && (forall v, w | v in s.registry && w in s.registry && v != w
                              && s.registry[v].tap.Some? && s.registry[w].tap.Some? ::
                  s.registry[v].tap != s.registry[w].tap)
            && (s.spawns == map[] && s.teardowns == map[] ==>
                  s.interfaces == foreign + set vm | vm in s.registry :: s.registry[vm].tap.GetOr(""))
  {
    RunInv(Init(foreign), acts, tapOf, foreign);
    var s := End(Init(foreign), acts, tapOf);
    hide IsRun, End;
    ActiveTapsDistinct(s, tapOf, foreign);
    if s.spawns == map[] && s.teardowns == map[] {
      QuietTaps(s, tapOf, foreign);
    }
  }

  lemma ActiveTapsDistinct(s: State, tapOf: VmId -> string, foreign: set<string>)
    requires Inv(s, tapOf, foreign)
    ensures forall v, w | v in s.registry && w in s.registry && v != w
                          && s.registry[v].tap.Some? && s.registry[w].tap.Some? ::
              s.registry[v].tap != s.registry[w].tap
  {
    hide AddressesOk, TeardownsOk;
    forall v, w | v in s.registry && w in s.registry && v != w && s.registry[v].tap.Some? && s.registry[w].tap.Some?
      ensures s.registry[v].tap != s.registry[w].tap
    {
      assert s.owner[tapOf(v)].holder == ByVm(v) && s.owner[tapOf(w)].holder == ByVm(w);
    }
  }

  lemma QuietTaps(s: State, tapOf: VmId -> string, foreign: set<string>)
    requires Inv(s, tapOf, foreign) && s.spawns == map[] && s.teardowns == map[]
    ensures s.interfaces == foreign + set vm | vm in s.registry :: s.registry[vm].tap.GetOr("")
  {
    hide AddressesOk, TeardownsOk;
    var held := set vm | vm in s.registry :: s.registry[vm].tap.GetOr("");
    forall n | n in s.owner ensures n in held {
      var vm := s.owner[n].holder.vm;
      assert s.registry[vm].tap.GetOr("") == n;
    }
    forall n | n in held ensures n in s.owner {
      var vm :| vm in s.registry && s.registry[vm].tap.GetOr("") == n;
      assert s.registry[vm].tap == Some(tapOf(vm));
    }
  }

  /** A run in which the discipline of `Orderly` may be broken. */
  predicate LeadsTo(s: State, acts: seq<Action>, tapOf: VmId -> string, e: State)
    decreases |acts|
  {
    if acts == [] then s == e
    else Enabled(s, acts[0], tapOf) && LeadsTo(Apply(s, acts[0], tapOf), acts[1..], tapOf, e)
  }

  lemma {:induction false} OneMore(s: State, acts: seq<Action>, tapOf: VmId -> string, e: State, a: Action)
    requires LeadsTo(s, acts, tapOf, e) && Enabled(e, a, tapOf)
    ensures LeadsTo(s, acts + [a], tapOf, Apply(e, a, tapOf))
    decreases |acts|
  {
    if acts == [] {
      assert ([a])[1..] == [];
    } else {
      assert (acts + [a])[0] == acts[0] && (acts + [a])[1..] == acts[1..] + [a];
      OneMore(Apply(s, acts[0], tapOf), acts[1..], tapOf, e, a);
    }
  }

  /** The steps of one spawn that succeeds. */
  lemma SpawnAgain(s0: State, acts0: seq<Action>, s: State, tapOf: VmId -> string, vm: VmId)
    returns (acts: seq<Action>, e: State)
    requires LeadsTo(s0, acts0, tapOf, s)
    requires Enabled(s, Reserve(vm), tapOf) && s.next !in s.spawns && tapOf(vm) !in s.interfaces
    ensures acts == acts0 + [Reserve(vm)] + [CheckTap(s.next)] + [AddTap(s.next)] + [CommitVm(s.next)]
    ensures LeadsTo(s0, acts, tapOf, e)
    ensures e.teardowns == s.teardowns && e.next == s.next + 1 && e.spawns == s.spawns && e.up
    ensures e.registry.Keys == s.registry.Keys + {vm} && e.registry[vm].spawn == s.next
    ensures e.registry[vm].tap == Some(tapOf(vm))
    ensures e.interfaces == s.interfaces + {tapOf(vm)} && tapOf(vm) in e.owner && e.owner[tapOf(vm)].spawn == s.next
  {
    hide LeadsTo, GenerateIPFromIndex, Allocate;
    var s1, s2, s3;
    acts, s1 := Then(s0, acts0, tapOf, s, Reserve(vm));
    acts, s2 := Then(s0, acts, tapOf, s1, CheckTap(s.next));
    acts, s3 := Then(s0, acts, tapOf, s2, AddTap(s.next));
    acts, e := Then(s0, acts, tapOf, s3, CommitVm(s.next));
    assert e.spawns == s.spawns;
  }

  /** With nothing registered the first address is free. */
  lemma FirstFree(s: State, tapOf: VmId -> string, vm: VmId)
    requires s.registry == map[] && s.up
    ensures Enabled(s, Reserve(vm), tapOf)
  {
    assert HeldAddresses(s.registry) == {} && UsedBy({}) == {};
    assert Allocate(s) == Some(2);
    AddressReadBack(2);
  }

  /** Outside the discipline: a spawn, two teardowns that both look the VM up, one of which finishes, a new spawn
      under the same id, and then the other teardown.  It drops the new VM from the registry, and the TAP it is about
      to delete was created for the new spawn. */
  lemma StaleTeardownMisdeletes(tapOf: VmId -> string) returns (acts: seq<Action>, s: State)
    ensures LeadsTo(Init({}), acts, tapOf, s)
    ensures acts == [Reserve("a")] + [CheckTap(0)] + [AddTap(0)] + [CommitVm(0)] + [TearLookup(1, "a")] + [TearLookup(2, "a")]
                    + [Unregister(1)] + [FindTap(1)] + [DeleteTap(1)]
                    + [Reserve("a")] + [CheckTap(1)] + [AddTap(1)] + [CommitVm(1)] + [Unregister(2)] + [FindTap(2)]
    ensures s.registry == map[] && Enabled(s, DeleteTap(2), tapOf) && AboutToMisdelete(s, 2)
    ensures var td := s.teardowns[2]; td.spawn == 0 && s.owner[td.tap].spawn == 1
  {
    hide LeadsTo, GenerateIPFromIndex, Allocate;
    var s0 := Init({});
    acts, s := TwoTeardowns(tapOf);
    FirstFree(s, tapOf, "a");
    acts, s := SpawnAgain(s0, acts, s, tapOf, "a");
    acts, s := Then(s0, acts, tapOf, s, Unregister(2));
    assert s.registry == map[];
    acts, s := Then(s0, acts, tapOf, s, FindTap(2));
  }

  lemma TwoTeardowns(tapOf: VmId -> string) returns (acts: seq<Action>, s: State)
    ensures LeadsTo(Init({}), acts, tapOf, s)
    ensures acts == [Reserve("a")] + [CheckTap(0)] + [AddTap(0)] + [CommitVm(0)] + [TearLookup(1, "a")] + [TearLookup(2, "a")]
                    + [Unregister(1)] + [FindTap(1)] + [DeleteTap(1)]
    ensures s.registry == map[] && s.spawns == map[] && s.interfaces == {} && s.next == 1 && s.up
    ensures s.teardowns == map[2 := Teardown("a", 0, tapOf("a"), true, Stopping)]
  {
    hide LeadsTo, GenerateIPFromIndex, Allocate;
    var s0 := Init({});
    NoSteps(s0, tapOf);
    FirstFree(s0, tapOf, "a");
    acts, s := SpawnAgain(s0, [], s0, tapOf, "a");
    assert acts == [Reserve("a")] + [CheckTap(0)] + [AddTap(0)] + [CommitVm(0)];
    acts, s := Then(s0, acts, tapOf, s, TearLookup(1, "a"));
    acts, s := Then(s0, acts, tapOf, s, TearLookup(2, "a"));
    acts, s := TearAgain(s0, acts, s, 1, tapOf);
    assert s.teardowns == map[2 := Teardown("a", 0, tapOf("a"), true, Stopping)];
  }

  lemma NoSteps(s: State, tapOf: VmId -> string)
    ensures LeadsTo(s, [], tapOf, s)
  {
  }

  lemma Then(s0: State, acts0: seq<Action>, tapOf: VmId -> string, s: State, a: Action) returns (acts: seq<Action>, e: State)
    requires LeadsTo(s0, acts0, tapOf, s) && Enabled(s, a, tapOf)
    ensures acts == acts0 + [a] && e == Apply(s, a, tapOf) && LeadsTo(s0, acts, tapOf, e)
  {
    OneMore(s0, acts0, tapOf, s, a);
    acts, e := acts0 + [a], Apply(s, a, tapOf);
  }

  // ---------------------------------------------------------------- the discipline is exact

  /** Nobody is about to delete a TAP made for another spawn, and every spawn in flight still has its registration. */
  ghost predicate Safe(s: State, tapOf: VmId -> string) {
    && (forall p | p in s.spawns :: s.spawns[p].vm in s.registry)
    && (forall p | p in s.spawns && s.spawns[p].at.Found? ::
          tapOf(s.spawns[p].vm) in s.owner && s.owner[tapOf(s.spawns[p].vm)].spawn == p)
    && (forall t | t in s.teardowns && s.teardowns[t].at.Finding? ::
          s.teardowns[t].tap in s.owner && s.owner[s.teardowns[t].tap].spawn == s.teardowns[t].spawn)
  }

  /** The teardown's next step deletes a TAP that was made for another spawn. */
  ghost predicate AboutToMisdelete(s: State, t: nat) {
    && t in s.teardowns && s.teardowns[t].at.Finding?
    && s.teardowns[t].tap in s.owner && s.owner[s.teardowns[t].tap].spawn != s.teardowns[t].spawn
  }

  lemma InvSafe(s: State, tapOf: VmId -> string, foreign: set<string>)
    requires Inv(s, tapOf, foreign)
    ensures Safe(s, tapOf)
  {
    hide AddressesOk, TeardownsOk, OwnedOk;
  }

  /** A run without further look-ups keeps the discipline. */
  lemma {:induction false} NoLookups(s: State, acts: seq<Action>, tapOf: VmId -> string, e: State)
    requires LeadsTo(s, acts, tapOf, e) && forall i | 0 <= i < |acts| :: !acts[i].TearLookup?
    ensures IsRun(s, acts, tapOf) && End(s, acts, tapOf) == e
    decreases |acts|
  {
    if acts != [] {
      NoLookups(Apply(s, acts[0], tapOf), acts[1..], tapOf, e);
    }
  }

  /** A free index is enough for a reservation. */
  lemma FreeIndexFound(used: set<nat>, k: nat)
    requires 2 <= k <= 254 && k !in used
    ensures LeastFree(used, FIRST_INDEX).Some? && GenerateIPFromIndex(LeastFree(used, FIRST_INDEX).value).Some?
  {
    LeastFreeIs(used, FIRST_INDEX);
  }

  /** Dropping a registered VM frees its address. */
  lemma DroppedIsFree(s: State, s': State, vm: VmId, tapOf: VmId -> string)
    requires AddressesOk(s.registry) && vm in s.registry && s'.registry == s.registry - {vm} && s'.up
    ensures Enabled(s', Reserve(vm), tapOf)
  {
    hide IndexOfIP, GenerateIPFromIndex, LeastFree;
    var k := IndexOfIP(s.registry[vm].ip).value;
    forall ip | ip in HeldAddresses(s'.registry) ensures IndexOfIP(ip) != Some(k) {
      var w :| w in s'.registry && s'.registry[w].ip == ip;
      assert w != vm && s.registry[w] == s'.registry[w];
    }
    assert k !in UsedBy(HeldAddresses(s'.registry));
    FreeIndexFound(UsedBy(HeldAddresses(s'.registry)), k);
  }

  /** The steps of one teardown that finishes. */
  lemma TearAgain(s0: State, acts0: seq<Action>, s: State, t: nat, tapOf: VmId -> string)
    returns (acts: seq<Action>, e: State)
    requires LeadsTo(s0, acts0, tapOf, s)
    requires s.up && t in s.teardowns && Dropping(s.teardowns[t]) && s.teardowns[t].tap in s.interfaces
    ensures LeadsTo(s0, acts, tapOf, e)
    ensures acts == acts0 + [Unregister(t)] + [FindTap(t)] + [DeleteTap(t)]
    ensures e.registry == s.registry - {s.teardowns[t].vm} && e.spawns == s.spawns && e.next == s.next && e.up
    ensures e.teardowns == s.teardowns - {t} && e.interfaces == s.interfaces - {s.teardowns[t].tap}
  {
    hide LeadsTo;
    acts, e := Then(s0, acts0, tapOf, s, Unregister(t));
    acts, e := Then(s0, acts, tapOf, e, FindTap(t));
    acts, e := Then(s0, acts, tapOf, e, DeleteTap(t));
    assert e.teardowns == s.teardowns - {t};
  }

  /** The first of two teardowns of one VM runs to its end. */
  lemma FirstFinishes(s: State, t1: nat, t2: nat, vm: VmId, tapOf: VmId -> string)
    returns (acts: seq<Action>, e: State)
    requires Enabled(s, TearLookup(t2, vm), tapOf) && s.registry[vm].tap == Some(tapOf(vm)) && tapOf(vm) in s.interfaces
    requires t1 in s.teardowns && Dropping(s.teardowns[t1]) && s.teardowns[t1].vm == vm
    requires s.teardowns[t1].tap == tapOf(vm)
    ensures LeadsTo(Apply(s, TearLookup(t2, vm), tapOf), acts, tapOf, e)
    ensures acts == [Unregister(t1)] + [FindTap(t1)] + [DeleteTap(t1)]
    ensures e.registry == s.registry - {vm} && e.spawns == s.spawns && e.next == s.next && tapOf(vm) !in e.interfaces && e.up
    ensures t2 in e.teardowns && e.teardowns[t2] == Teardown(vm, s.registry[vm].spawn, tapOf(vm), true, Stopping)
  {
    hide LeadsTo, Allocate, GenerateIPFromIndex;
    var t := Apply(s, TearLookup(t2, vm), tapOf);
    NoSteps(t, tapOf);
    acts, e := TearAgain(t, [], t, t1, tapOf);
    assert [] + [Unregister(t1)] == [Unregister(t1)];
  }

  /** A second look-up has a continuation in which it is about to delete the TAP of the next spawn of the VM. */
  lemma SecondLookupMisdeletes(s: State, t1: nat, t2: nat, vm: VmId, tapOf: VmId -> string, foreign: set<string>)
    returns (acts: seq<Action>)
    requires Inv(s, tapOf, foreign) && Enabled(s, TearLookup(t2, vm), tapOf) && s.registry[vm].tap.Some?
    requires t1 in s.teardowns && Dropping(s.teardowns[t1]) && s.teardowns[t1].vm == vm
    ensures var t := Apply(s, TearLookup(t2, vm), tapOf);
            IsRun(t, acts, tapOf) && AboutToMisdelete(End(t, acts, tapOf), t2)
  {
    hide IsRun, End, LeadsTo, Allocate, GenerateIPFromIndex, SpawnsOk, TeardownsOk, HoldersOk, OwnedOk, AddressesOk;
    SpawnsBounded(s, vm, tapOf, foreign);
    var e;
    StoppingHolds(s, t1, tapOf, foreign);
    acts, e := FirstFinishes(s, t1, t2, vm, tapOf);
    DroppedIsFree(s, e, vm, tapOf);
    acts := SecondResumes(Apply(s, TearLookup(t2, vm), tapOf), acts, e, t2, vm, tapOf);
  }

  /** After a respawn the second teardown drops the new VM and finds the new TAP. */
  lemma SecondResumes(t: State, acts0: seq<Action>, s: State, t2: nat, vm: VmId, tapOf: VmId -> string)
    returns (acts: seq<Action>)
    requires LeadsTo(t, acts0, tapOf, s) && forall i | 0 <= i < |acts0| :: !acts0[i].TearLookup?
    requires Enabled(s, Reserve(vm), tapOf) && s.next !in s.spawns && tapOf(vm) !in s.interfaces
    requires t2 in s.teardowns && s.teardowns[t2].spawn < s.next
    requires s.teardowns[t2] == Teardown(vm, s.teardowns[t2].spawn, tapOf(vm), true, Stopping)
    ensures IsRun(t, acts, tapOf) && AboutToMisdelete(End(t, acts, tapOf), t2)
  {
    hide IsRun, End, LeadsTo, Allocate, GenerateIPFromIndex;
    var e;
    acts, e := SpawnAgain(t, acts0, s, tapOf, vm);
    acts, e := Then(t, acts, tapOf, e, Unregister(t2));
    acts, e := Then(t, acts, tapOf, e, FindTap(t2));
    NoLookups(t, acts, tapOf, e);
  }

  lemma SpawnsBounded(s: State, vm: VmId, tapOf: VmId -> string, foreign: set<string>)
    requires Inv(s, tapOf, foreign) && vm in s.registry
    ensures s.registry[vm].spawn < s.next && s.next !in s.spawns
  {
  }

  /** The discipline is exact: from any reachable state, every continuation of a look-up is safe if and only if no
      other teardown of the VM is under way, or the VM is still being spawned and the teardown cannot drop it. */
  lemma LookupSafeIff(before: seq<Action>, t2: nat, vm: VmId, tapOf: VmId -> string, foreign: set<string>)
    requires IsRun(Init(foreign), before, tapOf)
    requires Enabled(End(Init(foreign), before, tapOf), TearLookup(t2, vm), tapOf)
    ensures var s := End(Init(foreign), before, tapOf);
            var t := Apply(s, TearLookup(t2, vm), tapOf);
            Orderly(s, TearLookup(t2, vm)) <==> forall acts | IsRun(t, acts, tapOf) :: Safe(End(t, acts, tapOf), tapOf)
  {
    var s := End(Init(foreign), before, tapOf);
    var a := TearLookup(t2, vm);
    var t := Apply(s, a, tapOf);
    InitInv(tapOf, foreign);
    RunInv(Init(foreign), before, tapOf, foreign);
    hide IsRun, End, Inv, Safe;
    if Orderly(s, a) {
      StepInv(s, a, tapOf, foreign);
      forall acts | IsRun(t, acts, tapOf) ensures Safe(End(t, acts, tapOf), tapOf) {
        RunInv(t, acts, tapOf, foreign);
        InvSafe(End(t, acts, tapOf), tapOf, foreign);
      }
    } else {
      var t1 :| t1 in s.teardowns && Dropping(s.teardowns[t1]) && s.teardowns[t1].vm == vm;
      var acts := SecondLookupMisdeletes(s, t1, t2, vm, tapOf, foreign);
      NotSafe(End(t, acts, tapOf), t2, tapOf);
    }
  }

  lemma NotSafe(s: State, t: nat, tapOf: VmId -> string)
    requires AboutToMisdelete(s, t)
    ensures !Safe(s, tapOf)
  {
  }

  // ---------------------------------------------------------------- addresses, outside the discipline

  lemma {:induction false} LongerThanAll(ids: set<VmId>) returns (n: nat)
    ensures forall x | x in ids :: |x| < n
  {
    n := 0;
    if ids != {} {
      var x :| x in ids;
      n := LongerThanAll(ids - {x});
      if n <= |x| { n := |x| + 1; }
    }
  }

  lemma NewId(ids: set<VmId>) returns (vm: VmId)
    ensures vm !in ids
  {
    var n := LongerThanAll(ids);
    vm := seq(n, _ => 'a');
  }

  /** The second of two teardowns drops a VM that has only reserved its address; the next reservation gets the same
      one, and the first spawn then registers it again. */
  lemma AddressTaken(t: State, acts0: seq<Action>, s: State, t2: nat, vm: VmId, other: VmId, tapOf: VmId -> string)
    returns (acts: seq<Action>, e: State)
    requires LeadsTo(t, acts0, tapOf, s)
    requires Enabled(s, Reserve(vm), tapOf) && s.next !in s.spawns && tapOf(vm) !in s.interfaces
    requires other !in s.registry && other != vm
    requires t2 in s.teardowns && Dropping(s.teardowns[t2]) && s.teardowns[t2].vm == vm
    ensures LeadsTo(t, acts, tapOf, e)
    ensures acts == acts0 + [Reserve(vm)] + [Unregister(t2)] + [Reserve(other)] + [CheckTap(s.next)] + [AddTap(s.next)]
                    + [CommitVm(s.next)]
    ensures vm in e.registry && other in e.registry && e.registry[vm].ip == e.registry[other].ip
  {
    hide LeadsTo, GenerateIPFromIndex, Allocate;
    acts, e := Then(t, acts0, tapOf, s, Reserve(vm));
    acts, e := Then(t, acts, tapOf, e, Unregister(t2));
    assert e.registry == s.registry;
    assert Allocate(e) == Allocate(s) by { SameAllocation(e, s); }
    acts, e := Then(t, acts, tapOf, e, Reserve(other));
    acts, e := Then(t, acts, tapOf, e, CheckTap(s.next));
    acts, e := Then(t, acts, tapOf, e, AddTap(s.next));
    acts, e := Then(t, acts, tapOf, e, CommitVm(s.next));
    assert GenerateIPFromIndex(Allocate(s).value).Some?;
  }

  lemma SameAllocation(s: State, s': State)
    requires s.registry == s'.registry
    ensures Allocate(s) == Allocate(s')
  {
  }

  /** A second look-up has a continuation in which two registered VMs have one address, and so one context id. */
  lemma SecondLookupShares(s: State, t1: nat, t2: nat, vm: VmId, tapOf: VmId -> string, foreign: set<string>)
    returns (acts: seq<Action>)
    requires Inv(s, tapOf, foreign) && Enabled(s, TearLookup(t2, vm), tapOf) && s.registry[vm].tap.Some?
    requires t1 in s.teardowns && Dropping(s.teardowns[t1]) && s.teardowns[t1].vm == vm
    ensures var t := Apply(s, TearLookup(t2, vm), tapOf);
            IsRun(t, acts, tapOf) && !AddressesOk(End(t, acts, tapOf).registry)
  {
    hide IsRun, End, LeadsTo, Allocate, GenerateIPFromIndex, SpawnsOk, TeardownsOk, HoldersOk, OwnedOk, AddressesOk;
    var t := Apply(s, TearLookup(t2, vm), tapOf);
    SpawnsBounded(s, vm, tapOf, foreign);
    var e;
    StoppingHolds(s, t1, tapOf, foreign);
    acts, e := FirstFinishes(s, t1, t2, vm, tapOf);
    DroppedIsFree(s, e, vm, tapOf);
    var other := NewId(e.registry.Keys + {vm});
    acts, e := AddressTaken(t, acts, e, t2, vm, other, tapOf);
    NoLookups(t, acts, tapOf, e);
    SharedNotOk(e.registry, vm, other);
  }

  lemma SharedNotOk(registry: map<VmId, Entry>, v: VmId, w: VmId)
    requires v in registry && w in registry && v != w && registry[v].ip == registry[w].ip
    ensures !AddressesOk(registry)
  {
  }

  /** The same discipline is exact for addresses and context ids: from any reachable state, every continuation of a
      look-up keeps them exclusive if and only if the look-up is orderly. */
  lemma LookupAddressesIff(before: seq<Action>, t2: nat, vm: VmId, tapOf: VmId -> string, foreign: set<string>)
    requires IsRun(Init(foreign), before, tapOf)
    requires Enabled(End(Init(foreign), before, tapOf), TearLookup(t2, vm), tapOf)
    ensures var s := End(Init(foreign), before, tapOf);
            var t := Apply(s, TearLookup(t2, vm), tapOf);
            Orderly(s, TearLookup(t2, vm)) <==> forall acts | IsRun(t, acts, tapOf) :: AddressesOk(End(t, acts, tapOf).registry)
  {
    var s := End(Init(foreign), before, tapOf);
    var a := TearLookup(t2, vm);
    var t := Apply(s, a, tapOf);
    InitInv(tapOf, foreign);
    RunInv(Init(foreign), before, tapOf, foreign);
    if Orderly(s, a) {
      hide IsRun, End, AddressesOk, SpawnsOk, TeardownsOk, HoldersOk, OwnedOk;
      StepInv(s, a, tapOf, foreign);
      forall acts | IsRun(t, acts, tapOf) ensures AddressesOk(End(t, acts, tapOf).registry) {
        RunInv(t, acts, tapOf, foreign);
      }
    } else {
      var t1 :| t1 in s.teardowns && Dropping(s.teardowns[t1]) && s.teardowns[t1].vm == vm;
      hide IsRun, End, Inv, AddressesOk;
      var acts := SecondLookupShares(s, t1, t2, vm, tapOf, foreign);
    }
  }

  // ---------------------------------------------------------------- look-ups that come too early

  /** The server has crashed, or a teardown is about to crash it. */
  ghost predicate Doomed(s: State) {
    !s.up || exists t :: t in s.teardowns && s.teardowns[t].at.Stopping? && !s.teardowns[t].machine
  }

  /** Some look-up of the run meets a VM that is still being spawned. */
  ghost predicate LooksUpEarly(s: State, acts: seq<Action>, tapOf: VmId -> string, e: State)
    requires LeadsTo(s, acts, tapOf, e)
    decreases |acts|
  {
    acts != [] &&
    (|| (acts[0].TearLookup? && s.registry[acts[0].vm].tap.None?)
     || LooksUpEarly(Apply(s, acts[0], tapOf), acts[1..], tapOf, e))
  }

  lemma StepDooms(s: State, a: Action, tapOf: VmId -> string)
    requires Enabled(s, a, tapOf)
    ensures Doomed(Apply(s, a, tapOf)) <==> Doomed(s) || (a.TearLookup? && s.registry[a.vm].tap.None?)
  {
    hide Allocate, GenerateIPFromIndex;
    var s' := Apply(s, a, tapOf);
    forall t | t in s.teardowns && s.teardowns[t].at.Stopping? && !s.teardowns[t].machine
      ensures t in s'.teardowns && s'.teardowns[t] == s.teardowns[t] {}
    if a.TearLookup? {
      assert a.t in s'.teardowns;
    }
  }

  lemma {:induction false} RunDooms(s: State, acts: seq<Action>, tapOf: VmId -> string, e: State)
    requires LeadsTo(s, acts, tapOf, e)
    ensures Doomed(e) <==> Doomed(s) || LooksUpEarly(s, acts, tapOf, e)
    decreases |acts|
  {
    hide Doomed;
    if acts != [] {
      StepDooms(s, acts[0], tapOf);
      RunDooms(Apply(s, acts[0], tapOf), acts[1..], tapOf, e);
    }
  }

  /** Over every run, orderly or not: the server is up and no teardown can crash it if and only if no look-up met a VM
      that was still being spawned; and after a crash nothing happens any more. */
  lemma CrashIff(acts: seq<Action>, s: State, tapOf: VmId -> string, foreign: set<string>)
    requires LeadsTo(Init(foreign), acts, tapOf, s)
    ensures s.up && (forall t :: !Enabled(s, Crash(t), tapOf)) <==> !LooksUpEarly(Init(foreign), acts, tapOf, s)
    ensures !s.up ==> forall a :: !Enabled(s, a, tapOf)
  {
    RunDooms(Init(foreign), acts, tapOf, s);
    hide LooksUpEarly, LeadsTo, Allocate, GenerateIPFromIndex;
    if s.up && Doomed(s) {
      var t :| t in s.teardowns && s.teardowns[t].at.Stopping? && !s.teardowns[t].machine;
      assert Enabled(s, Crash(t), tapOf);
    }
  }

  // ---------------------------------------------------------------- the registry under its lock

  datatype Reservation = Granted(index: nat, ip: string) | AlreadyExists | Exhausted

  class Server {
    var vmRegistry: map<VmId, Entry>

    constructor ()
      ensures vmRegistry == map[]
    {
      vmRegistry := map[];
    }

    /** Check the id, take the least free address, and enter a tentative VM, all under one lock.  The answer is
        granted exactly when the reserve step of the protocol is possible, and then the registry takes that step. */
    method Reserve(vm: VmId, spawn: nat, ghost s: State, ghost tapOf: VmId -> string) returns (r: Reservation)
      requires s.registry == vmRegistry && s.next == spawn && s.up
      modifies this
      ensures r.AlreadyExists? <==> vm in old(vmRegistry)
      ensures r.Exhausted? <==> vm !in old(vmRegistry)
                                && forall j | 2 <= j <= 254 :: j in UsedBy(HeldAddresses(old(vmRegistry)))
      ensures r.Granted? <==> Enabled(s, Action.Reserve(vm), tapOf)
      ensures vmRegistry == if r.Granted? then Apply(s, Action.Reserve(vm), tapOf).registry else old(vmRegistry)
      ensures r.Granted? ==>
                && 2 <= r.index <= 254 && r.index !in UsedBy(HeldAddresses(old(vmRegistry)))
                && (forall j | 2 <= j < r.index :: j in UsedBy(HeldAddresses(old(vmRegistry))))
                && IndexOfIP(r.ip) == Some(r.index) && Some(r.ip) == GenerateIPFromIndex(r.index)
                && |r.ip| > 9 && r.ip[..9] == "172.16.0."
                && vmRegistry == old(vmRegistry)[vm := Entry(r.ip, spawn, None)]
                && Apply(s, Action.Reserve(vm), tapOf).spawns[spawn].index == r.index
    {
      if vm in vmRegistry {
        return AlreadyExists;
      }
      var free := FindFreeIPIndex(HeldAddresses(vmRegistry));
      match free {
        case None => return Exhausted;
        case Some(index) =>
          AddressReadBack(index);
          AddressIs(index);
          var ip := GenerateIPFromIndex(index).value;
          vmRegistry := vmRegistry[vm := Entry(ip, spawn, None)];
          return Granted(index, ip);
      }
    }
  }
}
