/** The SysMMU v9 units and the domain bookkeeping around the page table
    (drivers/iommu/samsung-iommu-v9.c): per-VM register write fan-out, TLB
    invalidation of the units a domain is attached to, attach/detach
    reference counting, the DMA window, domain creation with the one-shot
    36-bit latch, `of_xlate`, and the runtime-PM callbacks.

    Register writes are not performed but logged: every `writel_relaxed` of
    a per-VM register becomes a `VmWrite` in the system's write log, in
    program order. Locks are not modelled; every operation runs to
    completion on its own.
 */
module Sysmmu {
  import opened Errors
  import opened SysmmuTable

  /** The per-VM register commands the driver issues. */
  datatype Cmd =
    | CtrlEnable                 // MMU_CTRL_ENABLE to REG_MMU_CTRL_VM
    | CtrlDisable                // MMU_CTRL_DISABLE to REG_MMU_CTRL_VM
    | FlptBase(frame: nat)       // first-level table frame to ..._CFG_FLPT_BASE_VM
    | InvalidateAll              // 0x1 to REG_MMU_ALL_INV_VM
    | RangeStart(vpn: nat)       // REG_MMU_RANGE_INV_START_VPN_VM
    | RangeEndTrigger(vpn: nat)  // REG_MMU_RANGE_INV_END_VPN_AND_TRIG_VM

  /** A logged register write: to one VM context of one unit, or the
      stream/QoS configuration of `__sysmmu_init_config`, kept abstract. */
  datatype Write = VmWrite(unit: nat, vm: nat, cmd: Cmd) | ConfigWrite(unit: nat)

  /** One SysMMU instance (`struct sysmmu_drvdata`), reduced to what the
      modelled paths read and write. `rpmActive` is the unit's runtime-PM
      status: true for RPM_ACTIVE, false for RPM_SUSPENDED, so system sleep's
      `pm_runtime_status_suspended` is its negation. `vmids` holds the
      positions of the set bits of the 32-bit `vmid_mask`. */
  datatype Unit = Unit(
    attachedCount: int,
    pgtable: nat,
    group: Option<nat>,
    rpmCount: int,
    rpmActive: bool,
    maxVm: nat,
    vmids: set<nat>,
    va36: bool)

  /** All units, the per-group unit lists (`iommu_group_get_iommudata`),
      and the register write log. */
  datatype Sys = Sys(units: seq<Unit>, lists: map<nat, seq<nat>>, log: seq<Write>)


  // ---------------------------------------------------------------------
  // Per-VM fan-out (__sysmmu_write_all_vm)
  // ---------------------------------------------------------------------

  /** VM context `vm` exists and is enabled in the unit's `vmid_mask`. */
  predicate VmSelected(unit: Unit, vm: nat)
  {
    vm < unit.maxVm && vm < 32 && vm in unit.vmids
  }

  /** The loop of `__sysmmu_write_all_vm` from VM index `i` on: the value
      goes to every selected VM, in increasing order. */
  function WriteAllVmFrom(u: nat, unit: Unit, cmd: Cmd, i: nat): seq<Write>
    decreases unit.maxVm - i
  {
    if i >= unit.maxVm then []
    else if VmSelected(unit, i) then [VmWrite(u, i, cmd)] + WriteAllVmFrom(u, unit, cmd, i + 1)
    else WriteAllVmFrom(u, unit, cmd, i + 1)
  }

  function WriteAllVm(u: nat, unit: Unit, cmd: Cmd): seq<Write>
  {
    WriteAllVmFrom(u, unit, cmd, 0)
  }

  /** Every write of `r` is `cmd` to a selected VM of unit `u` numbered `lo` or more. */
  predicate OnlySelected(r: seq<Write>, u: nat, unit: Unit, cmd: Cmd, lo: nat)
  {
    forall k :: 0 <= k < |r| ==>
      r[k].VmWrite? && r[k].unit == u && r[k].cmd == cmd && lo <= r[k].vm && VmSelected(unit, r[k].vm)
  }

  predicate VmIncreasing(r: seq<Write>)
  {
    forall k, l :: 0 <= k < l < |r| && r[k].VmWrite? && r[l].VmWrite? ==> r[k].vm < r[l].vm
  }

  /** Every selected VM numbered `lo` or more receives `cmd`. */
  ghost predicate AllSelected(r: seq<Write>, u: nat, unit: Unit, cmd: Cmd, lo: nat)
  {
    forall v :: lo <= v && VmSelected(unit, v) ==> VmWrite(u, v, cmd) in r
  }

  /** The walk from VM `i` writes `cmd` to exactly the selected VMs from
      `i` on, once each, in increasing order. */
  lemma WriteAllVmFromSpec(u: nat, unit: Unit, cmd: Cmd, i: nat)
    ensures OnlySelected(WriteAllVmFrom(u, unit, cmd, i), u, unit, cmd, i)
    ensures VmIncreasing(WriteAllVmFrom(u, unit, cmd, i))
    ensures AllSelected(WriteAllVmFrom(u, unit, cmd, i), u, unit, cmd, i)
  {
    WriteAllVmFromOnly(u, unit, cmd, i);
    WriteAllVmFromIncreasing(u, unit, cmd, i);
    WriteAllVmFromAll(u, unit, cmd, i);
  }

  lemma {:induction false} WriteAllVmFromOnly(u: nat, unit: Unit, cmd: Cmd, i: nat)
    ensures OnlySelected(WriteAllVmFrom(u, unit, cmd, i), u, unit, cmd, i)
    decreases unit.maxVm - i
  {
    if i < unit.maxVm {
      WriteAllVmFromOnly(u, unit, cmd, i + 1);
      var rest := WriteAllVmFrom(u, unit, cmd, i + 1);
      if VmSelected(unit, i) {
        var r := [VmWrite(u, i, cmd)] + rest;
        assert WriteAllVmFrom(u, unit, cmd, i) == r;
        forall k | 0 <= k < |r|
          ensures r[k].VmWrite? && r[k].unit == u && r[k].cmd == cmd && i <= r[k].vm && VmSelected(unit, r[k].vm)
        {
          if k > 0 {
            assert r[k] == rest[k - 1];
          }
        }
      } else {
        assert WriteAllVmFrom(u, unit, cmd, i) == rest;
      }
    }
  }

  lemma {:induction false} WriteAllVmFromIncreasing(u: nat, unit: Unit, cmd: Cmd, i: nat)
    ensures VmIncreasing(WriteAllVmFrom(u, unit, cmd, i))
    decreases unit.maxVm - i
  {
    if i < unit.maxVm {
      WriteAllVmFromIncreasing(u, unit, cmd, i + 1);
      var rest := WriteAllVmFrom(u, unit, cmd, i + 1);
      if VmSelected(unit, i) {
        WriteAllVmFromOnly(u, unit, cmd, i + 1);
        var r := [VmWrite(u, i, cmd)] + rest;
        assert WriteAllVmFrom(u, unit, cmd, i) == r;
        forall k, l | 0 <= k < l < |r| && r[k].VmWrite? && r[l].VmWrite?
          ensures r[k].vm < r[l].vm
        {
          assert r[l] == rest[l - 1];
          if k > 0 {
            assert r[k] == rest[k - 1];
          }
        }
      } else {
        assert WriteAllVmFrom(u, unit, cmd, i) == rest;
      }
    }
  }

  lemma {:induction false} WriteAllVmFromAll(u: nat, unit: Unit, cmd: Cmd, i: nat)
    ensures AllSelected(WriteAllVmFrom(u, unit, cmd, i), u, unit, cmd, i)
    decreases unit.maxVm - i
  {
    if i < unit.maxVm {
      WriteAllVmFromAll(u, unit, cmd, i + 1);
      var rest := WriteAllVmFrom(u, unit, cmd, i + 1);
      if VmSelected(unit, i) {
        var r := [VmWrite(u, i, cmd)] + rest;
        assert WriteAllVmFrom(u, unit, cmd, i) == r;
        forall v | i <= v && VmSelected(unit, v)
          ensures VmWrite(u, v, cmd) in r
        {
          if v > i {
            assert VmWrite(u, v, cmd) in rest;
          }
        }
      } else {
        assert WriteAllVmFrom(u, unit, cmd, i) == rest;
        forall v | i <= v && VmSelected(unit, v)
          ensures VmWrite(u, v, cmd) in rest
        {
          assert v != i;
        }
      }
    }
  }

  /** A write reaches a VM exactly when that VM is selected, once, and in
      increasing VM order. */
  lemma WriteAllVmExactly(u: nat, unit: Unit, cmd: Cmd)
    ensures forall w :: w in WriteAllVm(u, unit, cmd) <==> w.VmWrite? && w.unit == u && w.cmd == cmd && VmSelected(unit, w.vm)
    ensures forall k, l :: 0 <= k < l < |WriteAllVm(u, unit, cmd)| ==> WriteAllVm(u, unit, cmd)[k].vm < WriteAllVm(u, unit, cmd)[l].vm
  {
    WriteAllVmFromSpec(u, unit, cmd, 0);
    var r := WriteAllVm(u, unit, cmd);
    assert OnlySelected(r, u, unit, cmd, 0) && VmIncreasing(r) && AllSelected(r, u, unit, cmd, 0);
    forall w | w in r
      ensures w.VmWrite? && w.unit == u && w.cmd == cmd && VmSelected(unit, w.vm)
    {
      var k :| 0 <= k < |r| && r[k] == w;
    }
  }

  // ---------------------------------------------------------------------
  // Unit register sequences
  // ---------------------------------------------------------------------

  /** `__sysmmu_invalidate_all`. */
  function InvalidateAllWrites(u: nat, unit: Unit): seq<Write>
  {
    WriteAllVm(u, unit, InvalidateAll)
  }

  /** The start field of a range invalidation: `ALIGN_DOWN(start, SPAGE_SIZE) >> 4`, cut to 32 bits. */
  function StartVpn(start: nat): (v: nat)
    ensures v < U32
  {
    (AlignDown(start % U64, SPAGE_SIZE) / 16) % U32
  }

  /** The end field: `(ALIGN_DOWN(end - 1, SPAGE_SIZE) >> 4) | 1`, with
      `end - 1` in 64-bit arithmetic and the result cut to 32 bits. */
  function EndVpn(end: nat): (v: nat)
    ensures v < U32
  {
    var last := (end % U64 + U64 - 1) % U64;
    var page := AlignDown(last, SPAGE_SIZE) / 16;
    (page + (if page % 2 == 0 then 1 else 0)) % U32
  }

  /** `__sysmmu_invalidate(start, end)`. */
  function InvalidateRangeWrites(u: nat, unit: Unit, start: nat, end: nat): seq<Write>
  {
    WriteAllVm(u, unit, RangeStart(StartVpn(start))) + WriteAllVm(u, unit, RangeEndTrigger(EndVpn(end)))
  }

  /** For a non-empty range inside the 36-bit space, the two fields name
      the first and the last 4 KiB page of the range in the register's
      `address >> 4` encoding, with the trigger bit set on the end. */
  lemma RangeFieldsCover(start: nat, end: nat)
    requires start < end <= 0x10_0000_0000
    ensures StartVpn(start) == 256 * (start / SPAGE_SIZE)
    ensures EndVpn(end) == 256 * ((end - 1) / SPAGE_SIZE) + 1
    ensures StartVpn(start) * 16 <= start < StartVpn(start) * 16 + SPAGE_SIZE
    ensures (EndVpn(end) - 1) * 16 <= end - 1 < (EndVpn(end) - 1) * 16 + SPAGE_SIZE
    ensures StartVpn(start) <= EndVpn(end) - 1
  {
    var q := start / SPAGE_SIZE;
    var p := (end - 1) / SPAGE_SIZE;
    StartVpnIsPage(start);
    EndVpnIsPage(end);
    assert SPAGE_SIZE * q <= start < SPAGE_SIZE * q + SPAGE_SIZE;
    assert SPAGE_SIZE * p <= end - 1 < SPAGE_SIZE * p + SPAGE_SIZE;
    assert q <= p;
  }

  lemma StartVpnIsPage(start: nat)
    requires start < 0x10_0000_0000
    ensures StartVpn(start) == 256 * (start / SPAGE_SIZE)
  {
    var q := start / SPAGE_SIZE;
    assert start % U64 == start;
    AlignDownPage(start);
    assert q < 0x100_0000;
    assert 256 * q < U32;
  }

  lemma EndVpnIsPage(end: nat)
    requires 0 < end <= 0x10_0000_0000
    ensures EndVpn(end) == 256 * ((end - 1) / SPAGE_SIZE) + 1
  {
    var p := (end - 1) / SPAGE_SIZE;
    var last := (end % U64 + U64 - 1) % U64;
    assert end % U64 == end;
    assert last == end - 1 by {
      assert end + U64 - 1 == (end - 1) + U64;
    }
    var page := AlignDown(last, SPAGE_SIZE) / 16;
    AlignDownPage(end - 1);
    assert page == 256 * p;
    assert page % 2 == 0;
    assert p < 0x100_0000;
    assert page + 1 < U32;
  }

  /** Aligning down to a 4 KiB page in the register's `address >> 4` units. */
  lemma AlignDownPage(x: nat)
    ensures AlignDown(x, SPAGE_SIZE) == SPAGE_SIZE * (x / SPAGE_SIZE)
    ensures AlignDown(x, SPAGE_SIZE) / 16 == 256 * (x / SPAGE_SIZE)
  {
    var q := x / SPAGE_SIZE;
    assert x == SPAGE_SIZE * q + x % SPAGE_SIZE;
    assert SPAGE_SIZE * q == 16 * (256 * q);
  }

  /** `__sysmmu_disable`. */
  function DisableWrites(u: nat, unit: Unit): seq<Write>
  {
    WriteAllVm(u, unit, CtrlDisable) + InvalidateAllWrites(u, unit)
  }

  /** `__sysmmu_enable`: enable, point every VM at the first-level table,
      configure, invalidate. */
  function EnableWrites(u: nat, unit: Unit): seq<Write>
  {
    WriteAllVm(u, unit, CtrlEnable) + WriteAllVm(u, unit, FlptBase((unit.pgtable / SPAGE_SIZE) % U32))
      + [ConfigWrite(u)] + InvalidateAllWrites(u, unit)
  }

  /** After an enable every selected VM has been enabled, been given the
      unit's table, and been invalidated, in that order. */
  lemma EnableOrder(u: nat, unit: Unit, vm: nat)
    requires VmSelected(unit, vm)
    ensures var w := EnableWrites(u, unit);
      exists a, b, c :: 0 <= a < b < c < |w| &&
        w[a] == VmWrite(u, vm, CtrlEnable) &&
        w[b] == VmWrite(u, vm, FlptBase((unit.pgtable / SPAGE_SIZE) % U32)) &&
        w[c] == VmWrite(u, vm, InvalidateAll)
  {
    var e := WriteAllVm(u, unit, CtrlEnable);
    var f := WriteAllVm(u, unit, FlptBase((unit.pgtable / SPAGE_SIZE) % U32));
    var i := InvalidateAllWrites(u, unit);
    var w := EnableWrites(u, unit);
    WriteAllVmExactly(u, unit, CtrlEnable);
    WriteAllVmExactly(u, unit, FlptBase((unit.pgtable / SPAGE_SIZE) % U32));
    WriteAllVmExactly(u, unit, InvalidateAll);
    assert VmWrite(u, vm, CtrlEnable) in e;
    assert VmWrite(u, vm, FlptBase((unit.pgtable / SPAGE_SIZE) % U32)) in f;
    assert VmWrite(u, vm, InvalidateAll) in i;
    var a :| 0 <= a < |e| && e[a] == VmWrite(u, vm, CtrlEnable);
    var b :| 0 <= b < |f| && f[b] == VmWrite(u, vm, FlptBase((unit.pgtable / SPAGE_SIZE) % U32));
    var c :| 0 <= c < |i| && i[c] == VmWrite(u, vm, InvalidateAll);
    Index3(e, f, [ConfigWrite(u)], i, a, b, c);
    assert w == e + f + [ConfigWrite(u)] + i;
  }

  /** Positions in a four-part concatenation. */
  lemma Index3<T>(e: seq<T>, f: seq<T>, g: seq<T>, i: seq<T>, a: nat, b: nat, c: nat)
    requires a < |e| && b < |f| && c < |i|
    ensures var w := e + f + g + i;
      && a < |e| + b < |e| + |f| + |g| + c < |w|
      && w[a] == e[a] && w[|e| + b] == f[b] && w[|e| + |f| + |g| + c] == i[c]
  {
  }

  // ---------------------------------------------------------------------
  // Invalidation fan-out (flush_iotlb_all, iotlb_sync)
  // ---------------------------------------------------------------------

  /** Units that take invalidations: attached and runtime-resumed. */
  predicate Serving(unit: Unit)
  {
    unit.attachedCount != 0 && unit.rpmCount > 0
  }

  /** A register write to a selected VM of a serving unit of `ids`. */
  predicate ReachesServing(s: Sys, ids: seq<nat>, w: Write)
  {
    w.VmWrite? && w.unit in ids && w.unit < |s.units| && Serving(s.units[w.unit]) && VmSelected(s.units[w.unit], w.vm)
  }

  predicate ValidIds(s: Sys, ids: seq<nat>)
  {
    forall k :: 0 <= k < |ids| ==> ids[k] < |s.units|
  }

  /** The units of group `g`, in list order. */
  function GroupList(s: Sys, g: nat): seq<nat>
  {
    if g in s.lists then s.lists[g] else []
  }

  /** What an invalidation asks of a unit. */
  datatype Inval = All | Range(start: nat, end: nat)

  /** The write carries a command of invalidation `op`: the full
      invalidation, or one of the two range registers for that range. */
  predicate InvalCmd(op: Inval, w: Write)
  {
    w.VmWrite? &&
    match op
    case All => w.cmd == InvalidateAll
    case Range(start, end) => w.cmd == RangeStart(StartVpn(start)) || w.cmd == RangeEndTrigger(EndVpn(end))
  }

  function InvalWrites(u: nat, unit: Unit, op: Inval): seq<Write>
  {
    if op.All? then InvalidateAllWrites(u, unit) else InvalidateRangeWrites(u, unit, op.start, op.end)
  }

  /** The write log of walking `ids`, invalidating each live unit. */
  function FanOut(s: Sys, ids: seq<nat>, op: Inval): (r: seq<Write>)
    requires ValidIds(s, ids)
    ensures forall k :: 0 <= k < |r| ==>
      r[k].VmWrite? && r[k].unit in ids && Serving(s.units[r[k].unit]) && VmSelected(s.units[r[k].unit], r[k].vm)
    ensures forall k :: 0 <= k < |r| ==> InvalCmd(op, r[k])
    ensures forall u, vm :: u in ids && u < |s.units| && Serving(s.units[u]) && VmSelected(s.units[u], vm) ==>
      && (op.All? ==> VmWrite(u, vm, InvalidateAll) in r)
      && (op.Range? ==> VmWrite(u, vm, RangeStart(StartVpn(op.start))) in r)
      && (op.Range? ==> VmWrite(u, vm, RangeEndTrigger(EndVpn(op.end))) in r)
  {
    if |ids| == 0 then []
    else
      var rest := FanOut(s, ids[1..], op);
      var u := ids[0];
      var mine := if Serving(s.units[u]) then InvalWrites(u, s.units[u], op) else [];
      assert forall x :: x in ids[1..] ==> x in ids;
      var st := if op.Range? then op.start else 0;
      var en := if op.Range? then op.end else 0;
      WriteAllVmExactly(u, s.units[u], InvalidateAll);
      WriteAllVmExactly(u, s.units[u], RangeStart(StartVpn(st)));
      WriteAllVmExactly(u, s.units[u], RangeEndTrigger(EndVpn(en)));
      mine + rest
  }

  /** A unit receives a write from the fan-out exactly when it is on the
      walked list, live, and has a selected VM. */
  lemma FanOutReachesIff(s: Sys, ids: seq<nat>, op: Inval, u: nat)
    requires ValidIds(s, ids) && u < |s.units|
    ensures (exists k :: 0 <= k < |FanOut(s, ids, op)| && FanOut(s, ids, op)[k].unit == u) <==>
      (u in ids && Serving(s.units[u]) && exists vm :: VmSelected(s.units[u], vm))
  {
    var r := FanOut(s, ids, op);
    if u in ids && Serving(s.units[u]) && exists vm :: VmSelected(s.units[u], vm) {
      var vm :| VmSelected(s.units[u], vm);
      var w := if op.All? then VmWrite(u, vm, InvalidateAll) else VmWrite(u, vm, RangeStart(StartVpn(op.start)));
      assert w in r;
      var k :| 0 <= k < |r| && r[k] == w;
      assert r[k].unit == u;
      assert exists k :: 0 <= k < |FanOut(s, ids, op)| && FanOut(s, ids, op)[k].unit == u;
    }
    if exists k :: 0 <= k < |r| && r[k].unit == u {
      var k :| 0 <= k < |r| && r[k].unit == u;
      var vm := r[k].vm;
      assert u in ids && Serving(s.units[u]) && VmSelected(s.units[u], vm);
    }
  }

  /** `samsung_sysmmu_flush_iotlb_all` (`op == All`) and
      `samsung_sysmmu_iotlb_sync` (`op == Range`): nothing before the domain
      has a group, otherwise every live unit of the group's list. */
  function FlushDomain(s: Sys, group: Option<nat>, op: Inval): (r: Sys)
    requires group.Some? ==> ValidIds(s, GroupList(s, group.value))
    ensures r.units == s.units && r.lists == s.lists
    ensures group.None? ==> r == s
    ensures group.Some? ==> r.log == s.log + FanOut(s, GroupList(s, group.value), op)
  {
    match group
    case None => s
    case Some(g) => s.(log := s.log + FanOut(s, GroupList(s, g), op))
  }

  // ---------------------------------------------------------------------
  // Attach and detach (attach_dev, detach_drvdata, detach_dev)
  // ---------------------------------------------------------------------

  function Counts(s: Sys): seq<int>
  {
    seq(|s.units|, k requires 0 <= k < |s.units| => s.units[k].attachedCount)
  }

  /** `list_del`: drop the unit from the list it is on. */
  function ListDel(lists: map<nat, seq<nat>>, g: Option<nat>, u: nat): (r: map<nat, seq<nat>>)
    ensures r.Keys == lists.Keys
    ensures forall h :: h in lists && g != Some(h) ==> r[h] == lists[h]
    ensures g.Some? && g.value in lists ==> u !in r[g.value] && forall x :: x in lists[g.value] && x != u ==> x in r[g.value]
  {
    match g
    case None => lists
    case Some(h) =>
      if h in lists then lists[h := RemoveAll(lists[h], u)] else lists
  }

  function RemoveAll(l: seq<nat>, u: nat): (r: seq<nat>)
    ensures forall x :: x in r <==> x in l && x != u
  {
    if |l| == 0 then [] else (if l[0] == u then [] else [l[0]]) + RemoveAll(l[1..], u)
  }

  /** `samsung_sysmmu_detach_drvdata`: drop one reference; the last one
      disables the unit if it is runtime-active, takes it off its group's
      list and forgets the table and group. */
  function DetachDrvdata(s: Sys, u: nat): (r: Sys)
    requires u < |s.units|
    ensures |r.units| == |s.units|
    ensures forall x :: 0 <= x < |s.units| && x != u ==> r.units[x] == s.units[x]
    ensures r.units[u].attachedCount == s.units[u].attachedCount - 1
    ensures r.units[u].rpmCount == s.units[u].rpmCount && r.units[u].rpmActive == s.units[u].rpmActive
    ensures s.units[u].attachedCount != 1 ==> r == s.(units := s.units[u := s.units[u].(attachedCount := s.units[u].attachedCount - 1)])
    ensures s.units[u].attachedCount == 1 ==>
      && r.units[u].pgtable == 0 && r.units[u].group.None?
      && r.lists == ListDel(s.lists, s.units[u].group, u)
      && r.log == s.log + (if s.units[u].rpmActive then DisableWrites(u, s.units[u]) else [])
  {
    var d := s.units[u];
    var c := d.attachedCount - 1;
    if c == 0 then
      var log := if d.rpmActive then s.log + DisableWrites(u, d) else s.log;
      Sys(s.units[u := d.(attachedCount := c, pgtable := 0, group := None)], ListDel(s.lists, d.group, u), log)
    else
      s.(units := s.units[u := d.(attachedCount := c)])
  }

  /** One iteration of the attach loop: take a reference; the first one
      puts the unit on the group's list (`list_add`, at the head), records
      group and table, and enables the unit if it is runtime-active. The
      boolean is false when the unit already serves a different table. */
  function AttachUnit(s: Sys, u: nat, g: nat, pt: nat): (r: (Sys, bool))
    requires u < |s.units|
    ensures |r.0.units| == |s.units|
    ensures forall x :: 0 <= x < |s.units| && x != u ==> r.0.units[x] == s.units[x]
    ensures r.0.units[u].attachedCount == s.units[u].attachedCount + 1
    ensures r.1 <==> s.units[u].attachedCount == 0 || s.units[u].pgtable == pt
    ensures s.units[u].attachedCount == 0 ==>
      && r.0.units[u].pgtable == pt && r.0.units[u].group == Some(g)
      && r.0.lists == s.lists[g := [u] + GroupList(s, g)]
      && r.0.log == s.log + (if s.units[u].rpmActive then EnableWrites(u, r.0.units[u]) else [])
    ensures s.units[u].attachedCount != 0 ==> r.0 == s.(units := s.units[u := s.units[u].(attachedCount := s.units[u].attachedCount + 1)])
  {
    var d := s.units[u];
    if d.attachedCount == 0 then
      var d1 := d.(attachedCount := 1, group := Some(g), pgtable := pt);
      var log := if d.rpmActive then s.log + EnableWrites(u, d1) else s.log;
      (Sys(s.units[u := d1], s.lists[g := [u] + GroupList(s, g)], log), true)
    else
      var s1 := s.(units := s.units[u := d.(attachedCount := d.attachedCount + 1)]);
      (s1, d.pgtable == pt)
  }

  /** The attach loop over the client's units from position `i`: the
      number of units handled before a conflict (all of them when there is
      none) and whether it ran through. */
  function AttachLoop(s: Sys, us: seq<nat>, i: nat, g: nat, pt: nat): (r: (Sys, nat, bool))
    requires ValidIds(s, us) && i <= |us|
    ensures |r.0.units| == |s.units| && i <= r.1 <= |us|
    ensures r.2 ==> r.1 == |us|
    ensures !r.2 ==> r.1 < |us|
    decreases |us| - i
  {
    if i == |us| then (s, i, true)
    else
      var a := AttachUnit(s, us[i], g, pt);
      if !a.1 then (a.0, i, false)
      else AttachLoop(a.0, us, i + 1, g, pt)
  }

  /** The loop takes one reference per occurrence of a unit among the
      positions it touched, the conflicting one included. */
  lemma {:induction false} AttachLoopCounts(s: Sys, us: seq<nat>, i: nat, g: nat, pt: nat)
    requires ValidIds(s, us) && i <= |us|
    ensures var r := AttachLoop(s, us, i, g, pt);
      forall x :: 0 <= x < |s.units| ==>
        r.0.units[x].attachedCount == s.units[x].attachedCount + multiset(us[i..TouchedUpTo(r.1, r.2, |us|)])[x]
    decreases |us| - i
  {
    if i < |us| {
      var a := AttachUnit(s, us[i], g, pt);
      var r := AttachLoop(s, us, i, g, pt);
      if !a.1 {
        assert r == (a.0, i, false);
        assert us[i..TouchedUpTo(r.1, r.2, |us|)] == [us[i]];
      } else {
        AttachLoopCounts(a.0, us, i + 1, g, pt);
        assert r == AttachLoop(a.0, us, i + 1, g, pt);
        var j := TouchedUpTo(r.1, r.2, |us|);
        assert forall x :: 0 <= x < |s.units| ==>
          a.0.units[x].attachedCount == s.units[x].attachedCount + multiset([us[i]])[x];
        CountsCons(s, a.0, r.0, us, i, j);
      }
    }
  }

  /** One reference for `us[i]`, then the counts of `us[i + 1..j]`, make
      the counts of `us[i..j]`. */
  lemma CountsCons(s: Sys, a: Sys, r: Sys, us: seq<nat>, i: nat, j: nat)
    requires i < j <= |us| && |a.units| == |s.units| && |r.units| == |s.units|
    requires forall x :: 0 <= x < |s.units| ==>
      a.units[x].attachedCount == s.units[x].attachedCount + multiset([us[i]])[x]
    requires forall x :: 0 <= x < |s.units| ==>
      r.units[x].attachedCount == a.units[x].attachedCount + multiset(us[i + 1..j])[x]
    ensures forall x :: 0 <= x < |s.units| ==>
      r.units[x].attachedCount == s.units[x].attachedCount + multiset(us[i..j])[x]
  {
    assert us[i..j] == [us[i]] + us[i + 1..j];
  }

  /** How far the loop has taken references: through the conflicting unit
      when there is one. */
  function TouchedUpTo(n: nat, ok: bool, len: nat): nat
  {
    if ok then n else if n < len then n + 1 else len
  }

  /** The rollback loop `while (i-- > 0) detach_drvdata(sysmmus[i])`:
      release the units of `us`, last first. */
  function DetachReverse(s: Sys, us: seq<nat>): (r: Sys)
    requires ValidIds(s, us)
    ensures |r.units| == |s.units|
    ensures forall x :: 0 <= x < |s.units| ==>
      r.units[x].attachedCount == s.units[x].attachedCount - multiset(us)[x]
    decreases |us|
  {
    if |us| == 0 then s
    else
      var s1 := DetachDrvdata(s, us[|us| - 1]);
      assert us == us[..|us| - 1] + [us[|us| - 1]];
      DetachReverse(s1, us[..|us| - 1])
  }

  /** `samsung_sysmmu_detach_dev`: release the client's units in order. */
  function DetachForward(s: Sys, us: seq<nat>): (r: Sys)
    requires ValidIds(s, us)
    ensures |r.units| == |s.units|
    ensures forall x :: 0 <= x < |s.units| ==>
      r.units[x].attachedCount == s.units[x].attachedCount - multiset(us)[x]
    decreases |us|
  {
    if |us| == 0 then s
    else
      assert us == [us[0]] + us[1..];
      DetachForward(DetachDrvdata(s, us[0]), us[1..])
  }

  /** The DMA aperture of a domain (`struct iommu_domain_geometry`). */
  datatype Geometry = Geometry(apertureStart: nat, apertureEnd: nat, forceAperture: bool)

  /** A domain: its page table, the table's physical address, the group it
      was last attached for, the aperture and the VA width. */
  datatype Domain = Domain(pt: PageTable, ptBase: nat, group: Option<nat>, geom: Geometry, isVa36: bool)

  /** What the attaching device brings: whether its fwspec is ours, its
      client data (the units it is linked to, `dev_iommu_priv_get`), its
      group and its `dma-window` property (start, size), if any. */
  datatype Device = Device(fwspecOurs: bool, client: Option<seq<nat>>, group: nat, window: Option<(nat, nat)>)

  datatype AttachResult = AttachResult(sys: Sys, dom: Domain, status: Status)

  /** `DMA_BIT_MASK(32)`. */
  const DMA_MASK_32: nat := 0xFFFF_FFFF

  /** The end of a DMA window `(start, size)`: `start + size` in 64-bit
      `dma_addr_t`, clamped to `DMA_BIT_MASK(32)`. */
  function WindowEnd(w: (nat, nat)): (e: nat)
    ensures e <= DMA_MASK_32
    ensures e == (w.0 + w.1) % U64 || e == DMA_MASK_32
  {
    Min((w.0 + w.1) % U64, DMA_MASK_32)
  }

  /** Address `a` lies in the interval from `lo` up to `hi`. */
  predicate Between(a: nat, lo: nat, hi: nat)
  {
    lo <= a < hi
  }

  /** `samsung_sysmmu_set_domain_range`: narrow the aperture to the
      device's DMA window (the end clamped to 32 bits). A forced aperture
      is intersected and an empty intersection is `-ERANGE`; otherwise the
      window becomes the aperture and is forced. No window, no change. */
  function SetDomainRange(geom: Geometry, window: Option<(nat, nat)>): (r: (Geometry, Status))
    ensures r.1.Success? || r.1 == Failure(ERANGE)
    ensures window.Some? && !geom.forceAperture ==>
      r == (Geometry(window.value.0, WindowEnd(window.value), true), Success)
    ensures window.Some? && geom.forceAperture ==>
      (r.1.Success? <==> Max(window.value.0, geom.apertureStart) < Min(WindowEnd(window.value), geom.apertureEnd))
    ensures window.Some? && geom.forceAperture && r.1.Success? ==> forall a: nat ::
      Between(a, r.0.apertureStart, r.0.apertureEnd) <==>
        Between(a, geom.apertureStart, geom.apertureEnd) && Between(a, window.value.0, WindowEnd(window.value))
    ensures r.1.Failure? ==> r.0 == geom && geom.forceAperture
    ensures window.None? ==> r == (geom, Success)
    ensures window.Some? && r.1.Success? ==> r.0.forceAperture
    ensures window.Some? && r.1.Success? && geom.forceAperture ==>
      geom.apertureStart <= r.0.apertureStart < r.0.apertureEnd <= geom.apertureEnd
    ensures window.Some? && r.1.Success? ==>
      window.value.0 <= r.0.apertureStart && r.0.apertureEnd <= Min((window.value.0 + window.value.1) % U64, DMA_MASK_32)
  {
    match window
    case None => (geom, Success)
    case Some((start, size)) =>
      var end := WindowEnd((start, size));
      if geom.forceAperture then
        var dStart := Max(start, geom.apertureStart);
        var dEnd := Min(end, geom.apertureEnd);
        if dStart >= dEnd then (geom, Failure(ERANGE))
        else (Geometry(dStart, dEnd, true), Success)
      else (Geometry(start, end, true), Success)
  }

  /** Applying the same window again changes nothing, provided the first
      application left a non-empty aperture; an unforced aperture takes the
      window unchecked, so an empty window is accepted once and refused
      with `-ERANGE` the second time. */
  lemma SetDomainRangeIdempotent(geom: Geometry, window: Option<(nat, nat)>)
    requires window.Some? && SetDomainRange(geom, window).1.Success?
    ensures var g1 := SetDomainRange(geom, window).0;
      SetDomainRange(g1, window).1.Success? <==> g1.apertureStart < g1.apertureEnd
    ensures var g1 := SetDomainRange(geom, window).0;
      SetDomainRange(g1, window).1.Success? ==> SetDomainRange(g1, window).0 == g1
  {
  }

  /** `samsung_sysmmu_attach_dev` as written: on a conflict the units
      before the conflicting one are released, but the conflicting unit
      keeps the reference the loop has just taken. */
  function AttachDevAsWritten(s: Sys, d: Domain, dev: Device): (r: AttachResult)
    requires dev.client.Some? ==> ValidIds(s, dev.client.value)
    ensures !dev.fwspecOurs ==> r == AttachResult(s, d, Failure(ENXIO))
    ensures dev.fwspecOurs && dev.client.None? ==> r == AttachResult(s, d, Failure(ENODEV))
  {
    if !dev.fwspecOurs then AttachResult(s, d, Failure(ENXIO))
    else if dev.client.None? then AttachResult(s, d, Failure(ENODEV))
    else
      var us := dev.client.value;
      var d1 := d.(group := Some(dev.group));
      var l := AttachLoop(s, us, 0, dev.group, d.ptBase);
      if !l.2 then AttachResult(DetachReverse(l.0, us[..l.1]), d1, Failure(EINVAL))
      else
        var range := SetDomainRange(d1.geom, dev.window);
        if range.1.Failure? then AttachResult(DetachReverse(l.0, us), d1, range.1)
        else AttachResult(l.0, d1.(geom := range.0), Success)
  }

  /** The conflict leaves the conflicting unit one reference too many. */
  lemma AttachDevLeaksReference(s: Sys, d: Domain, dev: Device)
    requires dev.fwspecOurs && dev.client.Some? && ValidIds(s, dev.client.value)
    requires !AttachLoop(s, dev.client.value, 0, dev.group, d.ptBase).2
    ensures var k := AttachLoop(s, dev.client.value, 0, dev.group, d.ptBase).1;
      var u := dev.client.value[k];
      && AttachDevAsWritten(s, d, dev).status == Failure(EINVAL)
      && AttachDevAsWritten(s, d, dev).sys.units[u].attachedCount == s.units[u].attachedCount + 1
  {
    var us := dev.client.value;
    var l := AttachLoop(s, us, 0, dev.group, d.ptBase);
    AttachLoopCounts(s, us, 0, dev.group, d.ptBase);
    var k := l.1;
    var u := us[k];
    assert us[0..TouchedUpTo(k, false, |us|)] == us[..k] + [u];
    var back := DetachReverse(l.0, us[..k]);
    assert AttachDevAsWritten(s, d, dev).sys == back;
    assert back.units[u].attachedCount == l.0.units[u].attachedCount - multiset(us[..k])[u];
  }

  /** Unit `u` is already attached, to another page table. */
  predicate Conflicts(s: Sys, u: nat, pt: nat)
    requires u < |s.units|
  {
    s.units[u].attachedCount != 0 && s.units[u].pgtable != pt
  }

  /** Some unit of `us` is already attached to another page table. */
  predicate AnyConflict(s: Sys, us: seq<nat>, pt: nat)
    requires ValidIds(s, us)
  {
    exists k :: 0 <= k < |us| && Conflicts(s, us[k], pt)
  }

  /** The attach loop from position `i` stops on a conflict exactly when
      some later unit conflicts in the state it starts from; the units
      before `i` already hold the page table, so a unit listed twice never
      conflicts with itself. */
  lemma {:induction false} AttachLoopFailsIff(s: Sys, us: seq<nat>, i: nat, g: nat, pt: nat)
    requires ValidIds(s, us) && i <= |us|
    requires forall k :: 0 <= k < i ==> s.units[us[k]].pgtable == pt
    ensures !AttachLoop(s, us, i, g, pt).2 <==> exists k :: i <= k < |us| && Conflicts(s, us[k], pt)
    decreases |us| - i
  {
    if i < |us| {
      var a := AttachUnit(s, us[i], g, pt);
      if a.1 {
        assert a.0.units[us[i]].pgtable == pt;
        AttachLoopFailsIff(a.0, us, i + 1, g, pt);
        forall k | i + 1 <= k < |us|
          ensures Conflicts(a.0, us[k], pt) <==> Conflicts(s, us[k], pt)
        {
          if us[k] != us[i] {
            assert a.0.units[us[k]] == s.units[us[k]];
          }
        }
      }
    }
  }

  /** `samsung_sysmmu_attach_dev` with the conflicting unit's reference
      released too: the rollback covers every unit the loop touched. */
  function AttachDev(s: Sys, d: Domain, dev: Device): (r: AttachResult)
    requires dev.client.Some? ==> ValidIds(s, dev.client.value)
    ensures !dev.fwspecOurs ==> r == AttachResult(s, d, Failure(ENXIO))
    ensures dev.fwspecOurs && dev.client.None? ==> r == AttachResult(s, d, Failure(ENODEV))
    ensures dev.fwspecOurs && dev.client.Some? ==>
      (r.status == Failure(EINVAL) <==> AnyConflict(s, dev.client.value, d.ptBase))
    ensures dev.fwspecOurs && dev.client.Some? ==>
      (r.status == Failure(ERANGE) <==>
        !AnyConflict(s, dev.client.value, d.ptBase) && SetDomainRange(d.geom, dev.window).1.Failure?)
    ensures r.status.Success? <==>
      dev.fwspecOurs && dev.client.Some? &&
      !AnyConflict(s, dev.client.value, d.ptBase) && SetDomainRange(d.geom, dev.window).1.Success?
    ensures r.status.Success? ==> r.dom.geom == SetDomainRange(d.geom, dev.window).0
    ensures r.status.Success? || r.status.error in {ENXIO, ENODEV, EINVAL, ERANGE}
    ensures dev.fwspecOurs && dev.client.Some? ==> r.dom.group == Some(dev.group)
    ensures |r.sys.units| == |s.units|
    ensures r.status.Failure? ==> forall x :: 0 <= x < |s.units| ==>
      r.sys.units[x].attachedCount == s.units[x].attachedCount
    ensures r.status.Success? ==> forall x :: 0 <= x < |s.units| ==>
      r.sys.units[x].attachedCount == s.units[x].attachedCount + multiset(dev.client.value)[x]
  {
    if !dev.fwspecOurs then AttachResult(s, d, Failure(ENXIO))
    else if dev.client.None? then AttachResult(s, d, Failure(ENODEV))
    else
      var us := dev.client.value;
      var d1 := d.(group := Some(dev.group));
      var l := AttachAll(s, us, dev.group, d.ptBase);
      AttachLoopFailsIff(s, us, 0, dev.group, d.ptBase);
      if !l.1 then AttachResult(l.0, d1, Failure(EINVAL))
      else
        var range := SetDomainRange(d1.geom, dev.window);
        if range.1.Failure? then AttachResult(DetachReverse(l.0, us), d1, range.1)
        else AttachResult(l.0, d1.(geom := range.0), Success)
  }

  /** The attach loop with the corrected rollback: either every unit gains
      one reference per occurrence, or no count changes. */
  function AttachAll(s: Sys, us: seq<nat>, g: nat, pt: nat): (r: (Sys, bool))
    requires ValidIds(s, us)
    ensures |r.0.units| == |s.units|
    ensures r.1 <==> AttachLoop(s, us, 0, g, pt).2
    ensures !r.1 ==> forall x :: 0 <= x < |s.units| ==>
      r.0.units[x].attachedCount == s.units[x].attachedCount
    ensures r.1 ==> forall x :: 0 <= x < |s.units| ==>
      r.0.units[x].attachedCount == s.units[x].attachedCount + multiset(us)[x]
  {
    var l := AttachLoop(s, us, 0, g, pt);
    AttachLoopCounts(s, us, 0, g, pt);
    assert us[0..|us|] == us;
    if !l.2 then (DetachReverse(l.0, us[..l.1 + 1]), false)
    else (l.0, true)
  }

  /** `samsung_sysmmu_detach_dev`. */
  function DetachDev(s: Sys, dev: Device): (r: Sys)
    requires dev.client.Some? && ValidIds(s, dev.client.value)
    ensures |r.units| == |s.units|
    ensures forall x :: 0 <= x < |s.units| ==>
      r.units[x].attachedCount == s.units[x].attachedCount - multiset(dev.client.value)[x]
  {
    DetachForward(s, dev.client.value)
  }

  /** Attaching and then detaching a device gives every unit back its
      reference count. */
  lemma AttachThenDetach(s: Sys, d: Domain, dev: Device)
    requires dev.client.Some? && ValidIds(s, dev.client.value)
    requires AttachDev(s, d, dev).status.Success?
    ensures forall x :: 0 <= x < |s.units| ==>
      DetachDev(AttachDev(s, d, dev).sys, dev).units[x].attachedCount == s.units[x].attachedCount
  {
  }

  /** The first reference of a unit makes it serve the domain: it records
      the domain's table and group and sits at the head of the group's list. */
  lemma FirstAttachJoinsGroup(s: Sys, u: nat, g: nat, pt: nat)
    requires u < |s.units| && s.units[u].attachedCount == 0
    ensures AttachUnit(s, u, g, pt).1
    ensures var r := AttachUnit(s, u, g, pt).0;
      r.units[u].pgtable == pt && r.units[u].group == Some(g) && GroupList(r, g)[0] == u
  {
  }

  /** Releasing the last reference takes the unit off its group's list. */
  lemma LastDetachLeavesGroup(s: Sys, u: nat)
    requires u < |s.units| && s.units[u].attachedCount == 1
    requires s.units[u].group.Some? && s.units[u].group.value in s.lists
    ensures var r := DetachDrvdata(s, u);
      u !in GroupList(r, s.units[u].group.value) && r.units[u].group.None? && r.units[u].attachedCount == 0
  {
  }

  /** Attach then detach of one unit from zero references takes it off the
      list again and restores the other units of the group. */
  lemma AttachUnitThenDetach(s: Sys, u: nat, g: nat, pt: nat)
    requires u < |s.units| && s.units[u].attachedCount == 0 && u !in GroupList(s, g)
    ensures var r := DetachDrvdata(AttachUnit(s, u, g, pt).0, u);
      && r.units[u].attachedCount == 0
      && GroupList(r, g) == GroupList(s, g)
  {
    var a := AttachUnit(s, u, g, pt).0;
    var l := GroupList(s, g);
    RemoveAbsent(l, u);
    assert ([u] + l)[1..] == l;
  }

  lemma {:induction false} RemoveAbsent(l: seq<nat>, u: nat)
    requires u !in l
    ensures RemoveAll(l, u) == l
  {
    if |l| > 0 {
      RemoveAbsent(l[1..], u);
      assert l == [l[0]] + l[1..];
    }
  }

  // ---------------------------------------------------------------------
  // Domain creation and of_xlate (the 36-bit latch)
  // ---------------------------------------------------------------------

  const IOMMU_DOMAIN_UNMANAGED: nat := 1
  const IOMMU_DOMAIN_DMA: nat := 3
  const IOMMU_DOMAIN_IDENTITY: nat := 4

  predicate SupportedKind(kind: nat)
  {
    kind == IOMMU_DOMAIN_UNMANAGED || kind == IOMMU_DOMAIN_DMA || kind == IOMMU_DOMAIN_IDENTITY
  }

  /** Which allocation, if any, fails in `samsung_sysmmu_domain_alloc`. */
  datatype AllocOutcome = AllocOk | NoDomainMemory | NoTableMemory | NoCounterMemory | NoDmaCookie

  /** `samsung_sysmmu_domain_alloc`: the new domain (or none) and the new
      value of the `exist_36bit_va` latch. The latch is consumed as soon as
      the domain structure itself is allocated. */
  function DomainAlloc(kind: nat, latch: bool, outcome: AllocOutcome, ptBase: nat): (r: (Option<Domain>, bool))
    ensures !SupportedKind(kind) ==> r == (None, latch)
    ensures outcome == NoDomainMemory ==> r == (None, latch)
    ensures SupportedKind(kind) && outcome != NoDomainMemory ==> !r.1
    ensures r.0.Some? <==>
      (SupportedKind(kind) &&
       (outcome == AllocOk || (outcome == NoDmaCookie && kind != IOMMU_DOMAIN_DMA)))
    ensures r.0.Some? ==>
      && r.0.value.isVa36 == latch
      && |r.0.value.pt.lv1| == (if latch then NUM_LV1ENTRIES_36BIT else NUM_LV1ENTRIES_32BIT)
      && Valid(r.0.value.pt)
      && r.0.value.group.None? && !r.0.value.geom.forceAperture
      && forall a :: InRange(r.0.value.pt, a) ==> Lookup(r.0.value.pt, a).None?
  {
    if !SupportedKind(kind) then (None, latch)
    else if outcome == NoDomainMemory then (None, latch)
    else
      var n := if latch then NUM_LV1ENTRIES_36BIT else NUM_LV1ENTRIES_32BIT;
      if outcome == NoTableMemory || outcome == NoCounterMemory then (None, false)
      else if kind == IOMMU_DOMAIN_DMA && outcome == NoDmaCookie then (None, false)
      else
        assert outcome.AllocOk? || outcome.NoDmaCookie?;
        (Some(Domain(EmptyTable(n), ptBase, None, Geometry(0, 0, false), latch)), false)
  }

  /** The client data a device ends up with after `of_xlate`. */
  datatype XlateResult = XlateResult(client: Option<seq<nat>>, latch: bool, status: Status)

  /** `samsung_sysmmu_of_xlate`: link unit `u` to the device (creating the
      client data on first use) and raise the latch if the unit has a
      36-bit VA space. The three allocation steps' outcomes are inputs:
      `fwspecErr` is the error of `iommu_fwspec_add_ids`, if any,
      `clientOk` that of the client-data allocation (made only when the
      device has none yet) and `linkOk` that of growing the link array. */
  function OfXlate(client: Option<seq<nat>>, u: nat, unitVa36: bool, latch: bool,
                   fwspecErr: Option<Errno>, clientOk: bool, linkOk: bool): (r: XlateResult)
    ensures r.status.Success? <==> fwspecErr.None? && (client.Some? || clientOk) && linkOk
    ensures fwspecErr.Some? ==> r == XlateResult(client, latch, Failure(fwspecErr.value))
    ensures r.status.Failure? ==> r.latch == latch
    ensures r.status.Failure? ==> r.client == client || (client.None? && r.client == Some([]))
    ensures r.status.Success? ==> r.client == Some(client.GetOr([]) + [u])
    ensures r.status.Success? ==> (r.latch <==> latch || unitVa36)
  {
    if fwspecErr.Some? then XlateResult(client, latch, Failure(fwspecErr.value))
    else if client.None? && !clientOk then XlateResult(client, latch, Failure(ENOMEM))
    else
      var links := client.GetOr([]);
      if !linkOk then XlateResult(Some(links), latch, Failure(ENOMEM))
      else XlateResult(Some(links + [u]), latch || unitVa36, Success)
  }

  /** The latch is one-shot: linking a 36-bit unit makes exactly the next
      domain allocated (past its first allocation) a 36-bit one, with a
      first-level table of `NUM_LV1ENTRIES_36BIT` slots, and the one after
      it a 32-bit one. */
  lemma LatchIsOneShot(client: Option<seq<nat>>, u: nat, latch: bool, kind: nat, ptBase: nat)
    requires SupportedKind(kind)
    ensures var l1 := OfXlate(client, u, true, latch, None, true, true).latch;
      var first := DomainAlloc(kind, l1, AllocOk, ptBase);
      var second := DomainAlloc(kind, first.1, AllocOk, ptBase);
      && first.0.Some? && first.0.value.isVa36 && |first.0.value.pt.lv1| == NUM_LV1ENTRIES_36BIT
      && second.0.Some? && !second.0.value.isVa36 && |second.0.value.pt.lv1| == NUM_LV1ENTRIES_32BIT
  {
  }

  // ---------------------------------------------------------------------
  // Map and unmap on a domain
  // ---------------------------------------------------------------------

  /** `samsung_sysmmu_map` on a domain: the table update, plus the
      synchronous invalidation `lv1set_section` issues when a section
      replaces an empty second-level table. */
  function DomainMap(s: Sys, d: Domain, iova: nat, paddr: nat, size: nat, prot: bv32, oom: bool): (r: (Sys, Domain, Status))
    requires MapRequest(d.pt, iova, size)
    requires d.group.Some? ==> ValidIds(s, GroupList(s, d.group.value))
    ensures r.1 == d.(pt := Map(d.pt, iova, paddr, size, prot, oom).pt)
    ensures r.2 == Map(d.pt, iova, paddr, size, prot, oom).status
    ensures r.0.units == s.units && r.0.lists == s.lists
    ensures Map(d.pt, iova, paddr, size, prot, oom).sync.None? ==> r.0 == s
    ensures Map(d.pt, iova, paddr, size, prot, oom).sync.Some? ==>
      r.0 == FlushDomain(s, d.group, Range(iova, iova + SECT_SIZE))
  {
    var m := Map(d.pt, iova, paddr, size, prot, oom);
    var s1 := match m.sync
      case None => s
      case Some(gth) => FlushDomain(s, d.group, Range(gth.start, gth.end));
    (s1, d.(pt := m.pt), m.status)
  }

  /** A section that replaces an empty second-level table is invalidated
      at once: every selected VM of every serving unit in the domain's group
      receives the range invalidation of the 1 MiB block. */
  lemma DomainMapInvalidates(s: Sys, d: Domain, iova: nat, paddr: nat, prot: bv32, oom: bool)
    requires MapRequest(d.pt, iova, SECT_SIZE)
    requires d.group.Some? && ValidIds(s, GroupList(s, d.group.value))
    requires d.pt.lv1[Lv1Index(iova)].Lv2Table? && d.pt.lv2entcnt[Lv1Index(iova)] == 0
    ensures var log := DomainMap(s, d, iova, paddr, SECT_SIZE, prot, oom).0.log;
      forall u, vm :: u in GroupList(s, d.group.value) && u < |s.units| && Serving(s.units[u]) && VmSelected(s.units[u], vm) ==>
        VmWrite(u, vm, RangeStart(StartVpn(iova))) in log &&
        VmWrite(u, vm, RangeEndTrigger(EndVpn(iova + SECT_SIZE))) in log
  {
    var f := FanOut(s, GroupList(s, d.group.value), Range(iova, iova + SECT_SIZE));
    assert DomainMap(s, d, iova, paddr, SECT_SIZE, prot, oom).0.log == s.log + f;
    forall w | w in f
      ensures w in DomainMap(s, d, iova, paddr, SECT_SIZE, prot, oom).0.log
    {
    }
  }

  /** `samsung_sysmmu_unmap` on a domain: the table update; the gathered
      range is invalidated later by `IotlbSync`. */
  function DomainUnmap(d: Domain, iova: nat, size: nat, gather: Gather): (r: (Domain, nat, Gather))
    requires UnmapRequest(d.pt, iova, size)
    ensures r.0 == d.(pt := Unmap(d.pt, iova, size, gather).pt)
    ensures r.1 == Unmap(d.pt, iova, size, gather).size
    ensures r.1 != 0 ==> r.2.start <= iova && iova + r.1 <= r.2.end
  {
    var u := Unmap(d.pt, iova, size, gather);
    (d.(pt := u.pt), u.size, u.gather)
  }

  /** `samsung_sysmmu_iotlb_sync`. */
  function IotlbSync(s: Sys, d: Domain, gather: Gather): (r: Sys)
    requires d.group.Some? ==> ValidIds(s, GroupList(s, d.group.value))
    ensures r.units == s.units && r.lists == s.lists
    ensures d.group.None? ==> r == s
    ensures forall u, vm ::
      (d.group.Some? && u in GroupList(s, d.group.value) && u < |s.units| && Serving(s.units[u]) && VmSelected(s.units[u], vm)) ==>
      VmWrite(u, vm, RangeStart(StartVpn(gather.start))) in r.log &&
      VmWrite(u, vm, RangeEndTrigger(EndVpn(gather.end))) in r.log
    ensures d.group.Some? ==> r.log == s.log + FanOut(s, GroupList(s, d.group.value), Range(gather.start, gather.end))
    ensures forall k :: |s.log| <= k < |r.log| ==>
      d.group.Some? && ReachesServing(s, GroupList(s, d.group.value), r.log[k]) &&
      InvalCmd(Range(gather.start, gather.end), r.log[k])
  {
    FlushDomain(s, d.group, Range(gather.start, gather.end))
  }

  /** `samsung_sysmmu_flush_iotlb_all`. */
  function FlushIotlbAll(s: Sys, d: Domain): (r: Sys)
    requires d.group.Some? ==> ValidIds(s, GroupList(s, d.group.value))
    ensures r.units == s.units && r.lists == s.lists
    ensures d.group.None? ==> r == s
    ensures forall u, vm ::
      (d.group.Some? && u in GroupList(s, d.group.value) && u < |s.units| && Serving(s.units[u]) && VmSelected(s.units[u], vm)) ==> VmWrite(u, vm, InvalidateAll) in r.log
    ensures d.group.Some? ==> r.log == s.log + FanOut(s, GroupList(s, d.group.value), All)
    ensures forall k :: |s.log| <= k < |r.log| ==>
      d.group.Some? && ReachesServing(s, GroupList(s, d.group.value), r.log[k]) && InvalCmd(All, r.log[k])
  {
    FlushDomain(s, d.group, All)
  }

  // ---------------------------------------------------------------------
  // Power management
  // ---------------------------------------------------------------------

  /** `samsung_sysmmu_runtime_suspend`, followed by the PM core marking the
      unit suspended. */
  function RuntimeSuspend(s: Sys, u: nat): (r: Sys)
    requires u < |s.units|
    ensures r.lists == s.lists && |r.units| == |s.units|
    ensures forall x :: 0 <= x < |s.units| && x != u ==> r.units[x] == s.units[x]
    ensures r.units[u] == s.units[u].(rpmCount := s.units[u].rpmCount - 1, rpmActive := false)
    ensures r.log == s.log + (if s.units[u].attachedCount > 0 then DisableWrites(u, s.units[u]) else [])
  {
    SuspendCallback(s, u).(units := SuspendCallback(s, u).units[u := SuspendCallback(s, u).units[u].(rpmActive := false)])
  }

  /** The body of `samsung_sysmmu_runtime_suspend`. */
  function SuspendCallback(s: Sys, u: nat): (r: Sys)
    requires u < |s.units|
    ensures r.lists == s.lists && |r.units| == |s.units|
    ensures forall x :: 0 <= x < |s.units| && x != u ==> r.units[x] == s.units[x]
    ensures r.units[u] == s.units[u].(rpmCount := s.units[u].rpmCount - 1)
    ensures r.log == s.log + (if s.units[u].attachedCount > 0 then DisableWrites(u, s.units[u]) else [])
  {
    var d := s.units[u];
    var log := if d.attachedCount > 0 then s.log + DisableWrites(u, d) else s.log;
    Sys(s.units[u := d.(rpmCount := d.rpmCount - 1)], s.lists, log)
  }

  /** The body of `samsung_sysmmu_runtime_resume`. */
  function ResumeCallback(s: Sys, u: nat): (r: Sys)
    requires u < |s.units|
    ensures r.lists == s.lists && |r.units| == |s.units|
    ensures forall x :: 0 <= x < |s.units| && x != u ==> r.units[x] == s.units[x]
    ensures r.units[u] == s.units[u].(rpmCount := s.units[u].rpmCount + 1)
    ensures r.log == s.log + (if s.units[u].attachedCount > 0 then EnableWrites(u, s.units[u]) else [])
  {
    var d := s.units[u];
    var log := if d.attachedCount > 0 then s.log + EnableWrites(u, d) else s.log;
    Sys(s.units[u := d.(rpmCount := d.rpmCount + 1)], s.lists, log)
  }

  /** `samsung_sysmmu_runtime_resume`, after which the PM core marks the
      unit active. */
  function RuntimeResume(s: Sys, u: nat): (r: Sys)
    requires u < |s.units|
    ensures r.lists == s.lists && |r.units| == |s.units|
    ensures forall x :: 0 <= x < |s.units| && x != u ==> r.units[x] == s.units[x]
    ensures r.units[u] == s.units[u].(rpmCount := s.units[u].rpmCount + 1, rpmActive := true)
    ensures r.log == s.log + (if s.units[u].attachedCount > 0 then EnableWrites(u, s.units[u]) else [])
  {
    ResumeCallback(s, u).(units := ResumeCallback(s, u).units[u := ResumeCallback(s, u).units[u].(rpmActive := true)])
  }

  /** `samsung_sysmmu_suspend` (system sleep): nothing for a unit that is
      already runtime-suspended, otherwise the runtime-suspend body; the
      runtime-PM status itself does not change. */
  function SystemSuspend(s: Sys, u: nat): (r: Sys)
    requires u < |s.units|
    ensures !s.units[u].rpmActive ==> r == s
    ensures s.units[u].rpmActive ==> r == SuspendCallback(s, u)
  {
    if !s.units[u].rpmActive then s else SuspendCallback(s, u)
  }

  /** `samsung_sysmmu_resume` (system wake-up). */
  function SystemResume(s: Sys, u: nat): (r: Sys)
    requires u < |s.units|
    ensures !s.units[u].rpmActive ==> r == s
    ensures s.units[u].rpmActive ==> r == ResumeCallback(s, u)
  {
    if !s.units[u].rpmActive then s else ResumeCallback(s, u)
  }

  /** A runtime suspend followed by a resume restores the unit's PM state. */
  lemma RuntimeSuspendResume(s: Sys, u: nat)
    requires u < |s.units| && s.units[u].rpmActive
    ensures RuntimeResume(RuntimeSuspend(s, u), u).units == s.units
  {
    var s2 := RuntimeResume(RuntimeSuspend(s, u), u);
    assert forall x :: 0 <= x < |s.units| ==> s2.units[x] == s.units[x];
  }

  /** ... and, for an attached unit, disables it and then re-enables it
      with the same table. */
  lemma RuntimeSuspendResumeWrites(s: Sys, u: nat)
    requires u < |s.units| && s.units[u].rpmActive
    ensures RuntimeResume(RuntimeSuspend(s, u), u).log ==
      s.log + (if s.units[u].attachedCount > 0 then DisableWrites(u, s.units[u]) + EnableWrites(u, s.units[u]) else [])
  {
    var d := s.units[u];
    var s1 := RuntimeSuspend(s, u);
    var s2 := RuntimeResume(s1, u);
    EnableWritesFrame(u, s1.units[u], d);
    if d.attachedCount > 0 {
      var dis := DisableWrites(u, d);
      var en := EnableWrites(u, d);
      assert s1.log == s.log + dis;
      assert s2.log == s1.log + en;
      assert s2.log == s.log + (dis + en);
    }
  }

  /** The enable sequence depends only on the unit's registers-facing
      fields, not on its reference counts. */
  lemma EnableWritesFrame(u: nat, a: Unit, b: Unit)
    requires a.pgtable == b.pgtable && a.maxVm == b.maxVm && a.vmids == b.vmids
    ensures EnableWrites(u, a) == EnableWrites(u, b)
  {
    WriteAllVmFrame(u, a, b, CtrlEnable, 0);
    WriteAllVmFrame(u, a, b, FlptBase((a.pgtable / SPAGE_SIZE) % U32), 0);
    WriteAllVmFrame(u, a, b, InvalidateAll, 0);
  }

  lemma {:induction false} WriteAllVmFrame(u: nat, a: Unit, b: Unit, cmd: Cmd, i: nat)
    requires a.maxVm == b.maxVm && a.vmids == b.vmids
    ensures WriteAllVmFrom(u, a, cmd, i) == WriteAllVmFrom(u, b, cmd, i)
    decreases a.maxVm - i
  {
    if i < a.maxVm {
      WriteAllVmFrame(u, a, b, cmd, i + 1);
    }
  }

  /** A system suspend/resume pair restores the unit exactly; a
      runtime-suspended unit is left alone by both. */
  lemma SystemSuspendResume(s: Sys, u: nat)
    requires u < |s.units|
    ensures SystemResume(SystemSuspend(s, u), u).units == s.units
    ensures !s.units[u].rpmActive ==> SystemResume(SystemSuspend(s, u), u) == s
  {
    if s.units[u].rpmActive {
      assert SuspendCallback(s, u).units[u].rpmActive;
      assert s.units[u].(rpmCount := s.units[u].rpmCount - 1).(rpmCount := s.units[u].rpmCount) == s.units[u];
    }
  }
}
