/** The decision rules of the GS101 thermal-management-unit driver
    (drivers/thermal/samsung/gs101_tmu_v2.c): the frequency-limit and CPU
    hotplug hysteresis, the trip tables sent to the ACPM firmware, the
    emulation guard, the trend rule and the ECT parameter lookup.

    Calls into the firmware and the kernel (ACPM IPC, `exynos_pm_qos`,
    `exynos_cpuhp_request`, the kthread worker) are emitted as events; the
    temperature read from the firmware and the thermal core's trip getters
    are inputs. Thresholds are compared exactly as stored: the driver keeps
    `limited_threshold` in degrees as read from the ECT but compares it with
    a millidegree temperature, and the model keeps that comparison as is.
 */
module Gs101Tmu {
  import opened Errors
  import opened CStrings
  import opened Arith

  const MCELSIUS: int := 1000
  const INT_MAX: int := 0x7FFF_FFFF
  const INT_MIN: int := -0x8000_0000

  /** C's `/` on `int`: the quotient rounded toward zero, so the remainder
      `a - q * b` takes the sign of the dividend and is smaller than `b`. */
  function DivTrunc(a: int, b: int): (q: int)
    requires b > 0
    ensures 0 <= a ==> 0 <= a - q * b < b
    ensures a < 0 ==> -b < a - q * b <= 0
  {
    if a >= 0 then a / b else -((-a) / b)
  }

  /** Truncation is symmetric about zero, unlike the floor division of
      Dafny's `/`: negating the dividend negates the quotient. */
  lemma DivTruncOdd(a: int, b: int)
    requires b > 0
    ensures DivTrunc(-a, b) == -DivTrunc(a, b)
  {
  }

  /** The two bounds of `DivTrunc` determine the quotient: any `q` whose
      remainder has the dividend's sign and is smaller than `b` is it. */
  lemma DivTruncUnique(a: int, b: int, q: int)
    requires b > 0
    requires 0 <= a ==> 0 <= a - q * b < b
    requires a < 0 ==> -b < a - q * b <= 0
    ensures q == DivTrunc(a, b)
  {
    var d := q - DivTrunc(a, b);
    assert a - q * b == (a - DivTrunc(a, b) * b) - d * b;
    if d > 0 {
      MulAtLeast(d, b);
    }
  }

  /** Conversion to `unsigned char`: the value modulo 256. */
  function U8(x: int): (b: nat)
    ensures b < 256
    ensures 0 <= x < 256 ==> b == x
  {
    x % 256
  }

  /** The fields of `struct gs101_tmu_data` the modelled paths use. */
  datatype Tmu = Tmu(
    enabled: bool,
    limitedFrequency: int,
    limited: bool,
    limitedThreshold: int,
    limitedThresholdRelease: int,
    temperature: int,
    hotplugEnable: bool,
    hotplugOut: bool,
    hotplugInThreshold: int,
    hotplugOutThreshold: int)

  /** The CPU set of an `exynos_cpuhp_request`: every possible CPU, or only
      the possible CPUs of CPU 0's cluster. */
  datatype CpuSet = AllPossible | FirstClusterOnly

  datatype Event =
    | QosRequest(freq: int)     // exynos_pm_qos_update_request on the thermal limit
    | QueueHotplugWork          // kthread_queue_work(hotplug_worker, ...)
    | CpuhpRequest(cpus: CpuSet)

  // ---------------------------------------------------------------------
  // gs101_get_temp
  // ---------------------------------------------------------------------

  /** The frequency-limit rule: an unlimited zone becomes limited at or
      above `limited_threshold`, a limited one is released below
      `limited_threshold_release`; each change issues one QoS request. */
  function LimitStep(d: Tmu, temp: int): (r: (Tmu, seq<Event>))
    ensures r.0 == d.(limited := r.0.limited)
    ensures d.limitedFrequency == 0 ==> r == (d, [])
    ensures d.limitedFrequency != 0 && !d.limited ==> (r.0.limited <==> temp >= d.limitedThreshold)
    ensures d.limitedFrequency != 0 && d.limited ==> (!r.0.limited <==> temp < d.limitedThresholdRelease)
    ensures r.0.limited == d.limited <==> r.1 == []
    ensures r.0.limited != d.limited ==>
      r.1 == [QosRequest(if r.0.limited then d.limitedFrequency else INT_MAX)]
  {
    if d.limitedFrequency == 0 then (d, [])
    else if !d.limited then
      if temp >= d.limitedThreshold then (d.(limited := true), [QosRequest(d.limitedFrequency)])
      else (d, [])
    else
      if temp < d.limitedThresholdRelease then (d.(limited := false), [QosRequest(INT_MAX)])
      else (d, [])
  }

  datatype TempResult = TempResult(ret: int, temp: int, tmu: Option<Tmu>, events: seq<Event>)

  /** `gs101_get_temp` with `acpmTemp` the firmware's reading in degrees.
      The driver multiplies it by 1000 in `int` without a check; a product
      outside `int` would be signed overflow, undefined in C, so only
      readings whose product is in range are modelled. */
  function GetTemp(data: Option<Tmu>, acpmTemp: int): (r: TempResult)
    requires INT_MIN <= acpmTemp * MCELSIUS <= INT_MAX
    ensures data.None? || !data.value.enabled ==> r == TempResult(EINVAL.Neg(), 0, data, [])
    ensures data.Some? && data.value.enabled ==>
      && r.ret == 0
      && r.temp == acpmTemp * MCELSIUS
      && r.tmu.Some?
      && r.tmu.value.temperature == acpmTemp
      && r.tmu.value == LimitStep(data.value, r.temp).0.(temperature := acpmTemp)
      && r.events == LimitStep(data.value, r.temp).1 + (if data.value.hotplugEnable then [QueueHotplugWork] else [])
  {
    if data.None? || !data.value.enabled then TempResult(EINVAL.Neg(), 0, data, [])
    else
      var temp := acpmTemp * MCELSIUS;
      var step := LimitStep(data.value, temp);
      var queued := if data.value.hotplugEnable then [QueueHotplugWork] else [];
      TruncExact(acpmTemp);
      TempResult(0, temp, Some(step.0.(temperature := DivTrunc(temp, 1000))), step.1 + queued)
  }

  /** A multiple of 1000 divides back exactly under C division. */
  lemma TruncExact(t: int)
    ensures DivTrunc(t * MCELSIUS, 1000) == t
  {
    if t < 0 {
      assert -(t * MCELSIUS) == (-t) * 1000;
    }
  }

  /** Between the release and the engage threshold the limit flag never
      changes, whichever state the zone is in. */
  lemma LimitHoldsInBand(d: Tmu, temp: int)
    requires d.limitedThresholdRelease <= temp < d.limitedThreshold
    ensures LimitStep(d, temp) == (d, [])
  {
  }

  /** With a release threshold no higher than the engage threshold, one
      reading cannot both engage and, read again, release the limit. */
  lemma LimitNoChatter(d: Tmu, temp: int)
    requires d.limitedThresholdRelease <= d.limitedThreshold
    ensures var d1 := LimitStep(d, temp).0;
      LimitStep(d1, temp).0.limited == d1.limited
  {
  }

  // ---------------------------------------------------------------------
  // gs101_throttle_cpu_hotplug
  // ---------------------------------------------------------------------

  /** `gs101_throttle_cpu_hotplug`: hotplugged-out CPUs come back below
      `hotplug_in_threshold`; at or above `hotplug_out_threshold` only CPU
      0's cluster stays online. Each change issues one cpuhp request. */
  function ThrottleCpuHotplug(d: Tmu): (r: (Tmu, seq<Event>))
    ensures r.0 == d.(hotplugOut := r.0.hotplugOut)
    ensures d.hotplugOut ==> (!r.0.hotplugOut <==> d.temperature < d.hotplugInThreshold)
    ensures !d.hotplugOut ==> (r.0.hotplugOut <==> d.temperature >= d.hotplugOutThreshold)
    ensures r.0.hotplugOut == d.hotplugOut <==> r.1 == []
    ensures r.0.hotplugOut != d.hotplugOut ==>
      r.1 == [CpuhpRequest(if r.0.hotplugOut then FirstClusterOnly else AllPossible)]
  {
    if d.hotplugOut then
      if d.temperature < d.hotplugInThreshold then (d.(hotplugOut := false), [CpuhpRequest(AllPossible)])
      else (d, [])
    else
      if d.temperature >= d.hotplugOutThreshold then (d.(hotplugOut := true), [CpuhpRequest(FirstClusterOnly)])
      else (d, [])
  }

  /** With `hotplug_in_threshold <= hotplug_out_threshold`, running the
      work twice at one temperature makes at most one transition. */
  lemma HotplugNoChatter(d: Tmu)
    requires d.hotplugInThreshold <= d.hotplugOutThreshold
    ensures var d1 := ThrottleCpuHotplug(d).0;
      ThrottleCpuHotplug(d1).0 == d1 && ThrottleCpuHotplug(d1).1 == []
  {
  }

  // ---------------------------------------------------------------------
  // gs101_tmu_initialize
  // ---------------------------------------------------------------------

  datatype TripType = Active | Passive | Hot | Critical

  /** What the thermal core's three getters answer for one trip point. */
  datatype TripInfo = TripInfo(kind: Result<TripType>, temp: Result<int>, hyst: Result<int>)

  /** The three tables sent to the firmware; `inten` lists the eight bits
      of the interrupt-enable byte, bit 0 first. */
  datatype Tables = Tables(threshold: seq<nat>, hysteresis: seq<nat>, inten: seq<bool>)

  predicate TripOk(t: TripInfo)
  {
    t.kind.Ok? && (t.kind.value != Passive ==> t.temp.Ok? && t.hyst.Ok?)
  }

  /** The error the loop stops on at this trip, in the order the getters are called. */
  function TripError(t: TripInfo): Errno
    requires !TripOk(t)
  {
    if t.kind.Err? then t.kind.error
    else if t.temp.Err? then t.temp.error
    else t.hyst.error
  }

  /** The byte whose bits, lowest first, are `bits`. */
  function ByteOf(bits: seq<bool>): (b: nat)
    ensures b < Pow2(|bits|)
  {
    if |bits| == 0 then 0 else (if bits[0] then 1 else 0) + 2 * ByteOf(bits[1..])
  }

  /** Reading bit `i` back out of the byte gives `bits[i]`. */
  lemma {:induction false} ByteOfBit(bits: seq<bool>, i: nat)
    requires i < |bits|
    ensures (ByteOf(bits) / Pow2(i)) % 2 == (if bits[i] then 1 else 0)
  {
    if i > 0 {
      ByteOfBit(bits[1..], i - 1);
      var rest := ByteOf(bits[1..]);
      var low := if bits[0] then 1 else 0;
      assert ByteOf(bits) == low + 2 * rest;
      assert Pow2(i) == 2 * Pow2(i - 1);
      DivTwice(low + 2 * rest, Pow2(i - 1));
      assert (low + 2 * rest) / 2 == rest;
    }
  }

  function Pow2(n: nat): (p: nat)
    ensures p > 0
  {
    if n == 0 then 1 else 2 * Pow2(n - 1)
  }

  /** The loop of `gs101_tmu_initialize` over trips `n - 1` down to `0`:
      a non-passive trip gets its threshold and hysteresis in whole degrees,
      truncated to a byte, and its interrupt bit; the first getter error
      ends the loop. */
  function InitTrips(trips: seq<TripInfo>, n: nat, acc: Tables): (r: Result<Tables>)
    requires n <= |trips| <= 8 && |acc.threshold| == 8 && |acc.hysteresis| == 8 && |acc.inten| == 8
    ensures r.Ok? <==> forall i :: 0 <= i < n ==> TripOk(trips[i])
    ensures r.Err? ==> exists i :: (0 <= i < n && !TripOk(trips[i]) && r.error == TripError(trips[i]) &&
      (forall j :: i < j < n ==> TripOk(trips[j])))
    ensures r.Ok? ==> |r.value.threshold| == 8 && |r.value.hysteresis| == 8 && |r.value.inten| == 8
    decreases n
  {
    if n == 0 then Ok(acc)
    else
      var t := trips[n - 1];
      if !TripOk(t) then Err(TripError(t))
      else if t.kind.value == Passive then InitTrips(trips, n - 1, acc)
      else
        var acc' := Tables(
          acc.threshold[n - 1 := U8(DivTrunc(t.temp.value, MCELSIUS))],
          acc.hysteresis[n - 1 := U8(DivTrunc(t.hyst.value, MCELSIUS))],
          acc.inten[n - 1 := true]);
        InitTrips(trips, n - 1, acc')
  }

  /** What the loop writes: entry `i` below `n` holds a non-passive trip's
      threshold, hysteresis and interrupt bit; every other entry keeps its
      starting value. */
  lemma {:induction false} InitTripsTables(trips: seq<TripInfo>, n: nat, acc: Tables, i: nat)
    requires n <= |trips| <= 8 && |acc.threshold| == 8 && |acc.hysteresis| == 8 && |acc.inten| == 8
    requires InitTrips(trips, n, acc).Ok? && i < 8
    ensures var t := InitTrips(trips, n, acc).value;
      if i < n && trips[i].kind.value != Passive then
        && t.threshold[i] == U8(DivTrunc(trips[i].temp.value, MCELSIUS))
        && t.hysteresis[i] == U8(DivTrunc(trips[i].hyst.value, MCELSIUS))
        && t.inten[i]
      else
        t.threshold[i] == acc.threshold[i] && t.hysteresis[i] == acc.hysteresis[i] && t.inten[i] == acc.inten[i]
    decreases n
  {
    if n > 0 {
      var t := trips[n - 1];
      if t.kind.value == Passive {
        InitTripsTables(trips, n - 1, acc, i);
      } else {
        var acc' := Tables(
          acc.threshold[n - 1 := U8(DivTrunc(t.temp.value, MCELSIUS))],
          acc.hysteresis[n - 1 := U8(DivTrunc(t.hyst.value, MCELSIUS))],
          acc.inten[n - 1 := true]);
        InitTripsTables(trips, n - 1, acc', i);
      }
    }
  }

  /** A firmware message of `gs101_tmu_initialize`. */
  datatype AcpmWrite = SetThreshold(values: seq<nat>) | SetHysteresis(values: seq<nat>) | SetInterruptEnable(mask: nat)

  datatype InitResult = InitResult(ret: int, writes: seq<AcpmWrite>)

  function ZeroTables(): Tables
  {
    Tables([0, 0, 0, 0, 0, 0, 0, 0], [0, 0, 0, 0, 0, 0, 0, 0], [false, false, false, false, false, false, false, false])
  }

  /** `gs101_tmu_initialize`: all three tables start zeroed; on success
      they are sent in the order threshold, hysteresis, interrupt enable,
      and on any getter error nothing is sent. */
  function TmuInitialize(trips: seq<TripInfo>): (r: InitResult)
    requires |trips| <= 8
    ensures r.ret == 0 <==> forall i :: 0 <= i < |trips| ==> TripOk(trips[i])
    ensures r.ret != 0 ==> r.writes == [] && r.ret < 0
    ensures r.ret == 0 ==> |r.writes| == 3 && r.writes[0].SetThreshold? && r.writes[1].SetHysteresis? && r.writes[2].SetInterruptEnable?
    ensures r.ret == 0 ==> |r.writes[0].values| == 8 && |r.writes[1].values| == 8 && r.writes[2].mask < 256
  {
    var zero := ZeroTables();
    var t := InitTrips(trips, |trips|, zero);
    assert Pow2(8) == 256;
    if t.Err? then InitResult(t.error.Neg(), [])
    else InitResult(0, [SetThreshold(t.value.threshold), SetHysteresis(t.value.hysteresis), SetInterruptEnable(ByteOf(t.value.inten))])
  }

  /** On success, entry `i` of the tables is the trip's temperature and
      hysteresis in whole degrees for a non-passive trip and zero for a
      passive one or one beyond the trip count, and the interrupt bit is set
      exactly for the non-passive trips. */
  lemma TmuInitializeTables(trips: seq<TripInfo>, i: nat)
    requires |trips| <= 8 && i < 8
    requires TmuInitialize(trips).ret == 0
    ensures var w := TmuInitialize(trips).writes;
      var active := i < |trips| && trips[i].kind.value != Passive;
      && w[0].values[i] == (if active then U8(DivTrunc(trips[i].temp.value, MCELSIUS)) else 0)
      && w[1].values[i] == (if active then U8(DivTrunc(trips[i].hyst.value, MCELSIUS)) else 0)
      && (w[2].mask / Pow2(i)) % 2 == (if active then 1 else 0)
  {
    var t := InitTrips(trips, |trips|, ZeroTables());
    assert t.Ok?;
    InitTripsTables(trips, |trips|, ZeroTables(), i);
    ByteOfBit(t.value.inten, i);
  }

  /** Trips are read from the last to the first, so a failure at a higher
      index is the one reported. */
  lemma TmuInitializeReportsHighest(trips: seq<TripInfo>, i: nat)
    requires |trips| <= 8 && i < |trips| && !TripOk(trips[i])
    requires forall j :: i < j < |trips| ==> TripOk(trips[j])
    ensures TmuInitialize(trips).ret == TripError(trips[i]).Neg()
  {
    var zero := ZeroTables();
    var t := InitTrips(trips, |trips|, zero);
    assert t.Err?;
    var k :| 0 <= k < |trips| && !TripOk(trips[k]) && t.error == TripError(trips[k]) &&
      (forall j :: k < j < |trips| ==> TripOk(trips[j]));
    assert k == i;
  }

  // ---------------------------------------------------------------------
  // gs101_tmu_set_emulation, gs101_get_trend
  // ---------------------------------------------------------------------

  /** `gs101_tmu_set_emulation`: the emulated temperature sent to the
      firmware (in whole degrees, as a byte), or `-EINVAL`. Without
      `CONFIG_THERMAL_EMULATION` the call always fails. */
  function SetEmulation(configured: bool, temp: int): (r: (int, Option<nat>))
    ensures r.0 == 0 <==> configured && (temp == 0 || temp >= MCELSIUS)
    ensures r.0 != 0 ==> r == (EINVAL.Neg(), None)
    ensures r.0 == 0 ==> r.1 == Some(U8(temp / MCELSIUS))
    ensures r.0 == 0 && temp == 0 ==> r.1 == Some(0)
  {
    if !configured then (EINVAL.Neg(), None)
    else if temp != 0 && temp < MCELSIUS then (EINVAL.Neg(), None)
    else (0, Some(U8(DivTrunc(temp, MCELSIUS))))
  }

  datatype Trend = RaiseFull | DropFull

  /** `gs101_get_trend`: nothing when the zone is missing; otherwise the
      getter's error, or a full raise at or above the trip temperature and a
      full drop below it. */
  function GetTrend(hasZone: bool, tripTemp: Result<int>, temperature: int): (r: (int, Option<Trend>))
    ensures !hasZone ==> r == (0, None)
    ensures hasZone && tripTemp.Err? ==> r == (tripTemp.error.Neg(), None)
    ensures hasZone && tripTemp.Ok? ==> r.0 == 0 && r.1.Some?
    ensures r.1.Some? ==> tripTemp.Ok? && (r.1.value == RaiseFull <==> temperature >= tripTemp.value)
  {
    if !hasZone then (0, None)
    else if tripTemp.Err? then (tripTemp.error.Neg(), None)
    else if temperature >= tripTemp.value then (0, Some(RaiseFull))
    else (0, Some(DropFull))
  }

  // ---------------------------------------------------------------------
  // gs101_tmu_ect_get_param
  // ---------------------------------------------------------------------

  const PARAM_NAME_LENGTH: nat := 25

  /** One parameter of an ECT PIDTM block. */
  datatype Param = Param(name: string, value: int)

  /** Index of the first parameter whose name matches `name` in the first
      25 characters, ignoring case. */
  function FindParam(params: seq<Param>, name: string): (r: nat)
    requires NoNul(name) && forall i :: 0 <= i < |params| ==> NoNul(params[i].name)
    ensures r <= |params|
    ensures r < |params| ==> CaseEqualUpTo(params[r].name, name, PARAM_NAME_LENGTH)
    ensures forall i :: 0 <= i < r ==> !CaseEqualUpTo(params[i].name, name, PARAM_NAME_LENGTH)
  {
    if |params| == 0 then 0
    else
      StrNCaseEqualMeaning(params[0].name, name, PARAM_NAME_LENGTH);
      if StrNCaseEqual(params[0].name, name, PARAM_NAME_LENGTH) then 0
      else 1 + FindParam(params[1..], name)
  }

  /** `gs101_tmu_ect_get_param`: the value of the first matching parameter,
      or `-1`. */
  function EctGetParam(params: seq<Param>, name: string): (v: int)
    requires NoNul(name) && forall i :: 0 <= i < |params| ==> NoNul(params[i].name)
    ensures (forall i :: 0 <= i < |params| ==> !CaseEqualUpTo(params[i].name, name, PARAM_NAME_LENGTH)) ==> v == -1
    ensures forall i :: (0 <= i < |params| && CaseEqualUpTo(params[i].name, name, PARAM_NAME_LENGTH) &&
      (forall j :: 0 <= j < i ==> !CaseEqualUpTo(params[j].name, name, PARAM_NAME_LENGTH))) ==> v == params[i].value
  {
    var i := FindParam(params, name);
    if i < |params| then params[i].value else -1
  }

  /** Names that agree in their first 25 characters up to case look up the
      same parameter, so a longer name is matched by its 25-character prefix. */
  lemma EctPrefixMatches(params: seq<Param>, name: string, other: string)
    requires NoNul(name) && NoNul(other) && forall i :: 0 <= i < |params| ==> NoNul(params[i].name)
    requires CaseEqualUpTo(name, other, PARAM_NAME_LENGTH)
    ensures EctGetParam(params, name) == EctGetParam(params, other)
  {
    forall i | 0 <= i < |params|
      ensures CaseEqualUpTo(params[i].name, name, PARAM_NAME_LENGTH) <==> CaseEqualUpTo(params[i].name, other, PARAM_NAME_LENGTH)
    {
      CaseEqualTrans(params[i].name, name, other, PARAM_NAME_LENGTH);
    }
    var a := FindParam(params, name);
    var b := FindParam(params, other);
    assert a == b;
  }

  lemma CaseEqualTrans(p: string, a: string, b: string, n: nat)
    requires CaseEqualUpTo(a, b, n)
    ensures CaseEqualUpTo(p, a, n) <==> CaseEqualUpTo(p, b, n)
  {
  }
}
