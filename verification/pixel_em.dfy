/** The table logic of the Pixel energy-model driver
    (drivers/soc/google/vh/kernel/pixel_em/pixel_em.c): a profile is a named
    list of CPU clusters, each with its operating performance points (OPPs).
    Profiles are written as text through sysfs, validated line by line,
    checked for ascending order, rescaled so that the largest capacity is
    1024, and then either published or copied into the existing profile of
    the same name; another sysfs file selects the active profile by name.

    All fields are `unsigned int` in the driver; the model keeps them as
    `nat` and states the 32-bit bound where arithmetic could leave it.
 */
module PixelEm {
  import opened Errors
  import opened CStrings
  import opened Arith

  /** `struct pixel_em_opp`. */
  datatype Opp = Opp(freq: nat, capacity: nat, power: nat, cost: nat, inefficient: bool)

  /** `struct pixel_em_cluster`: its CPU mask and its OPP table (`num_opps` is the length). */
  datatype Cluster = Cluster(cpus: set<nat>, opps: seq<Opp>)

  /** `struct pixel_em_profile` (`num_clusters` is the length of `clusters`). */
  datatype Profile = Profile(name: string, clusters: seq<Cluster>)

  /** Position of one OPP: cluster index, then OPP index within it. */
  datatype Pos = Pos(cluster: nat, opp: nat)

  // ---------------------------------------------------------------------
  // Profile names (verify_profile_name)
  // ---------------------------------------------------------------------

  predicate NameChar(c: char)
  {
    ('a' <= c <= 'z') || ('A' <= c <= 'Z') || ('0' <= c <= '9') || c == '-' || c == '_'
  }

  /** `verify_profile_name`: reject the empty name, then scan the
      characters and reject at the first one outside `[a-zA-Z0-9_-]`. */
  method VerifyProfileName(name: string) returns (ok: bool)
    ensures ok <==> |name| > 0 && forall i :: 0 <= i < |name| ==> NameChar(name[i])
  {
    if |name| == 0 {
      return false;
    }
    var i := 0;
    while i < |name|
      invariant 0 <= i <= |name|
      invariant forall k :: 0 <= k < i ==> NameChar(name[k])
    {
      if !NameChar(name[i]) {
        return false;
      }
      i := i + 1;
    }
    return true;
  }

  /** The same acceptance rule as a recursive scan, for use inside the
      functional model of `parse_profile`. */
  function AllNameChars(s: string): (r: bool)
    ensures r <==> forall i :: 0 <= i < |s| ==> NameChar(s[i])
  {
    if |s| == 0 then true else NameChar(s[0]) && AllNameChars(s[1..])
  }

  predicate ValidName(name: string)
  {
    |name| > 0 && AllNameChars(name)
  }

  // ---------------------------------------------------------------------
  // Profile list lookup (find_profile)
  // ---------------------------------------------------------------------

  /** `find_profile`: the first profile of the list whose name is exactly
      `name` (`strcmp(...) == 0`), as an index. */
  function FindProfile(list: seq<Profile>, name: string): (r: Option<nat>)
    ensures r.Some? ==> r.value < |list| && list[r.value].name == name
    ensures r.Some? ==> forall i :: 0 <= i < r.value ==> list[i].name != name
    ensures r.None? <==> forall i :: 0 <= i < |list| ==> list[i].name != name
  {
    if |list| == 0 then None
    else if list[0].name == name then Some(0)
    else
      var rest := FindProfile(list[1..], name);
      if rest.None? then
        assert forall i :: 1 <= i < |list| ==> list[i].name == list[1..][i - 1].name;
        None
      else Some(rest.value + 1)
  }

  /** No two profiles of the list share a name. */
  predicate UniqueNames(list: seq<Profile>)
  {
    forall i, j :: 0 <= i < j < |list| ==> list[i].name != list[j].name
  }

  // ---------------------------------------------------------------------
  // Editing one OPP (update_inefficient_prev_opp, update_em_entry)
  // ---------------------------------------------------------------------

  /** `update_inefficient_prev_opp`: after OPP `id` changed, OPP `id - 1`
      is inefficient exactly when it costs at least as much. */
  function UpdateInefficientPrevOpp(opps: seq<Opp>, id: nat): (r: seq<Opp>)
    requires id < |opps|
    ensures |r| == |opps|
    ensures id == 0 ==> r == opps
    ensures id > 0 ==> r[id - 1].inefficient == (opps[id - 1].cost >= opps[id].cost)
    ensures id > 0 ==> r[id - 1] == opps[id - 1].(inefficient := r[id - 1].inefficient)
    ensures forall k :: 0 <= k < |opps| && k + 1 != id ==> r[k] == opps[k]
  {
    if id == 0 then opps
    else opps[id - 1 := opps[id - 1].(inefficient := opps[id - 1].cost >= opps[id].cost)]
  }

  /** Index of the first OPP with frequency `freq`, or `|opps|`. */
  function FirstFreq(opps: seq<Opp>, freq: nat): (r: nat)
    ensures r <= |opps|
    ensures r < |opps| ==> opps[r].freq == freq
    ensures forall k :: 0 <= k < r ==> opps[k].freq != freq
  {
    if |opps| == 0 then 0
    else if opps[0].freq == freq then 0
    else 1 + FirstFreq(opps[1..], freq)
  }

  /** Cluster `c` contains `cpu` and has an OPP at `freq`. */
  predicate Hit(cs: seq<Cluster>, cpu: nat, freq: nat, c: nat)
    requires c < |cs|
  {
    cpu in cs[c].cpus && exists o :: 0 <= o < |cs[c].opps| && cs[c].opps[o].freq == freq
  }

  /** The search of `update_em_entry` from cluster `c` on: clusters
      without `cpu` are skipped, and within the first cluster that has
      both `cpu` and a matching OPP the first matching OPP wins. */
  function FindEntry(cs: seq<Cluster>, cpu: nat, freq: nat, c: nat): (r: Option<Pos>)
    requires c <= |cs|
    ensures r.Some? ==> c <= r.value.cluster < |cs| && Hit(cs, cpu, freq, r.value.cluster)
    ensures r.Some? ==>
      (r.value.opp < |cs[r.value.cluster].opps| &&
       cs[r.value.cluster].opps[r.value.opp].freq == freq &&
       forall o :: 0 <= o < r.value.opp ==> cs[r.value.cluster].opps[o].freq != freq)
    ensures r.Some? ==> forall k :: c <= k < r.value.cluster ==> !Hit(cs, cpu, freq, k)
    ensures r.None? <==> forall k :: c <= k < |cs| ==> !Hit(cs, cpu, freq, k)
    decreases |cs| - c
  {
    if c == |cs| then None
    else if cpu in cs[c].cpus && FirstFreq(cs[c].opps, freq) < |cs[c].opps| then
      assert Hit(cs, cpu, freq, c);
      Some(Pos(c, FirstFreq(cs[c].opps, freq)))
    else
      assert !Hit(cs, cpu, freq, c);
      FindEntry(cs, cpu, freq, c + 1)
  }

  /** The OPP at `e` of a cluster list. */
  function At(cs: seq<Cluster>, e: Pos): Opp
    requires e.cluster < |cs| && e.opp < |cs[e.cluster].opps|
  {
    cs[e.cluster].opps[e.opp]
  }

  /** `q` has the same name, clusters, CPU masks, OPP counts and
      frequencies as `p`: only capacity, power, cost and the inefficient
      flag may differ. */
  predicate SameShape(p: Profile, q: Profile)
  {
    p.name == q.name && |p.clusters| == |q.clusters| &&
    forall c :: 0 <= c < |p.clusters| ==> SameClusterShape(p.clusters[c], q.clusters[c])
  }

  /** The same CPU mask, OPP count and frequencies. */
  predicate SameClusterShape(a: Cluster, b: Cluster)
  {
    a.cpus == b.cpus && |a.opps| == |b.opps| &&
    forall o :: 0 <= o < |a.opps| ==> a.opps[o].freq == b.opps[o].freq
  }

  /** `update_em_entry`: set capacity, power and cost (`power / cap`, an
      unsigned division) of the OPP the search finds, then refresh the
      previous OPP's inefficient flag; report whether an OPP was found. */
  function UpdateEmEntry(p: Profile, cpu: nat, freq: nat, cap: nat, power: nat): (r: (Profile, bool))
    requires cap > 0
    ensures r.1 <==> exists c :: 0 <= c < |p.clusters| && Hit(p.clusters, cpu, freq, c)
    ensures !r.1 ==> r.0 == p
    ensures SameShape(r.0, p)
    ensures r.1 ==>
      var e := FindEntry(p.clusters, cpu, freq, 0).value;
      && At(r.0.clusters, e) == At(p.clusters, e).(capacity := cap, power := power, cost := power / cap)
      && (e.opp > 0 ==>
           At(r.0.clusters, Pos(e.cluster, e.opp - 1)) ==
           At(p.clusters, Pos(e.cluster, e.opp - 1)).(inefficient := At(p.clusters, Pos(e.cluster, e.opp - 1)).cost >= power / cap))
      && forall c, o :: 0 <= c < |p.clusters| && 0 <= o < |p.clusters[c].opps| && Pos(c, o) != e && Pos(c, o + 1) != e ==>
           r.0.clusters[c].opps[o] == p.clusters[c].opps[o]
  {
    var found := FindEntry(p.clusters, cpu, freq, 0);
    if found.None? then (p, false)
    else (WriteEntry(p, found.value, cap, power), true)
  }

  /** The write of `update_em_entry` once the OPP at `e` is found. */
  function WriteEntry(p: Profile, e: Pos, cap: nat, power: nat): (r: Profile)
    requires cap > 0 && e.cluster < |p.clusters| && e.opp < |p.clusters[e.cluster].opps|
    ensures SameShape(r, p)
    ensures At(r.clusters, e) == At(p.clusters, e).(capacity := cap, power := power, cost := power / cap)
    ensures e.opp > 0 ==>
      At(r.clusters, Pos(e.cluster, e.opp - 1)) ==
      At(p.clusters, Pos(e.cluster, e.opp - 1)).(inefficient := At(p.clusters, Pos(e.cluster, e.opp - 1)).cost >= power / cap)
    ensures forall c, o :: 0 <= c < |p.clusters| && 0 <= o < |p.clusters[c].opps| && Pos(c, o) != e && Pos(c, o + 1) != e ==>
      r.clusters[c].opps[o] == p.clusters[c].opps[o]
  {
    var cl := p.clusters[e.cluster];
    var opps := cl.opps[e.opp := cl.opps[e.opp].(capacity := cap, power := power, cost := power / cap)];
    var opps' := UpdateInefficientPrevOpp(opps, e.opp);
    assert forall o :: 0 <= o < |opps'| ==> opps'[o].freq == cl.opps[o].freq;
    p.(clusters := p.clusters[e.cluster := cl.(opps := opps')])
  }

  // ---------------------------------------------------------------------
  // Copying between profiles (update_profile)
  // ---------------------------------------------------------------------

  /** One OPP of `dst` takes capacity, power, cost and the flag from `src`. */
  function CopyOpp(d: Opp, s: Opp): (r: Opp)
    ensures r.freq == d.freq
    ensures d.freq == s.freq ==> r == s
  {
    d.(capacity := s.capacity, power := s.power, cost := s.cost, inefficient := s.inefficient)
  }

  /** Number of leading OPPs whose frequencies agree. */
  function MatchLen(d: seq<Opp>, s: seq<Opp>): (m: nat)
    requires |d| == |s|
    ensures m <= |d|
    ensures forall k :: 0 <= k < m ==> d[k].freq == s[k].freq
    ensures m < |d| ==> d[m].freq != s[m].freq
  {
    if |d| == 0 || d[0].freq != s[0].freq then 0
    else 1 + MatchLen(d[1..], s[1..])
  }

  /** Same CPU mask and OPP count: the checks made before a cluster's
      OPP loop. */
  predicate SameLayout(d: Cluster, s: Cluster)
  {
    d.cpus == s.cpus && |d.opps| == |s.opps|
  }

  /** The whole cluster can be copied: same layout and every frequency agrees. */
  predicate Compatible(d: Cluster, s: Cluster)
  {
    SameLayout(d, s) && MatchLen(d.opps, s.opps) == |d.opps|
  }

  /** The OPP loop of one cluster: copy OPPs until the first frequency
      mismatch. */
  function CopyCluster(d: Cluster, s: Cluster): (r: Cluster)
    requires SameLayout(d, s)
    ensures r.cpus == d.cpus && |r.opps| == |d.opps|
    ensures forall k :: 0 <= k < |d.opps| ==>
      r.opps[k] == (if k < MatchLen(d.opps, s.opps) then CopyOpp(d.opps[k], s.opps[k]) else d.opps[k])
  {
    var m := MatchLen(d.opps, s.opps);
    d.(opps := seq(|d.opps|, k requires 0 <= k < |d.opps| => if k < m then CopyOpp(d.opps[k], s.opps[k]) else d.opps[k]))
  }

  /** The cluster loop: a cluster with a different layout stops the copy
      before it, a frequency mismatch stops it inside the cluster. */
  function UpdateClusters(dc: seq<Cluster>, sc: seq<Cluster>): (r: seq<Cluster>)
    requires |dc| == |sc|
    ensures |r| == |dc|
  {
    if |dc| == 0 then []
    else if !SameLayout(dc[0], sc[0]) then dc
    else if !Compatible(dc[0], sc[0]) then [CopyCluster(dc[0], sc[0])] + dc[1..]
    else [CopyCluster(dc[0], sc[0])] + UpdateClusters(dc[1..], sc[1..])
  }

  /** `update_profile`: nothing when the cluster counts differ. */
  function UpdateProfile(dst: Profile, src: Profile): (r: Profile)
    ensures SameShape(r, dst)
    ensures |dst.clusters| != |src.clusters| ==> r == dst
  {
    if |dst.clusters| != |src.clusters| then dst
    else
      UpdateClustersShape(dst.clusters, src.clusters);
      dst.(clusters := UpdateClusters(dst.clusters, src.clusters))
  }

  lemma {:induction false} UpdateClustersShape(dc: seq<Cluster>, sc: seq<Cluster>)
    requires |dc| == |sc|
    ensures forall c :: 0 <= c < |dc| ==> SameClusterShape(UpdateClusters(dc, sc)[c], dc[c])
  {
    if |dc| > 0 && SameLayout(dc[0], sc[0]) {
      var r := UpdateClusters(dc, sc);
      var first := CopyCluster(dc[0], sc[0]);
      assert SameClusterShape(first, dc[0]);
      if Compatible(dc[0], sc[0]) {
        UpdateClustersShape(dc[1..], sc[1..]);
        var rest := UpdateClusters(dc[1..], sc[1..]);
        assert r == [first] + rest;
        forall c | 1 <= c < |dc|
          ensures SameClusterShape(r[c], dc[c])
        {
          assert r[c] == rest[c - 1] && dc[c] == dc[1..][c - 1];
        }
      } else {
        assert r == [first] + dc[1..];
        forall c | 1 <= c < |dc|
          ensures SameClusterShape(r[c], dc[c])
        {
          assert r[c] == dc[c];
        }
      }
    }
  }

  /** A cluster the copy reaches (every earlier cluster was fully
      compatible) is processed: copied up to its first frequency mismatch,
      or left alone when its layout differs. */
  lemma {:induction false} UpdateReaches(dc: seq<Cluster>, sc: seq<Cluster>, c: nat)
    requires |dc| == |sc| && c < |dc|
    requires forall k :: 0 <= k < c ==> Compatible(dc[k], sc[k])
    ensures UpdateClusters(dc, sc)[c] == (if SameLayout(dc[c], sc[c]) then CopyCluster(dc[c], sc[c]) else dc[c])
  {
    if c > 0 {
      UpdateReaches(dc[1..], sc[1..], c - 1);
    }
  }

  /** A cluster after an incompatible one is left alone. */
  lemma {:induction false} UpdateStops(dc: seq<Cluster>, sc: seq<Cluster>, stop: nat, c: nat)
    requires |dc| == |sc| && stop < c < |dc|
    requires !Compatible(dc[stop], sc[stop])
    ensures UpdateClusters(dc, sc)[c] == dc[c]
  {
    if stop > 0 && SameLayout(dc[0], sc[0]) && Compatible(dc[0], sc[0]) {
      UpdateStops(dc[1..], sc[1..], stop - 1, c - 1);
    }
  }

  /** Between fully compatible profiles the copy completes: `dst`'s tables
      become `src`'s. */
  lemma UpdateProfileComplete(dst: Profile, src: Profile)
    requires |dst.clusters| == |src.clusters|
    requires forall c :: 0 <= c < |dst.clusters| ==> Compatible(dst.clusters[c], src.clusters[c])
    ensures UpdateProfile(dst, src) == dst.(clusters := src.clusters)
  {
    var r := UpdateProfile(dst, src);
    forall c | 0 <= c < |dst.clusters|
      ensures r.clusters[c] == src.clusters[c]
    {
      UpdateReaches(dst.clusters, src.clusters, c);
      var d := dst.clusters[c];
      var s := src.clusters[c];
      assert CopyCluster(d, s).opps == s.opps;
    }
  }

  /** Copying twice is copying once. */
  lemma UpdateProfileIdempotent(dst: Profile, src: Profile)
    ensures UpdateProfile(UpdateProfile(dst, src), src) == UpdateProfile(dst, src)
  {
    if |dst.clusters| == |src.clusters| {
      UpdateClustersIdempotent(dst.clusters, src.clusters);
    }
  }

  lemma {:induction false} UpdateClustersIdempotent(dc: seq<Cluster>, sc: seq<Cluster>)
    requires |dc| == |sc|
    ensures UpdateClusters(UpdateClusters(dc, sc), sc) == UpdateClusters(dc, sc)
  {
    if |dc| > 0 && SameLayout(dc[0], sc[0]) {
      var d1 := CopyCluster(dc[0], sc[0]);
      CopyClusterIdempotent(dc[0], sc[0]);
      var r := UpdateClusters(dc, sc);
      if Compatible(dc[0], sc[0]) {
        UpdateClustersIdempotent(dc[1..], sc[1..]);
        assert r[1..] == UpdateClusters(dc[1..], sc[1..]);
      } else {
        assert r[1..] == dc[1..];
      }
    }
  }

  lemma CopyClusterIdempotent(d: Cluster, s: Cluster)
    requires SameLayout(d, s)
    ensures SameLayout(CopyCluster(d, s), s)
    ensures MatchLen(CopyCluster(d, s).opps, s.opps) == MatchLen(d.opps, s.opps)
    ensures Compatible(CopyCluster(d, s), s) == Compatible(d, s)
    ensures CopyCluster(CopyCluster(d, s), s) == CopyCluster(d, s)
  {
    var r := CopyCluster(d, s);
    assert forall k :: 0 <= k < |d.opps| ==> r.opps[k].freq == d.opps[k].freq;
    MatchLenSameFreqs(r.opps, d.opps, s.opps);
  }

  lemma {:induction false} MatchLenSameFreqs(a: seq<Opp>, b: seq<Opp>, s: seq<Opp>)
    requires |a| == |b| == |s|
    requires forall k :: 0 <= k < |a| ==> a[k].freq == b[k].freq
    ensures MatchLen(a, s) == MatchLen(b, s)
  {
    if |a| > 0 {
      MatchLenSameFreqs(a[1..], b[1..], s[1..]);
    }
  }

  // ---------------------------------------------------------------------
  // Consistency (check_profile_consistency)
  // ---------------------------------------------------------------------

  /** OPP `o` is strictly above OPP `o - 1` in frequency, capacity and power. */
  predicate StepUp(opps: seq<Opp>, o: nat)
    requires 1 <= o < |opps|
  {
    && opps[o - 1].freq < opps[o].freq
    && opps[o - 1].capacity < opps[o].capacity
    && opps[o - 1].power < opps[o].power
  }

  predicate Ascending(opps: seq<Opp>)
  {
    forall o :: 1 <= o < |opps| ==> StepUp(opps, o)
  }

  /** In every cluster, frequency, capacity and power strictly increase
      from each OPP to the next. */
  predicate Consistent(p: Profile)
  {
    forall c :: 0 <= c < |p.clusters| ==> Ascending(p.clusters[c].opps)
  }

  /** `check_profile_consistency`: the nested loop stops at the first
      neighbouring pair that does not ascend. */
  method CheckProfileConsistency(p: Profile) returns (ok: bool)
    ensures ok <==> Consistent(p)
  {
    var c := 0;
    while c < |p.clusters|
      invariant 0 <= c <= |p.clusters|
      invariant forall c' :: 0 <= c' < c ==> Ascending(p.clusters[c'].opps)
    {
      var opps := p.clusters[c].opps;
      var o := 1;
      while o < |opps|
        invariant 1 <= o <= |opps| || |opps| == 0
        invariant forall o' :: 1 <= o' < o && o' < |opps| ==> StepUp(opps, o')
      {
        if opps[o].freq <= opps[o - 1].freq || opps[o].capacity <= opps[o - 1].capacity
          || opps[o].power <= opps[o - 1].power
        {
          assert !StepUp(opps, o);
          assert !Ascending(p.clusters[c].opps);
          return false;
        }
        o := o + 1;
      }
      c := c + 1;
    }
    return true;
  }

  /** The neighbour-wise check orders every pair of OPPs of a cluster. */
  lemma ConsistentOrdersAll(p: Profile, c: nat, i: nat, j: nat)
    requires Consistent(p) && c < |p.clusters| && i < j < |p.clusters[c].opps|
    ensures p.clusters[c].opps[i].freq < p.clusters[c].opps[j].freq
    ensures p.clusters[c].opps[i].capacity < p.clusters[c].opps[j].capacity
    ensures p.clusters[c].opps[i].power < p.clusters[c].opps[j].power
    decreases j - i
  {
    assert StepUp(p.clusters[c].opps, i + 1);
    if i + 1 < j {
      ConsistentOrdersAll(p, c, i + 1, j);
    }
  }

  // ---------------------------------------------------------------------
  // Rescaling (scale_profile_capacities)
  // ---------------------------------------------------------------------

  const SCALING_TARGET: nat := 1024

  /** Every cluster has an OPP to take the last capacity from. */
  predicate HasOpps(cs: seq<Cluster>)
  {
    forall c :: 0 <= c < |cs| ==> |cs[c].opps| > 0
  }

  function LastCapacity(cl: Cluster): nat
    requires |cl.opps| > 0
  {
    cl.opps[|cl.opps| - 1].capacity
  }

  /** The first loop of `scale_profile_capacities`: the largest last-OPP
      capacity over the clusters, starting from 0. */
  function MaxCapacity(cs: seq<Cluster>): (m: nat)
    requires HasOpps(cs)
    ensures forall c :: 0 <= c < |cs| ==> LastCapacity(cs[c]) <= m
    ensures m == 0 || exists c :: 0 <= c < |cs| && LastCapacity(cs[c]) == m
  {
    if |cs| == 0 then 0
    else
      var m := Max(MaxCapacity(cs[..|cs| - 1]), LastCapacity(cs[|cs| - 1]));
      assert forall c :: 0 <= c < |cs| - 1 ==> cs[..|cs| - 1][c] == cs[c];
      m
  }

  /** One capacity after `capacity *= 1024; capacity /= max`, both in
      32-bit unsigned arithmetic. */
  function ScaleCapacity(cap: nat, max: nat): nat
    requires max > 0
  {
    (cap * SCALING_TARGET) % U32 / max
  }

  predicate CanScale(p: Profile)
  {
    HasOpps(p.clusters) && MaxCapacity(p.clusters) > 0
  }

  function ScaleOpps(opps: seq<Opp>, m: nat): (r: seq<Opp>)
    requires m > 0
    ensures |r| == |opps|
    ensures forall o :: 0 <= o < |opps| ==> r[o] == opps[o].(capacity := ScaleCapacity(opps[o].capacity, m))
  {
    seq(|opps|, o requires 0 <= o < |opps| => opps[o].(capacity := ScaleCapacity(opps[o].capacity, m)))
  }

  function ScaleClusters(cs: seq<Cluster>, m: nat): (r: seq<Cluster>)
    requires m > 0
    ensures |r| == |cs|
    ensures forall c :: 0 <= c < |cs| ==> r[c] == cs[c].(opps := ScaleOpps(cs[c].opps, m))
  {
    seq(|cs|, c requires 0 <= c < |cs| => cs[c].(opps := ScaleOpps(cs[c].opps, m)))
  }

  /** `scale_profile_capacities`: only capacities change, each to
      `capacity * 1024 / max` in 32-bit arithmetic. */
  function ScaleProfile(p: Profile): (r: Profile)
    requires CanScale(p)
    ensures SameShape(r, p)
    ensures forall c, o :: 0 <= c < |p.clusters| && 0 <= o < |p.clusters[c].opps| ==>
      r.clusters[c].opps[o] == p.clusters[c].opps[o].(capacity := ScaleCapacity(p.clusters[c].opps[o].capacity, MaxCapacity(p.clusters)))
  {
    p.(clusters := ScaleClusters(p.clusters, MaxCapacity(p.clusters)))
  }

  /** No capacity overflows 32 bits when multiplied by 1024. */
  predicate NoScaleOverflow(p: Profile)
  {
    forall c, o :: 0 <= c < |p.clusters| && 0 <= o < |p.clusters[c].opps| ==>
      p.clusters[c].opps[o].capacity * SCALING_TARGET < U32
  }

  /** Every capacity of a consistent profile ends up at most 1024, even
      when `capacity * 1024` wraps ... */
  lemma ScaleBounded(p: Profile, c: nat, o: nat)
    requires CanScale(p) && Consistent(p)
    requires c < |p.clusters| && o < |p.clusters[c].opps|
    ensures ScaleProfile(p).clusters[c].opps[o].capacity <= SCALING_TARGET
  {
    var cap := p.clusters[c].opps[o].capacity;
    var m := MaxCapacity(p.clusters);
    var last := |p.clusters[c].opps| - 1;
    if o < last {
      ConsistentOrdersAll(p, c, o, last);
    }
    assert cap <= LastCapacity(p.clusters[c]) <= m;
    ScaledAtMostTarget(cap, m);
    assert ScaleProfile(p).clusters[c].opps[o].capacity == ScaleCapacity(cap, m);
  }

  /** ... and, without overflow, the cluster that held the maximum ends at
      exactly 1024. */
  lemma ScaleTopIs1024(p: Profile)
    requires CanScale(p) && NoScaleOverflow(p)
    ensures exists c :: 0 <= c < |p.clusters| && LastCapacity(ScaleProfile(p).clusters[c]) == SCALING_TARGET
  {
    var m := MaxCapacity(p.clusters);
    var c :| 0 <= c < |p.clusters| && LastCapacity(p.clusters[c]) == m;
    var last := |p.clusters[c].opps| - 1;
    assert p.clusters[c].opps[last].capacity * SCALING_TARGET < U32;
    ScaledMaxIsTarget(m);
    assert ScaleProfile(p).clusters[c].opps[last].capacity == ScaleCapacity(m, m);
  }

  /** A capacity no larger than the maximum scales to at most 1024. When
      `cap * 1024` wraps, the maximum is at least 2^22, so the wrapped
      product is below `max * 1024` and the quotient below 1024. */
  lemma ScaledAtMostTarget(cap: nat, m: nat)
    requires 0 < m && cap <= m
    ensures ScaleCapacity(cap, m) <= SCALING_TARGET
  {
    MulLe(SCALING_TARGET, cap, m);
    if cap * SCALING_TARGET < U32 {
      assert (cap * SCALING_TARGET) % U32 == cap * SCALING_TARGET;
      DivMonotone(cap * SCALING_TARGET, m * SCALING_TARGET, m);
      DivExact(m, SCALING_TARGET);
    } else {
      var v := (cap * SCALING_TARGET) % U32;
      assert v < m * SCALING_TARGET;
      assert m * (v / m) <= v;
      MulCancelLt(m, v / m, SCALING_TARGET);
    }
  }

  /** Without overflow, the maximum itself scales to exactly 1024. */
  lemma ScaledMaxIsTarget(m: nat)
    requires 0 < m && m * SCALING_TARGET < U32
    ensures ScaleCapacity(m, m) == SCALING_TARGET
  {
    assert (m * SCALING_TARGET) % U32 == m * SCALING_TARGET;
    DivExact(m, SCALING_TARGET);
  }

  /** Without overflow, scaling is monotone. */
  lemma ScaledMonotone(a: nat, b: nat, m: nat)
    requires 0 < m && a <= b && b * SCALING_TARGET < U32
    ensures ScaleCapacity(a, m) <= ScaleCapacity(b, m)
  {
    MulLe(SCALING_TARGET, a, b);
    assert (a * SCALING_TARGET) % U32 == a * SCALING_TARGET;
    assert (b * SCALING_TARGET) % U32 == b * SCALING_TARGET;
    DivMonotone(a * SCALING_TARGET, b * SCALING_TARGET, m);
  }

  /** Without overflow, rescaling keeps every cluster's capacities in
      non-decreasing order (neighbours may become equal). */
  lemma ScaleKeepsOrder(p: Profile, c: nat, o: nat)
    requires CanScale(p) && Consistent(p) && NoScaleOverflow(p)
    requires c < |p.clusters| && 1 <= o < |p.clusters[c].opps|
    ensures ScaleProfile(p).clusters[c].opps[o - 1].capacity <= ScaleProfile(p).clusters[c].opps[o].capacity
  {
    assert StepUp(p.clusters[c].opps, o);
    ScaledMonotone(p.clusters[c].opps[o - 1].capacity, p.clusters[c].opps[o].capacity, MaxCapacity(p.clusters));
  }

  // ---------------------------------------------------------------------
  // The profile text (parse_profile)
  // ---------------------------------------------------------------------

  /** The three numbers of a data line. */
  datatype Triple = Triple(freq: nat, cap: nat, power: nat)

  /** One line of a profile after `skip_spaces`, together with what the
      driver's two `sscanf` calls make of it: `cpuId` is the `%d` read after
      the first three characters and `values` the `%u %u %u` read of the
      whole line, each present only when the conversion succeeded. */
  datatype Line = Line(text: string, cpuId: Option<int>, values: Option<Triple>)

  predicate LineWellFormed(l: Line)
  {
    NoNul(l.text) &&
    (l.values.Some? ==> l.values.value.freq < U32 && l.values.value.cap < U32 && l.values.value.power < U32)
  }

  predicate LinesWellFormed(ls: seq<Line>)
  {
    forall k :: 0 <= k < |ls| ==> LineWellFormed(ls[k])
  }

  datatype LineKind = SkipLine | CpuLine | DataLine

  /** Blank lines and lines opening with `}` are skipped; a line whose first
      three characters are `cpu` in any case selects a CPU; anything else is
      data. */
  function Classify(text: string): LineKind
    requires NoNul(text)
  {
    if |text| == 0 || text[0] == '}' then SkipLine
    else if StrNCaseEqual(text, "cpu", 3) then CpuLine
    else DataLine
  }

  /** The CPU-line test is a case-insensitive three-letter prefix test. */
  lemma ClassifyCpuLine(text: string)
    requires NoNul(text)
    ensures Classify(text) == CpuLine <==>
      |text| >= 3 && ToLower(text[0]) == 'c' && ToLower(text[1]) == 'p' && ToLower(text[2]) == 'u'
  {
    assert NoNul("cpu");
    StrNCaseEqualMeaning(text, "cpu", 3);
    if |text| >= 3 {
      assert |Take(text, 3)| == 3;
    }
  }

  /** Whether the driver accepts line `l` when the CPU selected so far is
      `cpu` (`-1` before any CPU line). */
  predicate LineOk(l: Line, cpu: int, cpuNum: int)
    requires NoNul(l.text)
  {
    match Classify(l.text)
    case SkipLine => true
    case CpuLine => l.cpuId.Some? && 0 <= l.cpuId.value < cpuNum
    case DataLine =>
      cpu != -1 && l.values.Some? &&
      l.values.value.freq != 0 && l.values.value.cap != 0 && l.values.value.power != 0
  }

  /** The selected CPU after line `l`. */
  function NextCpu(l: Line, cpu: int): int
    requires NoNul(l.text)
  {
    if Classify(l.text) == CpuLine && l.cpuId.Some? then l.cpuId.value else cpu
  }

  /** The selected CPU after a run of lines. */
  function CpuAfter(ls: seq<Line>, cpu: int): int
    requires LinesWellFormed(ls)
  {
    if |ls| == 0 then cpu else CpuAfter(ls[1..], NextCpu(ls[0], cpu))
  }

  /** The line loop of `parse_profile`: every data line is applied with
      `update_em_entry` (whose "not found" answer is ignored), and the first
      bad line ends the parse with `-EINVAL`. */
  function ParseLines(p: Profile, ls: seq<Line>, cpu: int, cpuNum: int): (r: Result<Profile>)
    requires LinesWellFormed(ls) && cpu >= -1
    ensures r.Err? ==> r.error == EINVAL
    ensures r.Ok? ==> SameShape(r.value, p)
    decreases |ls|
  {
    if |ls| == 0 then Ok(p)
    else
      var l := ls[0];
      if !LineOk(l, cpu, cpuNum) then Err(EINVAL)
      else if Classify(l.text) == CpuLine then ParseLines(p, ls[1..], l.cpuId.value, cpuNum)
      else if Classify(l.text) == SkipLine then ParseLines(p, ls[1..], cpu, cpuNum)
      else
        var v := l.values.value;
        ParseLines(UpdateEmEntry(p, cpu as nat, v.freq, v.cap, v.power).0, ls[1..], cpu, cpuNum)
  }

  /** The parse succeeds exactly when every line is acceptable given the CPU
      the lines before it selected; in particular a data line whose
      frequency matches no OPP is not an error. */
  lemma {:induction false} ParseLinesAcceptsIff(p: Profile, ls: seq<Line>, cpu: int, cpuNum: int)
    requires LinesWellFormed(ls) && cpu >= -1
    ensures ParseLines(p, ls, cpu, cpuNum).Ok? <==>
      forall k :: 0 <= k < |ls| ==> LineOk(ls[k], CpuAfter(ls[..k], cpu), cpuNum)
    decreases |ls|
  {
    if |ls| > 0 {
      var l := ls[0];
      assert ls[..0] == [];
      assert CpuAfter(ls[..0], cpu) == cpu;
      if LineOk(l, cpu, cpuNum) {
        var next := NextCpu(l, cpu);
        assert next >= -1;
        var p' := if Classify(l.text) == DataLine then UpdateEmEntry(p, cpu as nat, l.values.value.freq, l.values.value.cap, l.values.value.power).0 else p;
        assert ParseLines(p, ls, cpu, cpuNum) == ParseLines(p', ls[1..], next, cpuNum);
        ParseLinesAcceptsIff(p', ls[1..], next, cpuNum);
        forall k | 1 <= k < |ls|
          ensures CpuAfter(ls[..k], cpu) == CpuAfter(ls[1..][..k - 1], next)
        {
          assert ls[..k][1..] == ls[1..][..k - 1];
        }
        forall k | 1 <= k < |ls|
          ensures ls[k] == ls[1..][k - 1]
        {
        }
      }
    }
  }

  /** Every capacity is positive. */
  predicate PositiveCapacities(p: Profile)
  {
    forall c, o :: 0 <= c < |p.clusters| && 0 <= o < |p.clusters[c].opps| ==> p.clusters[c].opps[o].capacity > 0
  }

  /** What the driver expects of the default profile built from the kernel
      energy model: at least one cluster, every cluster with an OPP, every
      capacity positive. */
  predicate DefaultsOk(cs: seq<Cluster>)
  {
    |cs| > 0 && HasOpps(cs) && PositiveCapacities(Profile([], cs))
  }

  lemma {:induction false} ParseLinesKeepsPositive(p: Profile, ls: seq<Line>, cpu: int, cpuNum: int)
    requires LinesWellFormed(ls) && cpu >= -1 && PositiveCapacities(p)
    requires ParseLines(p, ls, cpu, cpuNum).Ok?
    ensures PositiveCapacities(ParseLines(p, ls, cpu, cpuNum).value)
    decreases |ls|
  {
    if |ls| > 0 {
      var l := ls[0];
      if Classify(l.text) == DataLine {
        var v := l.values.value;
        var q := UpdateEmEntry(p, cpu as nat, v.freq, v.cap, v.power).0;
        forall c, o | 0 <= c < |q.clusters| && 0 <= o < |q.clusters[c].opps|
          ensures q.clusters[c].opps[o].capacity > 0
        {
          var e := FindEntry(p.clusters, cpu as nat, v.freq, 0);
          if e.Some? && Pos(c, o) != e.value && Pos(c, o + 1) != e.value {
            assert q.clusters[c].opps[o] == p.clusters[c].opps[o];
          }
        }
        ParseLinesKeepsPositive(q, ls[1..], cpu, cpuNum);
      } else if Classify(l.text) == CpuLine {
        ParseLinesKeepsPositive(p, ls[1..], l.cpuId.value, cpuNum);
      } else {
        ParseLinesKeepsPositive(p, ls[1..], cpu, cpuNum);
      }
    }
  }

  /** A profile with the default's shape and positive capacities can be
      rescaled: the maximum is positive. */
  lemma PositiveCanScale(p: Profile)
    requires |p.clusters| > 0 && HasOpps(p.clusters) && PositiveCapacities(p)
    ensures CanScale(p)
  {
    assert LastCapacity(p.clusters[0]) > 0;
  }

  /** The outcome of `parse_profile`: its return value and the profile list. */
  datatype ParseResult = ParseResult(res: int, profiles: seq<Profile>)

  /** The body of a profile text is accepted: it parses over the default
      tables and the result passes `check_profile_consistency`. */
  predicate BodyAccepted(name: string, ls: seq<Line>, cpuNum: int, defaults: seq<Cluster>)
    requires LinesWellFormed(ls)
  {
    var parsed := ParseLines(Profile(name, defaults), ls, -1, cpuNum);
    parsed.Ok? && Consistent(parsed.value)
  }

  /** The profile an accepted body yields: the parsed tables rescaled by
      `scale_profile_capacities`. */
  function ParsedProfile(name: string, ls: seq<Line>, cpuNum: int, defaults: seq<Cluster>): (p: Profile)
    requires LinesWellFormed(ls) && DefaultsOk(defaults) && BodyAccepted(name, ls, cpuNum, defaults)
    ensures p.name == name && SameShape(p, Profile(name, defaults))
  {
    var parsed := ParseLines(Profile(name, defaults), ls, -1, cpuNum).value;
    ParseLinesKeepsPositive(Profile(name, defaults), ls, -1, cpuNum);
    PositiveCanScale(parsed);
    SameShapeTrans(ScaleProfile(parsed), parsed, Profile(name, defaults));
    ScaleProfile(parsed)
  }

  /** `parse_profile` on a text whose first line is `name` and whose other
      lines are `ls`. `dupOk` is whether the copy of the input could be
      allocated, `defaults` the default tables `generate_default_em_profile`
      builds (none when it fails), and `publish` the result of publishing a
      new profile. A new profile is added at the head of the list; an
      existing one of the same name receives the parsed tables through
      `update_profile`. */
  function ParseProfile(name: string, ls: seq<Line>, cpuNum: int, inputLength: nat, dupOk: bool,
                        defaults: Option<seq<Cluster>>, publish: Status, profiles: seq<Profile>): (r: ParseResult)
    requires NoNul(name) && LinesWellFormed(ls)
    requires defaults.Some? ==> DefaultsOk(defaults.value)
    ensures r.res < 0 ==> r.profiles == profiles
    ensures r.res >= 0 ==> r.res == inputLength && dupOk && ValidName(name)
    ensures !dupOk ==> r.res == ENOMEM.Neg()
    ensures dupOk && !(ValidName(name) && defaults.Some? && BodyAccepted(name, ls, cpuNum, defaults.value)) ==>
      r.res == EINVAL.Neg()
    ensures r.res >= 0 <==>
      dupOk && ValidName(name) && defaults.Some? && BodyAccepted(name, ls, cpuNum, defaults.value) &&
      (FindProfile(profiles, name).Some? || publish.Success?)
    ensures r.res >= 0 ==> FindProfile(r.profiles, name).Some?
    ensures r.res >= 0 ==> |r.profiles| == |profiles| + (if FindProfile(profiles, name).None? then 1 else 0)
    ensures r.res >= 0 && FindProfile(profiles, name).None? ==>
      r.profiles == [ParsedProfile(name, ls, cpuNum, defaults.value)] + profiles
    ensures r.res >= 0 && FindProfile(profiles, name).Some? ==>
      var i := FindProfile(profiles, name).value;
      r.profiles == profiles[i := UpdateProfile(profiles[i], ParsedProfile(name, ls, cpuNum, defaults.value))]
  {
    if !dupOk then ParseResult(ENOMEM.Neg(), profiles)
    else if !ValidName(name) || defaults.None? then ParseResult(EINVAL.Neg(), profiles)
    else if !BodyAccepted(name, ls, cpuNum, defaults.value) then ParseResult(EINVAL.Neg(), profiles)
    else Commit(ParsedProfile(name, ls, cpuNum, defaults.value), inputLength, publish, profiles)
  }

  /** The end of a successful parse: publish a new profile at the head of
      the list, or copy the tables into the existing one of the same name. */
  function Commit(scaled: Profile, inputLength: nat, publish: Status, profiles: seq<Profile>): (r: ParseResult)
    ensures r.res < 0 ==> r.profiles == profiles && r.res == publish.Ret()
    ensures r.res >= 0 ==> r.res == inputLength && FindProfile(r.profiles, scaled.name).Some?
    ensures r.res >= 0 ==> |r.profiles| == |profiles| + (if FindProfile(profiles, scaled.name).None? then 1 else 0)
    ensures r.res < 0 <==> FindProfile(profiles, scaled.name).None? && publish.Failure?
    ensures r.res >= 0 && FindProfile(profiles, scaled.name).None? ==> r.profiles == [scaled] + profiles
    ensures FindProfile(profiles, scaled.name).Some? ==>
      var i := FindProfile(profiles, scaled.name).value;
      r.profiles == profiles[i := UpdateProfile(profiles[i], scaled)]
  {
    var pre := FindProfile(profiles, scaled.name);
    if pre.None? then
      if publish.Failure? then ParseResult(publish.Ret(), profiles)
      else ParseResult(inputLength, [scaled] + profiles)
    else
      var updated := profiles[pre.value := UpdateProfile(profiles[pre.value], scaled)];
      assert updated[pre.value].name == scaled.name;
      ParseResult(inputLength, updated)
  }

  /** A successful parse keeps the list free of duplicate names and leaves
      every other profile alone. */
  lemma ParseKeepsNamesUnique(name: string, ls: seq<Line>, cpuNum: int, inputLength: nat, dupOk: bool,
                              defaults: Option<seq<Cluster>>, publish: Status, profiles: seq<Profile>)
    requires NoNul(name) && LinesWellFormed(ls)
    requires defaults.Some? ==> DefaultsOk(defaults.value)
    requires UniqueNames(profiles)
    ensures var r := ParseProfile(name, ls, cpuNum, inputLength, dupOk, defaults, publish, profiles);
      UniqueNames(r.profiles)
    ensures var r := ParseProfile(name, ls, cpuNum, inputLength, dupOk, defaults, publish, profiles);
      forall q :: q in profiles && q.name != name ==> q in r.profiles
  {
    if dupOk && ValidName(name) && defaults.Some? && BodyAccepted(name, ls, cpuNum, defaults.value) {
      var scaled := ParsedProfile(name, ls, cpuNum, defaults.value);
      assert ParseProfile(name, ls, cpuNum, inputLength, dupOk, defaults, publish, profiles)
        == Commit(scaled, inputLength, publish, profiles);
      CommitKeepsNamesUnique(scaled, inputLength, publish, profiles);
    }
  }

  /** Publishing or updating keeps names unique and every other profile. */
  lemma CommitKeepsNamesUnique(scaled: Profile, inputLength: nat, publish: Status, profiles: seq<Profile>)
    requires UniqueNames(profiles)
    ensures UniqueNames(Commit(scaled, inputLength, publish, profiles).profiles)
    ensures forall q :: q in profiles && q.name != scaled.name ==> q in Commit(scaled, inputLength, publish, profiles).profiles
  {
    var r := Commit(scaled, inputLength, publish, profiles);
    if r.res >= 0 {
      var pre := FindProfile(profiles, scaled.name);
      if pre.None? {
        assert r.profiles[1..] == profiles;
        assert forall i :: 1 <= i < |r.profiles| ==> r.profiles[i] == profiles[i - 1];
      } else {
        forall q | q in profiles && q.name != scaled.name
          ensures q in r.profiles
        {
          var i :| 0 <= i < |profiles| && profiles[i] == q;
          assert r.profiles[i] == q;
        }
      }
    }
  }

  /** Re-sending the text of an existing profile whose tables have the
      parsed shape replaces that profile's tables with the parsed and
      rescaled ones. */
  lemma ParseUpdatesExisting(name: string, ls: seq<Line>, cpuNum: int, inputLength: nat,
                             defaults: seq<Cluster>, publish: Status, profiles: seq<Profile>, i: nat)
    requires NoNul(name) && LinesWellFormed(ls) && DefaultsOk(defaults)
    requires i < |profiles| && FindProfile(profiles, name) == Some(i)
    requires ParseProfile(name, ls, cpuNum, inputLength, true, Some(defaults), publish, profiles).res >= 0
    requires |profiles[i].clusters| == |defaults|
    requires forall c :: 0 <= c < |defaults| ==> Compatible(profiles[i].clusters[c], defaults[c])
    ensures var parsed := ParseLines(Profile(name, defaults), ls, -1, cpuNum);
      parsed.Ok? && CanScale(parsed.value) &&
      ParseProfile(name, ls, cpuNum, inputLength, true, Some(defaults), publish, profiles).profiles ==
        profiles[i := profiles[i].(clusters := ScaleProfile(parsed.value).clusters)]
  {
    var parsed := ParseLines(Profile(name, defaults), ls, -1, cpuNum);
    ParseLinesKeepsPositive(Profile(name, defaults), ls, -1, cpuNum);
    PositiveCanScale(parsed.value);
    var scaled := ScaleProfile(parsed.value);
    assert SameShape(scaled, Profile(name, defaults)) by {
      SameShapeTrans(scaled, parsed.value, Profile(name, defaults));
    }
    CompatibleThroughShape(profiles[i], Profile(name, defaults), scaled);
    UpdateProfileComplete(profiles[i], scaled);
  }

  lemma SameShapeTrans(a: Profile, b: Profile, c: Profile)
    requires SameShape(a, b) && SameShape(b, c)
    ensures SameShape(a, c)
  {
  }

  /** Compatibility with a profile carries over to any profile of the same
      shape. */
  lemma CompatibleThroughShape(dst: Profile, p: Profile, q: Profile)
    requires |dst.clusters| == |p.clusters| && SameShape(q, p)
    requires forall c :: 0 <= c < |p.clusters| ==> Compatible(dst.clusters[c], p.clusters[c])
    ensures |dst.clusters| == |q.clusters|
    ensures forall c :: 0 <= c < |q.clusters| ==> Compatible(dst.clusters[c], q.clusters[c])
  {
    forall c | 0 <= c < |q.clusters|
      ensures Compatible(dst.clusters[c], q.clusters[c])
    {
      var d := dst.clusters[c].opps;
      assert MatchLen(d, p.clusters[c].opps) == |d|;
      MatchLenFull(d, q.clusters[c].opps);
    }
  }

  /** A full match of frequencies makes `MatchLen` the whole length. */
  lemma {:induction false} MatchLenFull(d: seq<Opp>, s: seq<Opp>)
    requires |d| == |s|
    requires forall k :: 0 <= k < |d| ==> d[k].freq == s[k].freq
    ensures MatchLen(d, s) == |d|
  {
    if |d| > 0 {
      MatchLenFull(d[1..], s[1..]);
    }
  }

  // ---------------------------------------------------------------------
  // Releasing the built profile (the exits of parse_profile)
  // ---------------------------------------------------------------------

  /** The way `parse_profile` leaves. */
  datatype ParseExit =
    | NoCopy         // `kstrndup` of the input failed
    | BadName        // the first line is not a valid profile name
    | NoDefaults     // `generate_default_em_profile` failed
    | BadBody        // a line was rejected or the tables are not consistent
    | PublishFailed  // a new profile could not be published
    | Published      // a new profile joined the list
    | Updated        // an existing profile received the parsed tables

  predicate IsError(e: ParseExit)
  {
    e.NoCopy? || e.BadName? || e.NoDefaults? || e.BadBody? || e.PublishFailed?
  }

  /** The exit `parse_profile` takes, in the order the driver tests. */
  function ExitOf(name: string, ls: seq<Line>, cpuNum: int, inputLength: nat, dupOk: bool,
                  defaults: Option<seq<Cluster>>, publish: Status, profiles: seq<Profile>): (e: ParseExit)
    requires NoNul(name) && LinesWellFormed(ls)
    requires defaults.Some? ==> DefaultsOk(defaults.value)
    ensures e.NoCopy? <==> !dupOk
    ensures var r := ParseProfile(name, ls, cpuNum, inputLength, dupOk, defaults, publish, profiles);
      && (IsError(e) <==> r.res < 0)
      && (e.PublishFailed? ==> r.res == publish.Ret())
      && (e.Published? <==> r.res >= 0 && FindProfile(profiles, name).None?)
      && (e.Updated? <==> r.res >= 0 && FindProfile(profiles, name).Some?)
  {
    var r := ParseProfile(name, ls, cpuNum, inputLength, dupOk, defaults, publish, profiles);
    if !dupOk then
      assert r == ParseResult(ENOMEM.Neg(), profiles);
      NoCopy
    else if !ValidName(name) then
      assert r == ParseResult(EINVAL.Neg(), profiles);
      BadName
    else if defaults.None? then
      assert r == ParseResult(EINVAL.Neg(), profiles);
      NoDefaults
    else if !BodyAccepted(name, ls, cpuNum, defaults.value) then
      assert r == ParseResult(EINVAL.Neg(), profiles);
      BadBody
    else
      var scaled := ParsedProfile(name, ls, cpuNum, defaults.value);
      assert r == Commit(scaled, inputLength, publish, profiles);
      CommitOutcome(scaled, inputLength, publish, profiles);
      if FindProfile(profiles, name).Some? then Updated
      else if publish.Failure? then PublishFailed
      else Published
  }

  /** The result of `Commit` in terms of the name lookup and the publish. */
  lemma CommitOutcome(scaled: Profile, inputLength: nat, publish: Status, profiles: seq<Profile>)
    ensures var c := Commit(scaled, inputLength, publish, profiles);
      c.res == if FindProfile(profiles, scaled.name).None? && publish.Failure? then publish.Ret() else inputLength
  {
  }

  /** What the local `profile` holds when it reaches `pixel_em_free_profile`:
      never assigned, NULL, the profile this call built, or that profile
      after it was already freed. */
  datatype ProfileRef = Unset | NullRef | Built | Freed

  /** `pixel_em_free_profile` is defined only on NULL or a live profile. */
  predicate SafeToFree(p: ProfileRef)
  {
    p.NullRef? || p.Built?
  }

  /** The call built a profile that the list does not keep. */
  predicate OwnsBuilt(e: ParseExit)
  {
    e.BadBody? || e.PublishFailed? || e.Updated?
  }

  /** The `pixel_em_free_profile` calls on `profile`, in order, as written:
      `profile` has no initial value (pixel_em.c:352) and the two earliest
      errors jump to the common exit before it is assigned; a publish
      failure frees it (436) and the common exit frees it again (450). */
  function FreesAsWritten(e: ParseExit): seq<ProfileRef>
  {
    match e
    case NoCopy => [Unset]
    case BadName => [Unset]
    case NoDefaults => [NullRef]
    case BadBody => [Built]
    case PublishFailed => [Built, Freed]
    case Published => []
    case Updated => [Built]
  }

  /** As written, a failed input copy or an invalid name hands the
      never-assigned `profile` to `pixel_em_free_profile`. */
  lemma EarlyErrorFreesUnset(name: string, ls: seq<Line>, cpuNum: int, inputLength: nat, dupOk: bool,
                             defaults: Option<seq<Cluster>>, publish: Status, profiles: seq<Profile>)
    requires NoNul(name) && LinesWellFormed(ls)
    requires defaults.Some? ==> DefaultsOk(defaults.value)
    requires !dupOk || !ValidName(name)
    ensures var e := ExitOf(name, ls, cpuNum, inputLength, dupOk, defaults, publish, profiles);
      IsError(e) && Unset in FreesAsWritten(e)
  {
  }

  /** As written, a new profile whose publishing fails is freed twice: the
      input below is a valid one-OPP profile `p` sent to an empty list. */
  lemma PublishFailureFreesTwice()
    ensures var defaults := [Cluster({0}, [Opp(1, 1, 1, 1, false)])];
      var e := ExitOf("p", [], 1, 2, true, Some(defaults), Failure(ENOMEM), []);
      e.PublishFailed? && FreesAsWritten(e) == [Built, Freed] && !SafeToFree(Freed)
  {
    var defaults := [Cluster({0}, [Opp(1, 1, 1, 1, false)])];
    assert ValidName("p") by { assert NameChar('p'); }
    assert ParseLines(Profile("p", defaults), [], -1, 1) == Ok(Profile("p", defaults));
    assert Consistent(Profile("p", defaults));
  }

  /** The intended cleanup: `profile` starts as NULL and a publish failure
      leaves the release to the common exit. Every call then receives NULL
      or the live profile, and the profile built by this call is released
      exactly once when the list does not keep it. */
  function FreesIntended(e: ParseExit): (fs: seq<ProfileRef>)
    ensures forall k :: 0 <= k < |fs| ==> SafeToFree(fs[k])
    ensures multiset(fs)[Built] == (if OwnsBuilt(e) then 1 else 0)
  {
    match e
    case NoCopy => [NullRef]
    case BadName => [NullRef]
    case NoDefaults => [NullRef]
    case BadBody => [Built]
    case PublishFailed => [Built]
    case Published => []
    case Updated => [Built]
  }

  /** The written and the intended cleanups differ exactly on the three
      exits where the written one is undefined. */
  lemma FreesDifferOnlyWhenUnsafe(e: ParseExit)
    ensures FreesAsWritten(e) != FreesIntended(e) <==>
      exists k :: 0 <= k < |FreesAsWritten(e)| && !SafeToFree(FreesAsWritten(e)[k])
    ensures FreesAsWritten(e) != FreesIntended(e) <==> e.NoCopy? || e.BadName? || e.PublishFailed?
  {
    if e.PublishFailed? {
      assert FreesAsWritten(e)[1] == Freed;
    } else if e.NoCopy? || e.BadName? {
      assert FreesAsWritten(e)[0] == Unset;
    }
  }

  // ---------------------------------------------------------------------
  // Selecting the active profile (sysfs_active_profile_store)
  // ---------------------------------------------------------------------

  /** The name the store handler looks up: `kstrndup` stops at the first
      NUL of the buffer, and the handler cuts the copy at its first newline. */
  function StoreName(buf: string): (n: string)
    ensures |n| <= |buf| && n == buf[..|n|]
    ensures forall i :: 0 <= i < |n| ==> n[i] != '\0' && n[i] != '\n'
    ensures |n| < |buf| ==> buf[|n|] == '\0' || buf[|n|] == '\n'
  {
    var dup := buf[..FirstIndexOf(buf, '\0')];
    dup[..FirstIndexOf(dup, '\n')]
  }

  /** Writing a name, with or without the trailing newline `echo` adds,
      looks up exactly that name. */
  lemma StoreNameOfEcho(name: string)
    requires forall i :: 0 <= i < |name| ==> name[i] != '\0' && name[i] != '\n'
    ensures StoreName(name) == name
    ensures StoreName(name + "\n") == name
  {
    var e := name + "\n";
    assert forall i :: 0 <= i < |name| ==> e[i] == name[i];
    assert e[|name|] == '\n';
    assert e[..|name|] == name;
  }

  /** `active_profile` points into the profile list. Profiles are never
      removed from the list and their names stay unique
      (`ParseKeepsNamesUnique`), so the model records the pointer by the name
      of the profile it designates; `ActiveProfile` follows it. An in-place
      update of that profile is thereby seen through `active_profile`, as in
      the driver. */
  function ActiveProfile(profiles: seq<Profile>, active: Option<string>): (r: Option<Profile>)
    ensures r.Some? <==> active.Some? && FindProfile(profiles, active.value).Some?
    ensures r.Some? ==> r.value in profiles && r.value.name == active.value
  {
    if active.None? then None
    else
      var i := FindProfile(profiles, active.value);
      if i.None? then None else Some(profiles[i.value])
  }

  datatype StoreResult = StoreResult(res: int, active: Option<string>)

  /** `sysfs_active_profile_store`: on a match the profile becomes active
      and the handler returns the byte count; otherwise `-EINVAL` and the
      active profile stays. `dupOk` is whether the name copy could be
      allocated. */
  function ActiveProfileStore(buf: string, dupOk: bool, profiles: seq<Profile>, active: Option<string>): (r: StoreResult)
    ensures !dupOk ==> r == StoreResult(ENOMEM.Neg(), active)
    ensures dupOk ==> (r.res == |buf| <==> exists i :: 0 <= i < |profiles| && profiles[i].name == StoreName(buf))
    ensures r.res != |buf| ==> r.active == active
    ensures dupOk && r.res != |buf| ==> r.res == EINVAL.Neg()
    ensures r.res == |buf| ==>
      ActiveProfile(profiles, r.active) == Some(profiles[FindProfile(profiles, StoreName(buf)).value])
  {
    if !dupOk then StoreResult(ENOMEM.Neg(), active)
    else
      var found := FindProfile(profiles, StoreName(buf));
      if found.None? then StoreResult(EINVAL.Neg(), active)
      else StoreResult(|buf|, Some(profiles[found.value].name))
  }

  /** With unique names, echoing a published profile's name selects it. */
  lemma StoreSelects(profiles: seq<Profile>, i: nat, active: Option<string>)
    requires UniqueNames(profiles) && i < |profiles|
    requires forall k :: 0 <= k < |profiles[i].name| ==> profiles[i].name[k] != '\0' && profiles[i].name[k] != '\n'
    ensures ActiveProfile(profiles, ActiveProfileStore(profiles[i].name + "\n", true, profiles, active).active) == Some(profiles[i])
  {
    StoreNameOfEcho(profiles[i].name);
  }

  /** `find_profile` over a list whose element `i` was replaced by one of
      the same name finds the same position. */
  lemma FindProfileSameNames(list: seq<Profile>, i: nat, q: Profile, name: string)
    requires i < |list| && q.name == list[i].name
    ensures FindProfile(list[i := q], name) == FindProfile(list, name)
  {
    var l := list[i := q];
    assert forall k :: 0 <= k < |list| ==> l[k].name == list[k].name;
  }

  /** `find_profile` over a list with a profile of another name added at
      its head finds the same profile one place later. */
  lemma FindProfileAfterPush(list: seq<Profile>, q: Profile, name: string)
    requires q.name != name
    ensures var r := FindProfile([q] + list, name);
      r.Some? <==> FindProfile(list, name).Some?
    ensures FindProfile(list, name).Some? ==>
      FindProfile([q] + list, name) == Some(FindProfile(list, name).value + 1)
  {
    var l := [q] + list;
    assert l[0] == q && l[1..] == list;
    assert FindProfile(l, name) == (if FindProfile(list, name).None? then None else Some(FindProfile(list, name).value + 1));
  }

  /** Parsing a profile changes what `active_profile` designates only when
      it rewrites the active profile itself: then the active profile is the
      old one updated with the parsed tables, as `update_profile` writes
      through the pointer (pixel_em.c:441-445). Any other parse, and any
      failed one, leaves the active profile as it was. */
  lemma ParseUpdatesActive(name: string, ls: seq<Line>, cpuNum: int, inputLength: nat, dupOk: bool,
                           defaults: Option<seq<Cluster>>, publish: Status, profiles: seq<Profile>,
                           active: Option<string>)
    requires NoNul(name) && LinesWellFormed(ls)
    requires defaults.Some? ==> DefaultsOk(defaults.value)
    requires ActiveProfile(profiles, active).Some?
    ensures var r := ParseProfile(name, ls, cpuNum, inputLength, dupOk, defaults, publish, profiles);
      r.res >= 0 && active == Some(name) ==>
        ActiveProfile(r.profiles, active) ==
          Some(UpdateProfile(ActiveProfile(profiles, active).value, ParsedProfile(name, ls, cpuNum, defaults.value)))
    ensures var r := ParseProfile(name, ls, cpuNum, inputLength, dupOk, defaults, publish, profiles);
      r.res < 0 || active != Some(name) ==> ActiveProfile(r.profiles, active) == ActiveProfile(profiles, active)
  {
    var r := ParseProfile(name, ls, cpuNum, inputLength, dupOk, defaults, publish, profiles);
    var a := active.value;
    if r.res >= 0 {
      var scaled := ParsedProfile(name, ls, cpuNum, defaults.value);
      var pre := FindProfile(profiles, name);
      if pre.Some? {
        var upd := UpdateProfile(profiles[pre.value], scaled);
        assert upd.name == profiles[pre.value].name;
        FindProfileSameNames(profiles, pre.value, upd, a);
      } else {
        assert a != name;
        FindProfileAfterPush(profiles, scaled, a);
      }
    }
  }
}
