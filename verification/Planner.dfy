/** The split of a host's CPUs and memory between dom0 and the main guest. */
module Planner {
  import opened CpuLists

  datatype Topology = Topology(logicalCpus: nat, pCores: seq<Cpu>, eCores: seq<Cpu>, allCpus: seq<Cpu>, isHybrid: bool)

  const DOM0_MIN_MB := 768
  const DOM0_MAX_MB := 4096
  const DOM0_FRACTION_PCT := 3
  const DOM0_VCPU_CAP := 4
  const DOMU_SAFETY_RESERVE_MB := 256
  const DOMU_MIN_FLOOR_MB := 2048

  function Min(a: nat, b: nat): nat {
    if a <= b then a else b
  }

  function Max(a: nat, b: nat): nat {
    if a >= b then a else b
  }

  /** Subtraction that stops at zero. */
  function Less(a: nat, b: nat): nat {
    if a >= b then a - b else 0
  }

  datatype Memory = Memory(dom0Mb: nat, activeMb: nat, idleMb: nat, minimumMb: nat)

  function ClampDom0Mb(totalMb: nat): nat {
    var raw := totalMb * DOM0_FRACTION_PCT / 100;
    var rounded := raw / 64 * 64;
    Min(Max(rounded, DOM0_MIN_MB), DOM0_MAX_MB)
  }

  function PlanMemory(totalMb: nat): Memory {
    var dom0 := ClampDom0Mb(totalMb);
    var active := Less(Less(totalMb, dom0), DOMU_SAFETY_RESERVE_MB);
    var idle := Min(Max(active / 2, DOMU_MIN_FLOOR_MB), active);
    Memory(dom0, active, idle, Min(Max(active / 8, DOMU_MIN_FLOOR_MB), active))
  }

  /** The CPUs of dom0 and of the guest. */
  function SplitCpus(topo: Topology): (seq<Cpu>, seq<Cpu>) {
    if topo.isHybrid then
      (topo.eCores[..Min(|topo.eCores|, DOM0_VCPU_CAP)], topo.pCores)
    else
      var n := Min(Max(topo.logicalCpus / 8, 1), DOM0_VCPU_CAP);
      var n' := Min(Min(n, Max(Less(|topo.allCpus|, 1), 1)), |topo.allCpus|);
      (topo.allCpus[..n'], topo.allCpus[n'..])
  }

  predicate Distinct(xs: seq<Cpu>) {
    forall i, j :: 0 <= i < j < |xs| ==> xs[i] != xs[j]
  }

  predicate Disjoint(xs: seq<Cpu>, ys: seq<Cpu>) {
    forall v :: v in xs ==> v !in ys
  }

  /** On a uniform CPU the two shares partition the CPUs: in order, without overlap, one to four
      to dom0 when there is any CPU, and at least one to the guest exactly when there are two. */
  lemma UniformSplitPartitions(topo: Topology)
    requires !topo.isHybrid && Distinct(topo.allCpus)
    ensures
      var (dom0, guest) := SplitCpus(topo);
      && dom0 + guest == topo.allCpus && Disjoint(dom0, guest)
      && (topo.allCpus != [] <==> 1 <= |dom0| <= 4)
      && (|topo.allCpus| >= 2 <==> guest != [])
  {
    var (dom0, guest) := SplitCpus(topo);
    forall v | v in dom0 ensures v !in guest {
      var i :| 0 <= i < |dom0| && dom0[i] == v;
      forall j | 0 <= j < |guest| ensures guest[j] != v {
        assert topo.allCpus[i] != topo.allCpus[|dom0| + j];
      }
    }
  }

  /** On a hybrid CPU with disjoint core lists the shares do not overlap, and they use every core
      exactly when there are at most four efficiency cores; any further ones go to nobody. */
  lemma HybridSplitStrandsCores(topo: Topology)
    requires topo.isHybrid && Distinct(topo.eCores) && Disjoint(topo.eCores, topo.pCores)
    ensures
      var (dom0, guest) := SplitCpus(topo);
      && Disjoint(dom0, guest) && |dom0| <= 4 && dom0 <= topo.eCores && guest == topo.pCores
      && ((forall v :: v in topo.eCores ==> v in dom0 || v in guest) <==> |topo.eCores| <= 4)
  {
    var (dom0, guest) := SplitCpus(topo);
    if |topo.eCores| > 4 {
      var v := topo.eCores[4];
      assert v in topo.eCores && v !in guest && v !in dom0;
    }
  }

  /** Dom0's share: whole 64 MB steps between its bounds, growing with the host. */
  lemma Dom0ShareBounds(totalMb: nat, larger: nat)
    requires totalMb <= larger
    ensures ClampDom0Mb(totalMb) % 64 == 0 && DOM0_MIN_MB <= ClampDom0Mb(totalMb) <= DOM0_MAX_MB
    ensures ClampDom0Mb(totalMb) <= ClampDom0Mb(larger)
  {
    assert totalMb * 3 / 100 <= larger * 3 / 100;
  }

  /** Between its bounds dom0's share is the largest whole step within 3 percent of the host. */
  lemma Dom0ShareIsThreePercent(totalMb: nat)
    ensures
      var d := ClampDom0Mb(totalMb);
      && (d == 768 <==> 3 * totalMb < 100 * 832)
      && (d == 4096 <==> 3 * totalMb >= 100 * 4096)
      && (768 < d < 4096 ==> d % 64 == 0 && 100 * d <= 3 * totalMb < 100 * (d + 64))
  {
    var raw := totalMb * 3 / 100;
    assert 100 * raw <= 3 * totalMb < 100 * raw + 100;
  }

  /** The guest idles at half of its memory and may shrink to an eighth, but to no less than 2 GB
      if it has that. */
  lemma IdleIsHalf(totalMb: nat)
    ensures
      var m := PlanMemory(totalMb);
      && (m.activeMb >= 4096 ==> 2 * m.idleMb <= m.activeMb <= 2 * m.idleMb + 1)
      && (m.activeMb >= 16384 ==> 8 * m.minimumMb <= m.activeMb <= 8 * m.minimumMb + 7)
      && (m.activeMb < 4096 ==> m.idleMb == if m.activeMb >= 2048 then 2048 else m.activeMb)
      && (m.activeMb < 16384 ==> m.minimumMb == if m.activeMb >= 2048 then 2048 else m.activeMb)
  {
  }

  /** On a uniform CPU dom0 gets one CPU in eight, at least one and at most four. */
  lemma Dom0CpusOfUniform(topo: Topology)
    requires !topo.isHybrid && topo.logicalCpus == |topo.allCpus| >= 1
    ensures
      var n, k := |topo.allCpus|, |SplitCpus(topo).0|;
      k == if n < 16 then 1 else if n < 24 then 2 else if n < 32 then 3 else 4
  {
  }

  /** On a hybrid one, its first efficiency cores, at most four. */
  lemma Dom0CpusOfHybrid(topo: Topology)
    requires topo.isHybrid
    ensures
      var (dom0, guest) := SplitCpus(topo);
      && |dom0| == (if |topo.eCores| < 4 then |topo.eCores| else 4)
      && (forall i :: 0 <= i < |dom0| ==> dom0[i] == topo.eCores[i]) && guest == topo.pCores
  {
  }

  /** The shares and the reserve account for all memory exactly on hosts of at least 1 GB, and the
      guest's sizes are always ordered; the advertised 2 GB minimum holds from 3 GB on. */
  lemma MemoryAccounted(totalMb: nat)
    ensures
      var m := PlanMemory(totalMb);
      && (m.dom0Mb + m.activeMb + DOMU_SAFETY_RESERVE_MB == totalMb <==> totalMb >= 1024)
      && m.minimumMb <= m.idleMb <= m.activeMb
      && (m.minimumMb >= DOMU_MIN_FLOOR_MB <==> totalMb >= 3072)
  {
    assert totalMb < 34133 ==> ClampDom0Mb(totalMb) <= 1024;
    assert totalMb * 3 / 100 <= totalMb;
    assert totalMb < 3072 ==> ClampDom0Mb(totalMb) == 768;
    assert totalMb >= 3072 ==> ClampDom0Mb(totalMb) + 2304 <= totalMb;
  }

  /** One more megabyte in the host goes to the guest, unless dom0 takes its next step with it. */
  lemma OneMoreMegabyte(totalMb: nat)
    requires totalMb >= 1024
    ensures
      var before, after := PlanMemory(totalMb), PlanMemory(totalMb + 1);
      if after.dom0Mb == before.dom0Mb then after.activeMb == before.activeMb + 1
      else after.dom0Mb == before.dom0Mb + 64 && after.activeMb == before.activeMb - 63
  {
    MemoryAccounted(totalMb);
    MemoryAccounted(totalMb + 1);
    Dom0Steps(totalMb);
  }

  lemma Dom0Steps(totalMb: nat)
    ensures ClampDom0Mb(totalMb + 1) == ClampDom0Mb(totalMb) || ClampDom0Mb(totalMb + 1) == ClampDom0Mb(totalMb) + 64
  {
    var a, b := totalMb * 3 / 100, (totalMb + 1) * 3 / 100;
    assert a <= b <= a + 1;
    StepOf64(a, b);
  }

  lemma StepOf64(a: nat, b: nat)
    requires a <= b <= a + 1
    ensures b / 64 == a / 64 || b / 64 == a / 64 + 1
  {
  }

  /** From the kernel's CPU list to the pins: a uniform host's list splits into dom0's and the
      guest's share with nothing lost and nothing repeated. */
  lemma ProbedSplitPartitions(text: string, cpus: seq<Cpu>)
    requires Denotes(cpus, Chunks(text))
    ensures
      var (dom0, guest) := SplitCpus(Topology(|cpus|, [], [], cpus, false));
      && Disjoint(dom0, guest)
      && forall v :: v in dom0 || v in guest <==> Listed(Chunks(text), v)
  {
    UniformSplitPartitions(Topology(|cpus|, [], [], cpus, false));
    var (dom0, guest) := SplitCpus(Topology(|cpus|, [], [], cpus, false));
    assert forall v :: v in dom0 + guest <==> v in cpus;
  }
}
