/**
 * Weighted selection of work, src/scheduler/scheduler.h, and the per-source penalty that feeds it,
 * src/tools/stratum_registry_runner.cpp.
 */
module Scheduler {
  import opened Words

  const MAX_PENALTY := 5

  function Min(a: int, b: int): int { if a < b then a else b }

  function Max(a: int, b: int): int { if a > b then a else b }

  function Lookup(m: map<nat, nat>, key: nat, otherwise: nat): nat {
    if key in m then m[key] else otherwise
  }

  // ---- What selection promises ----

  /** The configured weight of a source, one when it is missing or zero, cut off at the cap. */
  function FullWeight(weights: map<nat, nat>, cap: nat, source: nat): (w: nat)
    ensures 1 <= w <= Max(1, cap)
  {
    Max(1, Min(Lookup(weights, source, 1), Max(1, cap)))
  }

  /** The weight under a penalty: reduced by it, but never below one. */
  function Penalised(full: nat, penalty: nat): nat {
    Max(1, full - penalty)
  }

  datatype Weights = Weights(weight: map<nat, nat>, penalty: map<nat, nat>, cap: nat) {

    function Of(source: nat): (w: nat)
      ensures 1 <= w <= Max(1, cap)
    {
      Penalised(FullWeight(weight, cap, source), Lookup(penalty, source, 0))
    }
  }

  /** The configured weight counts up to the cap; without one, or with a cap of zero, the weight is one. */
  lemma FullWeightIs(weights: map<nat, nat>, cap: nat, source: nat)
    ensures
      var full, c := FullWeight(weights, cap, source), if source in weights then weights[source] else 0;
      && (c == 0 || cap == 0 ==> full == 1)
      && (1 <= c <= cap ==> full == c)
      && (1 <= cap < c ==> full == cap)
  {
  }

  /** A penalty below the full weight is what is missing from it, and any other leaves one. */
  lemma WeightIs(w: Weights, source: nat)
    ensures
      var full, p := FullWeight(w.weight, w.cap, source), if source in w.penalty then w.penalty[source] else 0;
      && (p < full ==> w.Of(source) + p == full)
      && (p >= full ==> w.Of(source) == 1)
  {
  }

  function Repeat(id: nat, n: nat): (r: seq<nat>)
    ensures |r| == n && forall i :: 0 <= i < n ==> r[i] == id
  {
    seq(n, _ => id)
  }

  /** The part of the weighted list that one id contributes. */
  function Part(id: nat, snaps: map<nat, nat>, w: Weights): seq<nat> {
    if id in snaps then Repeat(id, w.Of(snaps[id])) else []
  }

  /** Every id with a snapshot, in order, as often as the weight of its source. */
  function Weighted(ids: seq<nat>, snaps: map<nat, nat>, w: Weights): seq<nat> {
    if ids == [] then [] else Part(ids[0], snaps, w) + Weighted(ids[1..], snaps, w)
  }

  function Take(s: seq<nat>, n: nat): (t: seq<nat>)
    ensures |t| == Min(|s|, n)
  {
    if n < |s| then s[..n] else s
  }

  lemma {:induction false} WeightedConcat(a: seq<nat>, b: seq<nat>, snaps: map<nat, nat>, w: Weights)
    ensures Weighted(a + b, snaps, w) == Weighted(a, snaps, w) + Weighted(b, snaps, w)
  {
    if a == [] {
      assert a + b == b;
    } else {
      assert (a + b)[1..] == a[1..] + b;
      WeightedConcat(a[1..], b, snaps, w);
    }
  }

  lemma WeightedAt(ids: seq<nat>, i: nat, snaps: map<nat, nat>, w: Weights)
    requires i < |ids|
    ensures Weighted(ids[..i+1], snaps, w) == Weighted(ids[..i], snaps, w) + Part(ids[i], snaps, w)
    ensures Weighted(ids, snaps, w) == Weighted(ids[..i+1], snaps, w) + Weighted(ids[i+1..], snaps, w)
  {
    WeightedConcat(ids[..i], [ids[i]], snaps, w);
    assert [ids[i]][1..] == [];
    assert ids[..i+1] == ids[..i] + [ids[i]];
    WeightedConcat(ids[..i+1], ids[i+1..], snaps, w);
    assert ids == ids[..i+1] + ids[i+1..];
  }

  lemma TakeOfPrefix(s: seq<nat>, rest: seq<nat>, n: nat)
    requires n <= |s|
    ensures Take(s + rest, n) == Take(s, n)
  {
    assert (s + rest)[..n] == s[..n];
    assert n == |s| ==> s[..n] == s;
  }

  class SchedulerState {
    var sourceWeight: map<nat, nat>
    var sourcePenalty: map<nat, nat>
    var maxWeightCap: nat
    var tick: nat

    function WeightsNow(): Weights
      reads this
    {
      Weights(sourceWeight, sourcePenalty, maxWeightCap)
    }

    /** The branches of select that compute the weight of one source. */
    method WeightOf(sid: nat) returns (w: nat)
      ensures w == WeightsNow().Of(sid)
    {
      FullWeightIs(sourceWeight, maxWeightCap, sid);
      WeightIs(WeightsNow(), sid);
      w := 1;
      if sid in sourceWeight && sourceWeight[sid] > 0 {
        var cap := if maxWeightCap == 0 then 1 else maxWeightCap;
        w := if sourceWeight[sid] > cap then cap else sourceWeight[sid];
      }
      if sid in sourcePenalty && sourcePenalty[sid] > 0 {
        if sourcePenalty[sid] >= w {
          w := 1;
        } else {
          w := w - sourcePenalty[sid];
        }
      }
    }

    /** The inner loop: pushes one id up to w times, and stops as soon as the limit is reached. */
    method PushRepeated(out: seq<nat>, wid: nat, w: nat, maxIds: nat) returns (out': seq<nat>)
      requires w > 0 && |out| < Max(1, maxIds)
      ensures out' == Take(out + Repeat(wid, w), Max(1, maxIds))
    {
      out' := out;
      for k := 0 to w
        invariant out' == out + Repeat(wid, k) && |out'| < Max(1, maxIds)
      {
        out' := out' + [wid];
        assert out' == out + Repeat(wid, k + 1);
        assert (out + Repeat(wid, w))[..|out'|] == out';
        if |out'| >= maxIds {
          return;
        }
      }
    }

    /** select: the first ids of the weighted list, as many as asked for; a request for none is served as one. */
    method Select(workIds: seq<nat>, snaps: map<nat, nat>, maxIds: nat) returns (out: seq<nat>)
      modifies this`tick
      ensures out == Take(Weighted(workIds, snaps, WeightsNow()), Max(1, maxIds))
      ensures tick == (old(tick) + 1) % UINT64
      ensures WeightsNow() == old(WeightsNow())
    {
      ghost var w, limit := WeightsNow(), Max(1, maxIds);
      out := [];
      assert Weighted([], snaps, w) == [];
      hide Weighted;
      for i := 0 to |workIds|
        invariant out == Weighted(workIds[..i], snaps, w) && |out| < limit && tick == old(tick)
      {
        var wid := workIds[i];
        WeightedAt(workIds, i, snaps, w);
        if wid !in snaps {
          continue;
        }
        var weight := WeightOf(snaps[wid]);
        out := PushRepeated(out, wid, weight, maxIds);
        if |out| >= maxIds {
          TakeOfPrefix(Weighted(workIds[..i+1], snaps, w), Weighted(workIds[i+1..], snaps, w), limit);
          break;
        }
      }
      assert workIds[..|workIds|] == workIds;
      tick := (tick + 1) % UINT64;
      assert WeightsNow() == w;
    }
  }

  // ---- What the selection amounts to ----

  lemma {:induction false} WeightedMembers(ids: seq<nat>, snaps: map<nat, nat>, w: Weights, id: nat)
    ensures id in Weighted(ids, snaps, w) <==> id in ids && id in snaps
  {
    if ids != [] {
      WeightedMembers(ids[1..], snaps, w, id);
      var part := Part(ids[0], snaps, w);
      if ids[0] in snaps {
        assert part[0] == ids[0];
      }
    }
  }

  /**
   * Selection starts at the first id every time, so an id is reached exactly when the ids before it leave room:
   * past that point no number of calls selects it.
   */
  lemma SelectedIff(ids: seq<nat>, snaps: map<nat, nat>, w: Weights, j: nat, maxIds: nat)
    requires j < |ids| && ids[j] in snaps && ids[j] !in ids[..j]
    ensures ids[j] in Take(Weighted(ids, snaps, w), Max(1, maxIds)) <==> |Weighted(ids[..j], snaps, w)| < Max(1, maxIds)
  {
    var all, before, limit := Weighted(ids, snaps, w), Weighted(ids[..j], snaps, w), Max(1, maxIds);
    WeightedAt(ids, j, snaps, w);
    WeightedMembers(ids[..j], snaps, w, ids[j]);
    assert all[..|before|] == before;
    if |before| < limit {
      assert all[|before|] == ids[j];
      assert Take(all, limit)[|before|] == ids[j];
    } else {
      assert Take(all, limit) <= before;
      assert forall i :: 0 <= i < |Take(all, limit)| ==> Take(all, limit)[i] == before[i];
    }
  }

  /** Without duplicates, every known id has exactly the weight of its source as its share of the list. */
  lemma {:induction false} ShareIsWeight(ids: seq<nat>, snaps: map<nat, nat>, w: Weights, id: nat)
    requires forall i, j :: 0 <= i < j < |ids| ==> ids[i] != ids[j]
    ensures id !in ids || id !in snaps ==> multiset(Weighted(ids, snaps, w))[id] == 0
    ensures id in ids && id in snaps ==>
      var source, share := snaps[id], multiset(Weighted(ids, snaps, w))[id];
      var c := if source in w.weight then w.weight[source] else 0;
      var p := if source in w.penalty then w.penalty[source] else 0;
      && share == w.Of(source)
      && (c == 0 || w.cap == 0 ==> share == 1)
      && (p < c <= w.cap ==> share + p == c)
      && (p < w.cap <= c ==> share + p == w.cap)
      && (c <= p || w.cap <= p ==> share == 1)
  {
    if id in snaps {
      FullWeightIs(w.weight, w.cap, snaps[id]);
      WeightIs(w, snaps[id]);
    }
    hide FullWeight, Penalised;
    ShareIsOf(ids, snaps, w, id);
  }

  lemma {:induction false} ShareIsOf(ids: seq<nat>, snaps: map<nat, nat>, w: Weights, id: nat)
    requires forall i, j :: 0 <= i < j < |ids| ==> ids[i] != ids[j]
    ensures multiset(Weighted(ids, snaps, w))[id] == if id in ids && id in snaps then w.Of(snaps[id]) else 0
  {
    if ids != [] {
      ShareIsOf(ids[1..], snaps, w, id);
      if ids[0] in snaps {
        RepeatCount(ids[0], w.Of(snaps[ids[0]]), id);
      }
    }
  }

  lemma {:induction false} RepeatCount(x: nat, n: nat, id: nat)
    ensures multiset(Repeat(x, n))[id] == if id == x then n else 0
  {
    if n > 0 {
      RepeatCount(x, n - 1, id);
      assert Repeat(x, n) == Repeat(x, n - 1) + [x];
    }
  }

  /** The cap bounds the whole list, so a limit of ids times cap cuts nothing off. */
  lemma {:induction false} NothingCutOff(ids: seq<nat>, snaps: map<nat, nat>, w: Weights, maxIds: nat)
    requires |ids| * Max(1, w.cap) <= maxIds
    ensures Take(Weighted(ids, snaps, w), Max(1, maxIds)) == Weighted(ids, snaps, w)
    decreases |ids|
  {
    if ids != [] {
      var cap := Max(1, w.cap);
      assert |ids| * cap == |ids[1..]| * cap + cap;
      assert 0 <= |ids[1..]| * cap;
      NothingCutOff(ids[1..], snaps, w, |ids[1..]| * cap);
    }
  }

  /** Asking for none is the one request that is not answered with the first maxIds elements. */
  lemma FirstMaxIds(ids: seq<nat>, snaps: map<nat, nat>, w: Weights, maxIds: nat)
    ensures
      var all := Weighted(ids, snaps, w);
      Take(all, Max(1, maxIds)) == Take(all, maxIds) <==> maxIds >= 1 || forall id :: id in ids ==> id !in snaps
  {
    var all := Weighted(ids, snaps, w);
    forall id | id in ids
      ensures id in all <==> id in snaps
    {
      WeightedMembers(ids, snaps, w, id);
    }
    if all != [] {
      WeightedMembers(ids, snaps, w, all[0]);
    }
  }

  // ---- Backpressure ----

  /** What a stratum runner reports: counts since it started, and its mean submit latency. */
  datatype Report = Report(accepted: int, rejected: int, latency: int, connectFailures: int, quickDisconnects: int)

  datatype Source = Stratum(report: Report) | Other

  /** What the runner keeps for a source: the counts it last saw, and the penalty. */
  datatype Track = Track(accepted: int, rejected: int, penalty: int)

  function Over(x: int, limit: int): nat {
    if x > limit then 1 else 0
  }

  /** How many things are wrong with a source; a latency limit of zero is none. */
  function Pressure(t: Track, s: Source, latencyLimit: nat): nat {
    match s
    case Other => 0
    case Stratum(r) =>
      Over(r.rejected - t.rejected, r.accepted - t.accepted) +
      (if latencyLimit > 0 then Over(r.latency, latencyLimit) else 0) +
      Over(r.connectFailures, 0) + Over(r.connectFailures, 3) + Over(r.connectFailures, 7) +
      Over(r.quickDisconnects, 0) + Over(r.quickDisconnects, 3)
  }

  /** What keeps a source free of pressure. */
  predicate Healthy(t: Track, s: Source, latencyLimit: nat) {
    s.Stratum? ==>
      && s.report.rejected - t.rejected <= s.report.accepted - t.accepted
      && (latencyLimit == 0 || s.report.latency <= latencyLimit)
      && s.report.connectFailures <= 0 && s.report.quickDisconnects <= 0
  }

  /** The next penalty: one less when nothing is wrong, else up by the pressure, but never above five. */
  function Next(t: Track, s: Source, latencyLimit: nat): Track {
    var p := Pressure(t, s, latencyLimit);
    var penalty :=
      if p > 0 then Min(t.penalty + p, MAX_PENALTY) else if t.penalty > 0 then t.penalty - 1 else t.penalty;
    match s
    case Other => t.(penalty := penalty)
    case Stratum(r) => Track(r.accepted, r.rejected, penalty)
  }

  class Backpressure {
    const scheduler: SchedulerState
    const latencyLimit: nat
    var srcPenalty: map<nat, int>
    var lastAcc: map<nat, int>
    var lastRej: map<nat, int>

    /** Missing entries of the three maps read as zero. */
    function TrackOf(sid: nat): Track
      reads this
    {
      Track(if sid in lastAcc then lastAcc[sid] else 0, if sid in lastRej then lastRej[sid] else 0,
        if sid in srcPenalty then srcPenalty[sid] else 0)
    }

    /** The scheduler is told every penalty, and all of them stay between zero and five. */
    ghost predicate Valid()
      reads this, scheduler
    {
      forall sid: nat :: 0 <= TrackOf(sid).penalty == Lookup(scheduler.sourcePenalty, sid, 0) <= MAX_PENALTY
    }

    constructor (scheduler: SchedulerState, latencyLimit: nat)
      requires scheduler.sourcePenalty == map[]
      ensures Valid() && this.scheduler == scheduler && this.latencyLimit == latencyLimit
      ensures forall sid: nat :: TrackOf(sid) == Track(0, 0, 0)
    {
      this.scheduler, this.latencyLimit := scheduler, latencyLimit;
      srcPenalty, lastAcc, lastRej := map[], map[], map[];
    }

    /** The pressure on one source; remembers the counts it was computed from. */
    method Measure(sid: nat, s: Source) returns (p: nat)
      modifies this`lastAcc, this`lastRej
      ensures p == Pressure(old(TrackOf(sid)), s, latencyLimit)
      ensures TrackOf(sid) == Next(old(TrackOf(sid)), s, latencyLimit).(penalty := old(TrackOf(sid)).penalty)
      ensures forall other: nat :: other != sid ==> TrackOf(other) == old(TrackOf(other))
    {
      p := 0;
      if s.Stratum? {
        var r, t := s.report, TrackOf(sid);
        var dacc, drej := r.accepted - t.accepted, r.rejected - t.rejected;
        lastAcc, lastRej := lastAcc[sid := r.accepted], lastRej[sid := r.rejected];
        if drej > dacc { p := p + 1; }
        if latencyLimit > 0 && r.latency > latencyLimit { p := p + 1; }
        var cf, qd := r.connectFailures, r.quickDisconnects;
        if cf > 0 { p := p + 1; }
        if cf > 3 { p := p + 1; }
        if cf > 7 { p := p + 1; }
        if qd > 0 { p := p + 1; }
        if qd > 3 { p := p + 1; }
      }
    }

    /** The body of the penalty loop, for one source. */
    method Round(sid: nat, s: Source)
      requires Valid()
      modifies this`srcPenalty, this`lastAcc, this`lastRej, scheduler`sourcePenalty
      ensures Valid()
      ensures TrackOf(sid) == Next(old(TrackOf(sid)), s, latencyLimit)
      ensures forall other: nat :: other != sid ==> TrackOf(other) == old(TrackOf(other))
    {
      hide Pressure;
      var p := Measure(sid, s);
      var prev := TrackOf(sid).penalty;
      if p == 0 && prev > 0 {
        prev := prev - 1;
      } else if p > 0 {
        prev := Min(prev + p, 5);
      }
      ghost var told := scheduler.sourcePenalty;
      srcPenalty := srcPenalty[sid := prev];
      scheduler.sourcePenalty := scheduler.sourcePenalty[sid := prev];
      assert forall other: nat :: other != sid ==> Lookup(scheduler.sourcePenalty, other, 0) == Lookup(told, other, 0);
    }

    /** One round of the penalty loop over all sources. */
    method Update(sources: seq<Source>)
      requires Valid()
      modifies this`srcPenalty, this`lastAcc, this`lastRej, scheduler`sourcePenalty
      ensures Valid()
      ensures forall sid: nat :: sid < |sources| ==>
        TrackOf(sid) == Next(old(TrackOf(sid)), sources[sid], latencyLimit)
      ensures forall sid: nat :: sid >= |sources| ==> TrackOf(sid) == old(TrackOf(sid))
    {
      hide Next;
      for sid := 0 to |sources|
        invariant Valid()
        invariant forall i: nat :: i < sid ==> TrackOf(i) == Next(old(TrackOf(i)), sources[i], latencyLimit)
        invariant forall i: nat :: i >= sid ==> TrackOf(i) == old(TrackOf(i))
      {
        Round(sid, sources[sid]);
      }
    }
  }

  // ---- Whole runs of one source ----

  /**
   * The pressure is one for more rejections than acceptances, one for slow submits, up to three for failed connections
   * and up to two for quick disconnects. So it lies between zero and seven, and is zero exactly on a healthy source.
   */
  lemma PressureIs(t: Track, s: Source, latencyLimit: nat)
    ensures 0 <= Pressure(t, s, latencyLimit) <= 7
    ensures Pressure(t, s, latencyLimit) == 0 <==> Healthy(t, s, latencyLimit)
    ensures s.Stratum? ==>
      var r := s.report;
      var failures := if r.connectFailures >= 8 then 3 else if r.connectFailures >= 4 then 2
                      else if r.connectFailures >= 1 then 1 else 0;
      var disconnects := if r.quickDisconnects >= 4 then 2 else if r.quickDisconnects >= 1 then 1 else 0;
      Pressure(t, s, latencyLimit) == failures + disconnects +
        (if r.rejected - t.rejected > r.accepted - t.accepted then 1 else 0) +
        (if 0 < latencyLimit < r.latency then 1 else 0)
  {
  }

  function Run(t: Track, reports: seq<Source>, latencyLimit: nat): Track
    decreases |reports|
  {
    if reports == [] then t else Run(Next(t, reports[0], latencyLimit), reports[1..], latencyLimit)
  }

  predicate HealthyRun(t: Track, reports: seq<Source>, latencyLimit: nat)
    decreases |reports|
  {
    reports == [] ||
    (Healthy(t, reports[0], latencyLimit) &&
     HealthyRun(Next(t, reports[0], latencyLimit), reports[1..], latencyLimit))
  }

  predicate UnhealthyRun(t: Track, reports: seq<Source>, latencyLimit: nat)
    decreases |reports|
  {
    reports == [] ||
    (!Healthy(t, reports[0], latencyLimit) &&
     UnhealthyRun(Next(t, reports[0], latencyLimit), reports[1..], latencyLimit))
  }

  lemma {:induction false} PenaltyBounded(t: Track, reports: seq<Source>, latencyLimit: nat)
    requires 0 <= t.penalty <= MAX_PENALTY
    ensures 0 <= Run(t, reports, latencyLimit).penalty <= MAX_PENALTY
    decreases |reports|
  {
    if reports != [] {
      PenaltyBounded(Next(t, reports[0], latencyLimit), reports[1..], latencyLimit);
    }
  }

  /** Every healthy round pays off one point of penalty. */
  lemma {:induction false} HealthyPaysOff(t: Track, reports: seq<Source>, latencyLimit: nat)
    requires t.penalty >= 0 && HealthyRun(t, reports, latencyLimit)
    ensures Run(t, reports, latencyLimit).penalty == Max(0, t.penalty - |reports|)
    decreases |reports|
  {
    if reports != [] {
      HealthyPaysOff(Next(t, reports[0], latencyLimit), reports[1..], latencyLimit);
    }
  }

  /** The pressure of all rounds of a run together. */
  function TotalPressure(t: Track, reports: seq<Source>, latencyLimit: nat): nat
    decreases |reports|
  {
    if reports == [] then 0
    else
      Pressure(t, reports[0], latencyLimit) +
      TotalPressure(Next(t, reports[0], latencyLimit), reports[1..], latencyLimit)
  }

  /** Unhealthy rounds raise the penalty by all their pressure, at least one each, until it stands at five. */
  lemma {:induction false} UnhealthyCosts(t: Track, reports: seq<Source>, latencyLimit: nat)
    requires 0 <= t.penalty <= MAX_PENALTY && UnhealthyRun(t, reports, latencyLimit)
    ensures Run(t, reports, latencyLimit).penalty == Min(5, t.penalty + TotalPressure(t, reports, latencyLimit))
    ensures TotalPressure(t, reports, latencyLimit) >= |reports|
    decreases |reports|
  {
    if reports != [] {
      PressureIs(t, reports[0], latencyLimit);
      UnhealthyCosts(Next(t, reports[0], latencyLimit), reports[1..], latencyLimit);
    }
  }

  /** What one round does to the penalty, and that the counts last seen are those reported. */
  lemma NextIs(t: Track, s: Source, latencyLimit: nat)
    requires 0 <= t.penalty <= MAX_PENALTY
    ensures
      var t' := Next(t, s, latencyLimit);
      && (Healthy(t, s, latencyLimit) ==> t'.penalty == Max(0, t.penalty - 1))
      && (!Healthy(t, s, latencyLimit) ==> t'.penalty == Min(5, t.penalty + Pressure(t, s, latencyLimit)) > 0)
      && (s.Stratum? ==> t'.accepted == s.report.accepted && t'.rejected == s.report.rejected)
      && (s.Other? ==> t'.accepted == t.accepted && t'.rejected == t.rejected)
  {
    PressureIs(t, s, latencyLimit);
    hide Pressure;
  }

  /**
   * After a healthy run a source has its full weight back exactly when the run was as long as the penalty before it,
   * or when the full weight is one and no penalty shows. Five rounds are always enough.
   */
  lemma WeightRestored(w: Weights, source: nat, t: Track, reports: seq<Source>, latencyLimit: nat)
    requires 0 <= t.penalty <= MAX_PENALTY && HealthyRun(t, reports, latencyLimit)
    requires Lookup(w.penalty, source, 0) == Run(t, reports, latencyLimit).penalty
    ensures
      var full := FullWeight(w.weight, w.cap, source);
      && (w.Of(source) == full <==> |reports| >= t.penalty || full == 1)
      && (|reports| >= 5 ==> w.Of(source) == full)
  {
    HealthyPaysOff(t, reports, latencyLimit);
  }
}
