/**
  The rotation decision of `__main__.py`: for one server, which snapshots are
  kept, under which period and position, and which are deleted.

  The decision is specified in layers. A schedule gives, for every period in
  enum order, the starts of its buckets; a bucket's pick is what `most_recent`
  returns for it; `RecordPicks` and `RecordPeriods` replay the writes into
  `to_rename` in loop order. `Rotate` is the loop itself, proved to produce
  that replay, and the lemmas below say what the replay means.
*/
module Rotation {
  import opened Wrappers
  import opened Periods
  import opened Snapshots
  import Config

  /** `(p, p_num)`: the period a kept snapshot now belongs to and its 1-based bucket number. */
  datatype Slot = Slot(period: Period, position: nat)

  /** `getattr(config, p.config_name, 0) or 0`: an absent (or `None`) count is 0. */
  function Count(counts: map<Period, int>, p: Period): int {
    if p in counts then counts[p] else 0
  }

  // ------------------------------------------------------------ the specification

  /** For every period in enum order, the starts of its buckets: `p.previous_periods(now, count(p))`. */
  function Schedule(counts: map<Period, int>, now: Instant): (sched: seq<seq<Instant>>)
    ensures |sched| == |AllPeriods|
  {
    seq(|AllPeriods|, q requires 0 <= q < |AllPeriods| => PreviousPeriods(AllPeriods[q], now, Count(counts, AllPeriods[q])))
  }

  /** Row `q` of the schedule holds the bucket starts of the `q`-th period. */
  lemma ScheduleEntry(counts: map<Period, int>, now: Instant, q: nat)
    requires q < |AllPeriods|
    ensures Schedule(counts, now)[q] == PreviousPeriods(AllPeriods[q], now, Count(counts, AllPeriods[q]))
  {
  }

  /** The upper end of bucket `i` (0-based): `now` for the first, the start of the one before it otherwise. */
  function BucketEnd(starts: seq<Instant>, now: Instant, i: nat): Instant
    requires i <= |starts|
  {
    if i == 0 then now else starts[i - 1]
  }

  /** What `most_recent` picks for bucket `i`. */
  function Pick(snapshots: seq<Snapshot>, starts: seq<Instant>, now: Instant, i: nat): Option<Snapshot>
    requires i < |starts|
  {
    MostRecent(starts[i], BucketEnd(starts, now, i), snapshots)
  }

  /** The picks of all buckets, in bucket order. */
  function BucketPicks(snapshots: seq<Snapshot>, starts: seq<Instant>, now: Instant): (picks: seq<Option<Snapshot>>)
    ensures |picks| == |starts|
    ensures forall i {:trigger Pick(snapshots, starts, now, i)} :: 0 <= i < |starts| ==> picks[i] == Pick(snapshots, starts, now, i)
  {
    PicksUpTo(snapshots, starts, now, |starts|)
  }

  /** The picks of the first `n` buckets. */
  function PicksUpTo(snapshots: seq<Snapshot>, starts: seq<Instant>, now: Instant, n: nat): (picks: seq<Option<Snapshot>>)
    requires n <= |starts|
    ensures |picks| == n
    ensures forall i {:trigger Pick(snapshots, starts, now, i)} :: 0 <= i < n ==> picks[i] == Pick(snapshots, starts, now, i)
  {
    if n == 0 then [] else PicksUpTo(snapshots, starts, now, n - 1) + [Pick(snapshots, starts, now, n - 1)]
  }

  /** The picks of every row of a schedule. */
  function PickTable(snapshots: seq<Snapshot>, sched: seq<seq<Instant>>, now: Instant): (table: seq<seq<Option<Snapshot>>>)
    ensures |table| == |sched|
    ensures forall q :: 0 <= q < |sched| ==> table[q] == BucketPicks(snapshots, sched[q], now)
  {
    seq(|sched|, q requires 0 <= q < |sched| => BucketPicks(snapshots, sched[q], now))
  }

  /** `to_rename` after the first `n` buckets of period `p`, starting from `m`. */
  function RecordPicks(m: map<SnapshotId, Slot>, p: Period, picks: seq<Option<Snapshot>>, n: nat): map<SnapshotId, Slot>
    requires n <= |picks|
  {
    if n == 0 then m
    else
      var m' := RecordPicks(m, p, picks, n - 1);
      match picks[n - 1]
      case None => m'
      case Some(s) => m'[s.id := Slot(p, n)]
  }

  /** `to_rename` after the first `k` periods in enum order, each recording its row of `table`. */
  function RecordPeriods(table: seq<seq<Option<Snapshot>>>, k: nat): map<SnapshotId, Slot>
    requires k <= |table| <= |AllPeriods|
  {
    if k == 0 then map[]
    else RecordPicks(RecordPeriods(table, k - 1), AllPeriods[k - 1], table[k - 1], |table[k - 1]|)
  }

  /** The final `to_rename` for a schedule. */
  function Decide(snapshots: seq<Snapshot>, sched: seq<seq<Instant>>, now: Instant): map<SnapshotId, Slot>
    requires |sched| <= |AllPeriods|
  {
    RecordPeriods(PickTable(snapshots, sched, now), |sched|)
  }

  /** The final `to_rename` for the configured counts. */
  function Decisions(snapshots: seq<Snapshot>, counts: map<Period, int>, now: Instant): map<SnapshotId, Slot> {
    Decide(snapshots, Schedule(counts, now), now)
  }

  // ------------------------------------------------------------ the loops

  /**
    Lines 43-58 of `__main__.py`: every period in enum order walks its buckets
    (s1, now], (s2, s1], ... over the whole snapshot list, and the newest
    snapshot of each bucket is recorded with the period and the bucket number;
    whatever no bucket picks is deleted.
  */
  method Rotate(snapshots: seq<Snapshot>, counts: map<Period, int>, now: Instant)
    returns (toDelete: set<SnapshotId>, toRename: map<SnapshotId, Slot>)
    ensures toRename == Decisions(snapshots, counts, now)
    ensures toDelete == Ids(snapshots) - toRename.Keys
    ensures toDelete !! toRename.Keys && toDelete + toRename.Keys == Ids(snapshots)
  {
    ghost var sched := Schedule(counts, now);
    ghost var table := PickTable(snapshots, sched, now);
    toDelete := Ids(snapshots);
    toRename := map[];
    for k := 0 to |AllPeriods|
      invariant toRename == RecordPeriods(table, k)
      invariant toDelete == Ids(snapshots) - toRename.Keys
    {
      var p := AllPeriods[k];
      var pCount := Count(counts, p);
      var starts := PreviousPeriods(p, now, pCount);
      ScheduleEntry(counts, now, k);
      toDelete, toRename := RotatePeriod(snapshots, p, starts, now, Ids(snapshots), toDelete, toRename);
    }
    DecideWithinIds(snapshots, sched, now);
  }

  /**
    The inner loop, lines 49-58: bucket by bucket, `p_end` following the
    starts, the pick of each bucket is recorded and spared from deletion.
    `all` stands for the ids of the server's snapshots.
  */
  method RotatePeriod(snapshots: seq<Snapshot>, p: Period, starts: seq<Instant>, now: Instant,
                      ghost all: set<SnapshotId>, toDelete0: set<SnapshotId>, toRename0: map<SnapshotId, Slot>)
    returns (toDelete: set<SnapshotId>, toRename: map<SnapshotId, Slot>)
    requires toDelete0 == all - toRename0.Keys
    ensures toRename == RecordPicks(toRename0, p, BucketPicks(snapshots, starts, now), |starts|)
    ensures toDelete == all - toRename.Keys
  {
    ghost var row := BucketPicks(snapshots, starts, now);
    toDelete, toRename := toDelete0, toRename0;
    var pEnd := now;
    for i := 0 to |starts|
      invariant pEnd == BucketEnd(starts, now, i)
      invariant toRename == RecordPicks(toRename0, p, row, i)
      invariant toDelete == all - toRename.Keys
    {
      var pStart := starts[i];
      var pSn := MostRecent(pStart, pEnd, snapshots);
      assert pSn == row[i] by {
        PickStep(snapshots, starts, now, i, pEnd);
      }
      assert RecordPicks(toRename0, p, row, i + 1) ==
        if pSn.Some? then toRename[pSn.value.id := Slot(p, i + 1)] else toRename
      by {
        RecordPicksStep(toRename0, p, row, i);
      }
      if pSn.Some? {
        SpareStep(all, toDelete, toRename, pSn.value.id, Slot(p, i + 1));
        toDelete := toDelete - {pSn.value.id};
        toRename := toRename[pSn.value.id := Slot(p, i + 1)];
      }
      pEnd := pStart;
    }
  }

  /** The call to `most_recent` in the loop computes the pick of bucket `i`. */
  lemma PickStep(snapshots: seq<Snapshot>, starts: seq<Instant>, now: Instant, i: nat, pEnd: Instant)
    requires i < |starts| && pEnd == BucketEnd(starts, now, i)
    ensures MostRecent(starts[i], pEnd, snapshots) == BucketPicks(snapshots, starts, now)[i]
  {
    assert MostRecent(starts[i], pEnd, snapshots) == Pick(snapshots, starts, now, i);
  }

  /** Sparing a recorded snapshot keeps `to_delete` the complement of the keys of `to_rename`. */
  lemma SpareStep(all: set<SnapshotId>, toDelete: set<SnapshotId>, toRename: map<SnapshotId, Slot>, id: SnapshotId, slot: Slot)
    requires toDelete == all - toRename.Keys
    ensures toDelete - {id} == all - toRename[id := slot].Keys
  {
  }

  lemma RecordPicksStep(m: map<SnapshotId, Slot>, p: Period, picks: seq<Option<Snapshot>>, i: nat)
    requires i < |picks|
    ensures RecordPicks(m, p, picks, i + 1) ==
      if picks[i].Some? then RecordPicks(m, p, picks, i)[picks[i].value.id := Slot(p, i + 1)]
      else RecordPicks(m, p, picks, i)
  {
  }

  // ------------------------------------------------------------ the last pick wins

  /** Bucket `i` picks a snapshot whose id is `id`. */
  predicate Picks(picks: seq<Option<Snapshot>>, i: int, id: SnapshotId) {
    0 <= i < |picks| && picks[i].Some? && picks[i].value.id == id
  }

  /** Bucket `i` of period `p` in the schedule picks a snapshot whose id is `id`. */
  predicate PicksAt(snapshots: seq<Snapshot>, sched: seq<seq<Instant>>, now: Instant, p: Period, i: int, id: SnapshotId)
    requires |sched| == |AllPeriods|
  {
    Picks(BucketPicks(snapshots, sched[Index(p)], now), i, id)
  }

  /** The last of the first `n` buckets that picks `id`. */
  function LastBucket(picks: seq<Option<Snapshot>>, id: SnapshotId, n: nat): (r: Option<nat>)
    requires n <= |picks|
    ensures r.Some? ==> r.value < n && Picks(picks, r.value, id)
    ensures r.Some? ==> forall j :: r.value < j < n ==> !Picks(picks, j, id)
    ensures r.None? ==> forall j :: 0 <= j < n ==> !Picks(picks, j, id)
  {
    if n == 0 then None
    else if Picks(picks, n - 1, id) then Some(n - 1)
    else LastBucket(picks, id, n - 1)
  }

  /** The last bucket of row `q` that picks `id`. */
  function RowLast(table: seq<seq<Option<Snapshot>>>, id: SnapshotId, q: nat): Option<nat>
    requires q < |table|
  {
    LastBucket(table[q], id, |table[q]|)
  }

  /** The last of the first `k` rows in which some bucket picks `id`. */
  function LastRow(table: seq<seq<Option<Snapshot>>>, id: SnapshotId, k: nat): (r: Option<nat>)
    requires k <= |table|
    ensures r.Some? ==> r.value < k && RowLast(table, id, r.value).Some?
    ensures r.Some? ==> forall q :: r.value < q < k ==> RowLast(table, id, q).None?
    ensures r.None? ==> forall q :: 0 <= q < k ==> RowLast(table, id, q).None?
  {
    if k == 0 then None
    else if RowLast(table, id, k - 1).Some? then Some(k - 1)
    else LastRow(table, id, k - 1)
  }

  /** Within one period, a later pick of the same id overwrites an earlier entry. */
  lemma {:induction false} RecordPicksLast(m: map<SnapshotId, Slot>, p: Period, picks: seq<Option<Snapshot>>, n: nat, id: SnapshotId)
    requires n <= |picks|
    ensures var r := RecordPicks(m, p, picks, n);
      var last := LastBucket(picks, id, n);
      && (id in r <==> id in m || last.Some?)
      && (last.Some? ==> r[id] == Slot(p, last.value + 1))
      && (last.None? && id in m ==> r[id] == m[id])
  {
    if n > 0 {
      RecordPicksLast(m, p, picks, n - 1, id);
    }
  }

  /** Over the periods, the entry of `id` comes from the last period that picks it. */
  lemma {:induction false} RecordPeriodsLast(table: seq<seq<Option<Snapshot>>>, k: nat, id: SnapshotId)
    requires k <= |table| <= |AllPeriods|
    ensures var d := RecordPeriods(table, k);
      var last := LastRow(table, id, k);
      && (id in d <==> last.Some?)
      && (last.Some? ==> d[id] == Slot(AllPeriods[last.value], RowLast(table, id, last.value).value + 1))
  {
    if k > 0 {
      RecordPeriodsLast(table, k - 1, id);
      RecordPicksLast(RecordPeriods(table, k - 1), AllPeriods[k - 1], table[k - 1], |table[k - 1]|, id);
    }
  }

  /** A row in which bucket `i` picks `id` has a last such bucket, and it is not before `i`. */
  lemma PickedRowHasLast(table: seq<seq<Option<Snapshot>>>, id: SnapshotId, q: nat, i: int)
    requires q < |table| && Picks(table[q], i, id)
    ensures RowLast(table, id, q).Some? && i <= RowLast(table, id, q).value
  {
  }

  lemma IndexOfNth(q: nat)
    requires q < |AllPeriods|
    ensures Index(AllPeriods[q]) == q
  {
  }

  /**
    The final `to_rename` in declarative terms: a snapshot id is kept exactly
    when some bucket of some period picks it, and its entry names the last
    period in enum order that picks it and, within that period, the last such
    bucket.
  */
  lemma RenameIsLastPick(snapshots: seq<Snapshot>, sched: seq<seq<Instant>>, now: Instant, id: SnapshotId)
    requires |sched| == |AllPeriods|
    ensures id in Decide(snapshots, sched, now) <==> exists p, i :: PicksAt(snapshots, sched, now, p, i, id)
    ensures id in Decide(snapshots, sched, now) ==>
      PicksAt(snapshots, sched, now, Decide(snapshots, sched, now)[id].period, Decide(snapshots, sched, now)[id].position - 1, id)
    ensures id in Decide(snapshots, sched, now) ==> forall p, i :: PicksAt(snapshots, sched, now, p, i, id) ==>
      || Index(p) < Index(Decide(snapshots, sched, now)[id].period)
      || (p == Decide(snapshots, sched, now)[id].period && i < Decide(snapshots, sched, now)[id].position)
  {
    var table := PickTable(snapshots, sched, now);
    var d := Decide(snapshots, sched, now);
    var last := LastRow(table, id, |table|);
    RecordPeriodsLast(table, |table|, id);
    if last.Some? {
      var q := last.value;
      IndexOfNth(q);
      var b := RowLast(table, id, q).value;
      assert Picks(table[q], b, id);
      assert PicksAt(snapshots, sched, now, AllPeriods[q], b, id);
      forall p, i | PicksAt(snapshots, sched, now, p, i, id)
        ensures Index(p) < Index(d[id].period) || (p == d[id].period && i < d[id].position)
      {
        PickedRowHasLast(table, id, Index(p), i);
      }
    } else {
      forall p, i | PicksAt(snapshots, sched, now, p, i, id) ensures false {
        PickedRowHasLast(table, id, Index(p), i);
      }
    }
  }

  // ------------------------------------------------------------ consequences

  lemma {:induction false} RecordPicksWithinIds(m: map<SnapshotId, Slot>, p: Period, picks: seq<Option<Snapshot>>,
                                                n: nat, ids: set<SnapshotId>)
    requires n <= |picks| && m.Keys <= ids
    requires forall i :: 0 <= i < |picks| && picks[i].Some? ==> picks[i].value.id in ids
    ensures RecordPicks(m, p, picks, n).Keys <= ids
  {
    if n > 0 {
      RecordPicksWithinIds(m, p, picks, n - 1, ids);
    }
  }

  lemma {:induction false} RecordPeriodsWithinIds(table: seq<seq<Option<Snapshot>>>, k: nat, ids: set<SnapshotId>)
    requires k <= |table| <= |AllPeriods|
    requires forall q, i :: 0 <= q < |table| && 0 <= i < |table[q]| && table[q][i].Some? ==> table[q][i].value.id in ids
    ensures RecordPeriods(table, k).Keys <= ids
  {
    if k > 0 {
      RecordPeriodsWithinIds(table, k - 1, ids);
      RecordPicksWithinIds(RecordPeriods(table, k - 1), AllPeriods[k - 1], table[k - 1], |table[k - 1]|, ids);
    }
  }

  /** Only snapshots of the server are ever recorded. */
  lemma DecideWithinIds(snapshots: seq<Snapshot>, sched: seq<seq<Instant>>, now: Instant)
    requires |sched| <= |AllPeriods|
    ensures Decide(snapshots, sched, now).Keys <= Ids(snapshots)
  {
    var table: seq<seq<Option<Snapshot>>> := PickTable(snapshots, sched, now);
    forall q: int, i: int | 0 <= q < |table| && 0 <= i < |table[q]| && table[q][i].Some?
      ensures table[q][i].value.id in Ids(snapshots)
    {
      assert table[q][i] == Pick(snapshots, sched[q], now, i);
      MostRecentSpec(sched[q][i], BucketEnd(sched[q], now, i), snapshots);
    }
    RecordPeriodsWithinIds(table, |table|, Ids(snapshots));
  }

  /** Every recorded position is a bucket number of its period: 1 <= p_num <= count(p). */
  lemma PositionsInRange(snapshots: seq<Snapshot>, counts: map<Period, int>, now: Instant, id: SnapshotId)
    requires id in Decisions(snapshots, counts, now)
    ensures 1 <= Decisions(snapshots, counts, now)[id].position <= Count(counts, Decisions(snapshots, counts, now)[id].period)
  {
    var slot := Decisions(snapshots, counts, now)[id];
    RenameIsLastPick(snapshots, Schedule(counts, now), now, id);
    ScheduleEntry(counts, now, Index(slot.period));
  }

  /** Bucket `i` is (starts[i], end] with its endpoints already in ascending order, and ends no later than `now`. */
  lemma BucketBounds(p: Period, now: Instant, count: int, i: nat)
    requires i < |PreviousPeriods(p, now, count)|
    ensures Earlier(PreviousPeriods(p, now, count)[i], BucketEnd(PreviousPeriods(p, now, count), now, i))
    ensures !Earlier(now, BucketEnd(PreviousPeriods(p, now, count), now, i))
  {
    var starts := PreviousPeriods(p, now, count);
    PreviousPeriodsDecrease(p, now, count);
    EarlierIffMicrosLess(starts[i], BucketEnd(starts, now, i));
    EarlierIffMicrosLess(now, BucketEnd(starts, now, i));
  }

  /** The buckets of one period are disjoint. */
  lemma BucketsDisjoint(p: Period, now: Instant, count: int, i: nat, j: nat, s: Snapshot)
    requires i < j < |PreviousPeriods(p, now, count)|
    ensures !(InInterval(PreviousPeriods(p, now, count)[i], BucketEnd(PreviousPeriods(p, now, count), now, i), s) &&
              InInterval(PreviousPeriods(p, now, count)[j], BucketEnd(PreviousPeriods(p, now, count), now, j), s))
  {
    var starts := PreviousPeriods(p, now, count);
    PreviousPeriodsDecrease(p, now, count);
    EarlierIffMicrosLess(starts[i], s.created);
    EarlierIffMicrosLess(BucketEnd(starts, now, j), s.created);
    assert BucketEnd(starts, now, j) == starts[j - 1];
    if j - 1 > i {
      assert Micros(starts[j - 1]) < Micros(starts[i]);
    }
  }

  /**
    Each kept snapshot is the newest of its bucket: the bucket of its recorded
    position, (s_k, s_{k-1}] with s_0 = now, holds it, and holds nothing newer.
  */
  lemma KeptIsNewestOfBucket(snapshots: seq<Snapshot>, counts: map<Period, int>, now: Instant, id: SnapshotId)
    requires id in Decisions(snapshots, counts, now)
    ensures var slot := Decisions(snapshots, counts, now)[id];
      var starts := PreviousPeriods(slot.period, now, Count(counts, slot.period));
      var k := slot.position - 1;
      && 0 <= k < |starts|
      && Pick(snapshots, starts, now, k).Some?
      && var kept := Pick(snapshots, starts, now, k).value;
      && kept.id == id && kept in snapshots
      && InInterval(starts[k], BucketEnd(starts, now, k), kept)
      && forall s :: s in snapshots && InInterval(starts[k], BucketEnd(starts, now, k), s) ==> !Earlier(kept.created, s.created)
  {
    var sched := Schedule(counts, now);
    var slot := Decide(snapshots, sched, now)[id];
    DecidedIsPick(snapshots, sched, now, id);
    var count := Count(counts, slot.period);
    ScheduleEntry(counts, now, Index(slot.period));
    assert sched[Index(slot.period)] == PreviousPeriods(slot.period, now, count);
    BucketBounds(slot.period, now, count, slot.position - 1);
    PickInBucket(snapshots, PreviousPeriods(slot.period, now, count), now, slot.position - 1);
  }

  /** The entry of a kept id names a bucket of the schedule whose pick has that id. */
  lemma DecidedIsPick(snapshots: seq<Snapshot>, sched: seq<seq<Instant>>, now: Instant, id: SnapshotId)
    requires |sched| == |AllPeriods| && id in Decide(snapshots, sched, now)
    ensures 0 <= Decide(snapshots, sched, now)[id].position - 1 < |sched[Index(Decide(snapshots, sched, now)[id].period)]|
    ensures Pick(snapshots, sched[Index(Decide(snapshots, sched, now)[id].period)], now, Decide(snapshots, sched, now)[id].position - 1).Some?
    ensures Pick(snapshots, sched[Index(Decide(snapshots, sched, now)[id].period)], now, Decide(snapshots, sched, now)[id].position - 1).value.id == id
  {
    var slot := Decide(snapshots, sched, now)[id];
    RenameIsLastPick(snapshots, sched, now, id);
    var starts := sched[Index(slot.period)];
    assert BucketPicks(snapshots, starts, now)[slot.position - 1] == Pick(snapshots, starts, now, slot.position - 1);
  }

  /**
    With its endpoints in ascending order, bucket `k` picks a snapshot that lies
    in it and is the newest there, and picks nothing when it holds no snapshot.
  */
  lemma PickInBucket(snapshots: seq<Snapshot>, starts: seq<Instant>, now: Instant, k: nat)
    requires k < |starts| && Earlier(starts[k], BucketEnd(starts, now, k))
    ensures Pick(snapshots, starts, now, k).None? <==>
      forall s :: s in snapshots ==> !InInterval(starts[k], BucketEnd(starts, now, k), s)
    ensures Pick(snapshots, starts, now, k).Some? ==>
      && Pick(snapshots, starts, now, k).value in snapshots
      && InInterval(starts[k], BucketEnd(starts, now, k), Pick(snapshots, starts, now, k).value)
      && forall s :: s in snapshots && InInterval(starts[k], BucketEnd(starts, now, k), s) ==>
           !Earlier(Pick(snapshots, starts, now, k).value.created, s.created)
  {
    MostRecentSpec(starts[k], BucketEnd(starts, now, k), snapshots);
  }

  /** Different buckets of one period pick different snapshots, and so, with unique ids, different ids. */
  lemma PicksAreDistinct(snapshots: seq<Snapshot>, p: Period, now: Instant, count: int, i: nat, j: nat)
    requires i < j < |PreviousPeriods(p, now, count)|
    ensures var starts := PreviousPeriods(p, now, count);
      Pick(snapshots, starts, now, i).Some? && Pick(snapshots, starts, now, j).Some? ==>
        Pick(snapshots, starts, now, i) != Pick(snapshots, starts, now, j)
        && (UniqueIds(snapshots) ==> Pick(snapshots, starts, now, i).value.id != Pick(snapshots, starts, now, j).value.id)
  {
    var starts := PreviousPeriods(p, now, count);
    BucketBounds(p, now, count, i);
    BucketBounds(p, now, count, j);
    var a, b := Pick(snapshots, starts, now, i), Pick(snapshots, starts, now, j);
    if a.Some? && b.Some? {
      PickInBucket(snapshots, starts, now, i);
      PickInBucket(snapshots, starts, now, j);
      BucketsDisjoint(p, now, count, i, j, a.value);
      BucketsDisjoint(p, now, count, i, j, b.value);
    }
  }

  /** With every count zero or absent nothing is kept, so every snapshot is deleted. */
  lemma NothingKeptWithoutCounts(snapshots: seq<Snapshot>, counts: map<Period, int>, now: Instant)
    requires forall p :: Count(counts, p) <= 0
    ensures Decisions(snapshots, counts, now) == map[]
  {
    var d := Decisions(snapshots, counts, now);
    forall id | id in d ensures false {
      PositionsInRange(snapshots, counts, now, id);
    }
  }

  /** A snapshot created after `now` lies in no bucket, so it is deleted. */
  lemma FutureSnapshotDeleted(snapshots: seq<Snapshot>, counts: map<Period, int>, now: Instant, s: Snapshot)
    requires UniqueIds(snapshots) && s in snapshots && Earlier(now, s.created)
    ensures s.id !in Decisions(snapshots, counts, now)
  {
    var sched := Schedule(counts, now);
    var d := Decide(snapshots, sched, now);
    if s.id in d {
      var slot := d[s.id];
      DecidedIsPick(snapshots, sched, now, s.id);
      var count := Count(counts, slot.period);
      ScheduleEntry(counts, now, Index(slot.period));
      var starts := PreviousPeriods(slot.period, now, count);
      assert sched[Index(slot.period)] == starts;
      var k := slot.position - 1;
      BucketBounds(slot.period, now, count, k);
      PickInBucket(snapshots, starts, now, k);
      var kept := Pick(snapshots, starts, now, k).value;
      assert kept == s;
      var end := BucketEnd(starts, now, k);
      NotEarlierTransitive(now, end, s.created);
    }
  }

  /**
    With the counts read from a server's configuration, no snapshot is kept as
    quarter-yearly: `Config.Defaults` has no `quarter_yearly` attribute, so its
    count is 0.
  */
  lemma NoQuarterYearlySlots(snapshots: seq<Snapshot>, settings: Config.Settings, now: Instant, id: SnapshotId)
    requires id in Decisions(snapshots, Config.PeriodCounts(settings), now)
    ensures Decisions(snapshots, Config.PeriodCounts(settings), now)[id].period != QuarterYearly
  {
    PositionsInRange(snapshots, Config.PeriodCounts(settings), now, id);
    Config.NoQuarterYearlyCount(settings);
  }
}
