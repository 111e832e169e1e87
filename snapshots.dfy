/**
  Snapshots as `snapshots.py` sees them, and `Snapshots.most_recent`, which picks
  the snapshot that represents a bucket of time.
*/
module Snapshots {
  import opened Wrappers
  import opened Periods

  type SnapshotId = int

  /**
    An image of type snapshot. `created_from` is the id of the server it was
    taken of. The source compares and hashes snapshots by `id` alone, so every
    set or dictionary of snapshots in this model is keyed by `id`.
  */
  datatype Snapshot = Snapshot(id: SnapshotId, description: string, created: Instant, createdFrom: int)

  function Ids(snapshots: seq<Snapshot>): set<SnapshotId> {
    set s | s in snapshots :: s.id
  }

  /** No two distinct snapshots share an id, as for the images of one account. */
  predicate UniqueIds(snapshots: seq<Snapshot>) {
    forall a, b :: a in snapshots && b in snapshots && a.id == b.id ==> a == b
  }

  /**
    The half-open interval (lo, hi]: exclusive below, inclusive above. Instants
    are compared field by field, as datetime comparison does.
  */
  predicate InInterval(lo: Instant, hi: Instant, s: Snapshot) {
    Earlier(lo, s.created) && !Earlier(hi, s.created)
  }

  /** `filter(lambda s: lo < s.created <= hi, snapshots)`, in list order. */
  function Matching(lo: Instant, hi: Instant, snapshots: seq<Snapshot>): seq<Snapshot>
    decreases |snapshots|
  {
    if snapshots == [] then []
    else
      var last := snapshots[|snapshots| - 1];
      Matching(lo, hi, snapshots[..|snapshots| - 1]) + (if InInterval(lo, hi, last) then [last] else [])
  }

  /** The filter keeps exactly the snapshots in the interval. */
  lemma {:induction false} MatchingMembers(lo: Instant, hi: Instant, snapshots: seq<Snapshot>)
    ensures forall s :: s in Matching(lo, hi, snapshots) <==> s in snapshots && InInterval(lo, hi, s)
    decreases |snapshots|
  {
    if snapshots != [] {
      MatchingMembers(lo, hi, snapshots[..|snapshots| - 1]);
      assert snapshots == snapshots[..|snapshots| - 1] + [snapshots[|snapshots| - 1]];
    }
  }

  lemma {:induction false} MatchingAppend(lo: Instant, hi: Instant, a: seq<Snapshot>, b: seq<Snapshot>)
    ensures Matching(lo, hi, a + b) == Matching(lo, hi, a) + Matching(lo, hi, b)
    decreases |b|
  {
    if b == [] {
      assert a + b == a;
    } else {
      var b' := b[..|b| - 1];
      assert (a + b)[..|a + b| - 1] == a + b';
      assert (a + b)[|a + b| - 1] == b[|b| - 1];
      MatchingAppend(lo, hi, a, b');
    }
  }

  /**
    The head of `sorted(ms, key=created, reverse=True)`. Python's sort is stable,
    also in reverse, so it is the first of the newest elements in list order.
  */
  function FirstNewest(ms: seq<Snapshot>): Snapshot
    requires ms != []
    decreases |ms|
  {
    if |ms| == 1 then ms[0]
    else
      var rest := FirstNewest(ms[1..]);
      if !Earlier(ms[0].created, rest.created) then ms[0] else rest
  }

  /** The head of the sort is in the list, no element is newer, and no equally new element comes before it. */
  lemma {:induction false} FirstNewestIsFirstMaximum(ms: seq<Snapshot>)
    requires ms != []
    ensures FirstNewest(ms) in ms
    ensures forall s :: s in ms ==> !Earlier(FirstNewest(ms).created, s.created)
    ensures forall j :: 0 <= j < |ms| && ms[j].created == FirstNewest(ms).created ==> FirstNewest(ms) in ms[..j + 1]
    decreases |ms|
  {
    if |ms| > 1 {
      FirstNewestIsFirstMaximum(ms[1..]);
      FirstNewestStep(ms, FirstNewest(ms[1..]), FirstNewest(ms));
    }
  }

  lemma FirstNewestStep(ms: seq<Snapshot>, rest: Snapshot, r: Snapshot)
    requires |ms| > 1 && rest in ms[1..]
    requires forall s :: s in ms[1..] ==> !Earlier(rest.created, s.created)
    requires forall j :: 0 <= j < |ms| - 1 && ms[1..][j].created == rest.created ==> rest in ms[1..][..j + 1]
    requires r == if !Earlier(ms[0].created, rest.created) then ms[0] else rest
    ensures r in ms
    ensures forall s :: s in ms ==> !Earlier(r.created, s.created)
    ensures forall j :: 0 <= j < |ms| && ms[j].created == r.created ==> r in ms[..j + 1]
  {
    forall s | s in ms ensures !Earlier(r.created, s.created) {
      if s != ms[0] {
        assert s in ms[1..];
      }
    }
    forall j | 0 <= j < |ms| && ms[j].created == r.created
      ensures r in ms[..j + 1]
    {
      if j > 0 {
        assert ms[1..][j - 1] == ms[j];
      }
      FirstNewestTie(ms, rest, r, j);
    }
  }

  lemma FirstNewestTie(ms: seq<Snapshot>, rest: Snapshot, r: Snapshot, j: nat)
    requires |ms| > 1 && j < |ms|
    requires j > 0 && ms[j].created == rest.created ==> rest in ms[1..][..j]
    requires r == if !Earlier(ms[0].created, rest.created) then ms[0] else rest
    requires ms[j].created == r.created
    ensures r in ms[..j + 1]
  {
    if r == ms[0] {
      assert ms[..j + 1][0] == ms[0];
    } else {
      assert ms[1..][..j] == ms[1..j + 1];
    }
  }

  /** `lo < s.created <= hi` for the two endpoints in ascending order, whichever order they come in. */
  predicate Between(start: Instant, end: Instant, s: Snapshot) {
    if Earlier(end, start) then InInterval(end, start, s) else InInterval(start, end, s)
  }

  /** The newest snapshot created in (lo, hi], the first of them in list order; `None` when there is none. */
  function Newest(lo: Instant, hi: Instant, snapshots: seq<Snapshot>): Option<Snapshot> {
    var matching := Matching(lo, hi, snapshots);
    if |matching| > 0 then Some(FirstNewest(matching)) else None
  }

  /** `Newest` finds nothing exactly when the interval is empty, and otherwise a snapshot in it that nothing in it is newer than. */
  lemma NewestSpec(lo: Instant, hi: Instant, snapshots: seq<Snapshot>)
    ensures Newest(lo, hi, snapshots).None? <==> forall s :: s in snapshots ==> !InInterval(lo, hi, s)
    ensures Newest(lo, hi, snapshots).Some? ==>
      Newest(lo, hi, snapshots).value in snapshots && InInterval(lo, hi, Newest(lo, hi, snapshots).value)
    ensures Newest(lo, hi, snapshots).Some? ==> forall s :: s in snapshots && InInterval(lo, hi, s) ==>
      !Earlier(Newest(lo, hi, snapshots).value.created, s.created)
  {
    var matching := Matching(lo, hi, snapshots);
    MatchingMembers(lo, hi, snapshots);
    if |matching| > 0 {
      FirstNewestIsFirstMaximum(matching);
    }
  }

  /**
    `most_recent(start, end, snapshots)`: the endpoints are swapped when they
    come in descending order, then the newest snapshot created in (lo, hi] is
    returned, or `None` when there is none.
  */
  function MostRecent(start: Instant, end: Instant, snapshots: seq<Snapshot>): Option<Snapshot> {
    if Earlier(end, start) then Newest(end, start, snapshots) else Newest(start, end, snapshots)
  }

  /**
    `most_recent` returns `None` exactly when no snapshot lies between the two
    endpoints, and otherwise one that lies between them and that no snapshot
    between them is newer than.
  */
  lemma MostRecentSpec(start: Instant, end: Instant, snapshots: seq<Snapshot>)
    ensures MostRecent(start, end, snapshots).None? <==> forall s :: s in snapshots ==> !Between(start, end, s)
    ensures MostRecent(start, end, snapshots).Some? ==>
      MostRecent(start, end, snapshots).value in snapshots && Between(start, end, MostRecent(start, end, snapshots).value)
    ensures MostRecent(start, end, snapshots).Some? ==> forall s :: s in snapshots && Between(start, end, s) ==>
      !Earlier(MostRecent(start, end, snapshots).value.created, s.created)
  {
    if Earlier(end, start) {
      NewestSpec(end, start, snapshots);
    } else {
      NewestSpec(start, end, snapshots);
    }
  }

  /** Of several newest snapshots in the interval, the one earliest in the list is returned. */
  lemma NewestPrefersEarliest(lo: Instant, hi: Instant, snapshots: seq<Snapshot>, j: nat)
    requires j < |snapshots| && InInterval(lo, hi, snapshots[j])
    ensures Newest(lo, hi, snapshots).Some?
    ensures snapshots[j].created == Newest(lo, hi, snapshots).value.created
      ==> Newest(lo, hi, snapshots).value in snapshots[..j + 1]
  {
    MatchingPosition(lo, hi, snapshots, j);
    var ms := Matching(lo, hi, snapshots);
    MatchingMembers(lo, hi, snapshots[..j + 1]);
    FirstNewestIsFirstMaximum(ms);
    var r := FirstNewest(ms);
    if snapshots[j].created == r.created {
      assert r in Matching(lo, hi, snapshots[..j + 1]);
    }
  }

  /** The same for `most_recent`, whichever order the endpoints come in. */
  lemma MostRecentPrefersEarliest(start: Instant, end: Instant, snapshots: seq<Snapshot>, j: nat)
    requires j < |snapshots| && Between(start, end, snapshots[j])
    ensures MostRecent(start, end, snapshots).Some?
    ensures snapshots[j].created == MostRecent(start, end, snapshots).value.created
      ==> MostRecent(start, end, snapshots).value in snapshots[..j + 1]
  {
    if Earlier(end, start) {
      NewestPrefersEarliest(end, start, snapshots, j);
    } else {
      NewestPrefersEarliest(start, end, snapshots, j);
    }
  }

  /** Where the `j`-th snapshot lands in the filtered list, when it passes the filter. */
  lemma MatchingPosition(lo: Instant, hi: Instant, snapshots: seq<Snapshot>, j: nat)
    requires j < |snapshots| && InInterval(lo, hi, snapshots[j])
    ensures var k := |Matching(lo, hi, snapshots[..j])|;
      && k < |Matching(lo, hi, snapshots)|
      && Matching(lo, hi, snapshots)[k] == snapshots[j]
      && Matching(lo, hi, snapshots)[..k + 1] == Matching(lo, hi, snapshots[..j + 1])
  {
    var a, b := snapshots[..j + 1], snapshots[j + 1..];
    assert snapshots == a + b;
    MatchingAppend(lo, hi, a, b);
    assert a[..|a| - 1] == snapshots[..j];
  }

  /** The order in which the caller passes the two endpoints does not matter. */
  lemma MostRecentSymmetric(start: Instant, end: Instant, snapshots: seq<Snapshot>)
    ensures MostRecent(start, end, snapshots) == MostRecent(end, start, snapshots)
  {
    if !Earlier(start, end) && !Earlier(end, start) {
      assert start == end;
    }
  }
}
