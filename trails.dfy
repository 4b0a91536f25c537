/** The per-particle motion trail: a fixed ring of MAX_TRAIL slots written at
    `count % MAX_TRAIL`, where `count` is the number of writes since the particle
    was added and is never reduced. Generic in the vector type `V`, so one model
    serves the 2D program (Vector2) and the 3D program (Vector3). */
module Trails {

  const MAX_TRAIL: nat := 100

  function Min(a: int, b: int): int {
    if a < b then a else b
  }

  /** `slots` is the C array `trail[MAX_TRAIL]`, `count` is `trailCount`. */
  datatype Trail<V> = Trail(slots: seq<V>, count: nat)

  predicate WellFormed<V>(t: Trail<V>) {
    |t.slots| == MAX_TRAIL
  }

  /** Number of slots the read-back visits: `min(trailCount, MAX_TRAIL)`. */
  function Occupancy<V>(t: Trail<V>): (n: nat)
    ensures n == Min(t.count, MAX_TRAIL)
  {
    if t.count < MAX_TRAIL then t.count else MAX_TRAIL
  }

  /** Slot of the oldest entry: `trailCount % MAX_TRAIL` once the ring has
      wrapped, 0 before. Either way it is the slot of the oldest write the
      read-back shows. */
  function StartIndex<V>(t: Trail<V>): (s: nat)
    ensures s < MAX_TRAIL
    ensures s == (t.count - Occupancy(t)) % MAX_TRAIL
  {
    if t.count >= MAX_TRAIL then
      WrappedOffset(t.count, 0);
      t.count % MAX_TRAIL
    else 0
  }

  /** One tick's trail write: the new position goes to slot
      `count % MAX_TRAIL`, then the counter grows by one. */
  function Record<V>(t: Trail<V>, p: V): (r: Trail<V>)
    requires WellFormed(t)
    ensures WellFormed(r) && r.count == t.count + 1
    ensures r.slots[t.count % MAX_TRAIL] == p
    ensures forall k :: 0 <= k < MAX_TRAIL && k != t.count % MAX_TRAIL ==> r.slots[k] == t.slots[k]
  {
    Trail(t.slots[t.count % MAX_TRAIL := p], t.count + 1)
  }

  /** The trail as the renderer walks it: `Occupancy(t)` entries, the k-th at
      slot `(StartIndex(t) + k) % MAX_TRAIL`. */
  function TrailView<V>(t: Trail<V>): (view: seq<V>)
    requires WellFormed(t)
    ensures |view| == Min(t.count, MAX_TRAIL)
  {
    seq(Occupancy(t), k requires 0 <= k < Occupancy(t) => t.slots[(StartIndex(t) + k) % MAX_TRAIL])
  }

  /** The most recent `MAX_TRAIL` entries of a history, oldest first. */
  function Newest<V>(h: seq<V>): (r: seq<V>)
    ensures |r| == Min(|h|, MAX_TRAIL)
    ensures forall k :: 0 <= k < |r| ==> r[k] == h[|h| - |r| + k]
  {
    h[|h| - Min(|h|, MAX_TRAIL)..]
  }

  /** `h` is every position written to `t` since its counter was last reset,
      in order, and each of the last MAX_TRAIL of them is still in its slot. */
  ghost predicate Holds<V>(t: Trail<V>, h: seq<V>) {
    WellFormed(t) && t.count == |h| &&
    forall w :: 0 <= w < |h| && |h| - w <= MAX_TRAIL ==> t.slots[w % MAX_TRAIL] == h[w]
  }

  /** Fewer than MAX_TRAIL writes apart, two writes use different slots. */
  lemma DistinctSlots(a: nat, b: nat)
    requires a < b < a + MAX_TRAIL
    ensures a % MAX_TRAIL != b % MAX_TRAIL
  {
    var x := a % MAX_TRAIL + (b - a);
    assert b == MAX_TRAIL * (a / MAX_TRAIL) + x;
    ShiftMod(x, a / MAX_TRAIL);
    if x < MAX_TRAIL {
      assert b % MAX_TRAIL == x;
    } else {
      assert x - MAX_TRAIL < MAX_TRAIL;
      ShiftMod(x - MAX_TRAIL, 1);
      assert b % MAX_TRAIL == x - MAX_TRAIL;
    }
  }

  /** Once wrapped, walking from the start offset is walking from the write
      that happened MAX_TRAIL writes ago. */
  lemma WrappedOffset(c: nat, k: nat)
    requires c >= MAX_TRAIL
    ensures (c % MAX_TRAIL + k) % MAX_TRAIL == (c - MAX_TRAIL + k) % MAX_TRAIL
  {
    var q := c / MAX_TRAIL;
    assert c == MAX_TRAIL * q + c % MAX_TRAIL;
    assert q >= 1;
    var m := c % MAX_TRAIL + k;
    assert c - MAX_TRAIL + k == MAX_TRAIL * (q - 1) + m;
    ShiftMod(m, q - 1);
  }

  lemma {:induction false} ShiftMod(m: nat, q: nat)
    ensures (MAX_TRAIL * q + m) % MAX_TRAIL == m % MAX_TRAIL
  {
    if q > 0 {
      ShiftMod(m, q - 1);
      assert MAX_TRAIL * q + m == MAX_TRAIL * (q - 1) + m + MAX_TRAIL;
    }
  }

  /** A write keeps the ring invariant, with the new position appended to the
      history. */
  lemma RecordHolds<V>(t: Trail<V>, h: seq<V>, p: V)
    requires Holds(t, h)
    ensures Holds(Record(t, p), h + [p])
  {
    var r, h' := Record(t, p), h + [p];
    forall w | 0 <= w < |h'| && |h'| - w <= MAX_TRAIL
      ensures r.slots[w % MAX_TRAIL] == h'[w]
    {
      if w < |h| {
        DistinctSlots(w, |h|);
      }
    }
  }

  /** The central property of the read-back: it yields exactly the most recent
      `min(count, MAX_TRAIL)` writes, oldest first, however often the ring
      has wrapped. */
  lemma ViewIsNewest<V>(t: Trail<V>, h: seq<V>)
    requires Holds(t, h)
    ensures TrailView(t) == Newest(h)
  {
    var view, n := TrailView(t), Occupancy(t);
    forall k | 0 <= k < n
      ensures view[k] == h[|h| - n + k]
    {
      var w := |h| - n + k;
      assert view[k] == t.slots[(StartIndex(t) + k) % MAX_TRAIL];
      assert t.slots[w % MAX_TRAIL] == h[w];
      if t.count >= MAX_TRAIL {
        WrappedOffset(t.count, k);
      }
    }
  }

  /** A particle just added has counter 0: its view is empty even though its
      slots still hold an earlier particle's positions. */
  lemma ResetHolds<V>(stale: seq<V>)
    requires |stale| == MAX_TRAIL
    ensures Holds(Trail(stale, 0), []) && TrailView(Trail(stale, 0)) == []
  {
  }

  /** The trail after a fresh start and the writes `ps`, in order. */
  function RecordAll<V>(t: Trail<V>, ps: seq<V>): (r: Trail<V>)
    requires WellFormed(t)
    ensures WellFormed(r) && r.count == t.count + |ps|
    decreases |ps|
  {
    if ps == [] then t else Record(RecordAll(t, ps[..|ps| - 1]), ps[|ps| - 1])
  }

  lemma {:induction false} RecordAllHolds<V>(stale: seq<V>, ps: seq<V>)
    requires |stale| == MAX_TRAIL
    ensures Holds(RecordAll(Trail(stale, 0), ps), ps)
    decreases |ps|
  {
    if ps != [] {
      var front := ps[..|ps| - 1];
      RecordAllHolds(stale, front);
      RecordHolds(RecordAll(Trail(stale, 0), front), front, ps[|ps| - 1]);
      assert front + [ps[|ps| - 1]] == ps;
    }
  }

  /** Whatever the stale slots held, after the writes `ps` the view is the
      last `min(|ps|, MAX_TRAIL)` of them in chronological order, and its final
      entry is the latest write. */
  lemma ViewAfterWrites<V>(stale: seq<V>, ps: seq<V>)
    requires |stale| == MAX_TRAIL
    ensures TrailView(RecordAll(Trail(stale, 0), ps)) == Newest(ps)
    ensures ps != [] ==> TrailView(RecordAll(Trail(stale, 0), ps))[Min(|ps|, MAX_TRAIL) - 1] == ps[|ps| - 1]
  {
    RecordAllHolds(stale, ps);
    ViewIsNewest(RecordAll(Trail(stale, 0), ps), ps);
  }

  /** After three full wraps and five more writes, the view holds exactly
      MAX_TRAIL entries: the latest MAX_TRAIL writes, in order. */
  lemma ViewAfterThreeWraps<V>(stale: seq<V>, ps: seq<V>)
    requires |stale| == MAX_TRAIL && |ps| == 3 * MAX_TRAIL + 5
    ensures TrailView(RecordAll(Trail(stale, 0), ps)) == ps[2 * MAX_TRAIL + 5..]
  {
    ViewAfterWrites(stale, ps);
  }

  /** `segs` are the line segments joining consecutive entries of `view`;
      nothing is drawn for a view of fewer than two entries. */
  ghost predicate Traces<V>(segs: seq<(V, V)>, view: seq<V>) {
    |segs| == (if |view| > 1 then |view| - 1 else 0) &&
    forall k :: 0 <= k < |segs| ==> segs[k] == (view[k], view[k + 1])
  }

  /** The render loop over one trail: a running `prev` and an index that
      walks `(startIndex + k) % MAX_TRAIL`; each drawn line is returned. */
  method DrawnSegments<V>(t: Trail<V>) returns (segs: seq<(V, V)>)
    requires WellFormed(t)
    ensures Traces(segs, TrailView(t))
  {
    ghost var view := TrailView(t);
    var count := if t.count < MAX_TRAIL then t.count else MAX_TRAIL;
    segs := [];
    if count > 1 {
      var startIndex := if t.count >= MAX_TRAIL then t.count % MAX_TRAIL else 0;
      assert startIndex == StartIndex(t) && count == Occupancy(t);
      var prev := t.slots[startIndex];
      assert view[0] == t.slots[startIndex % MAX_TRAIL];
      var k := 1;
      while k < count
        invariant 1 <= k <= count
        invariant |segs| == k - 1
        invariant prev == view[k - 1]
        invariant forall m :: 0 <= m < k - 1 ==> segs[m] == (view[m], view[m + 1])
      {
        var index := (startIndex + k) % MAX_TRAIL;
        assert view[k] == t.slots[index];
        segs := segs + [(prev, t.slots[index])];
        prev := t.slots[index];
        k := k + 1;
      }
    }
  }
}
