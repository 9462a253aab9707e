/** The open-addressed table of `hash.h` as values: probing, insertion and the shift that deletion makes. */
module HashSpec {
  import opened Basics

  type Byte = bv8

  /** The bytes of a C string before its NUL. */
  type Key = s: seq<Byte> | 0 !in s witness []

  /** `RIV_HASH_KEYLEN`, with room for the NUL. */
  const KEYLEN := 32

  datatype Slot = Slot(key: Key, val: nat, used: bool)

  type Table = s: seq<Slot> | |s| > 0 witness [Slot([], 0, false)]

  // ---------- hashing and the circle of slots ----------

  function Fnv(s: seq<Byte>): bv64 {
    if s == [] then 0xcbf29ce484222325
    else Mix(Fnv(s[..|s| - 1]), s[|s| - 1])
  }

  /** FNV-1a: exclusive-or the byte in, then multiply by the prime, on 64-bit words. */
  function Mix(h: bv64, b: Byte): bv64 {
    (h ^ (b as bv64)) * 0x100000001b3
  }

  function Home(key: seq<Byte>, n: nat): (i: nat)
    requires n > 0
    ensures i < n
  {
    (Fnv(key) as nat) % n
  }

  function Next(i: nat, n: nat): (j: nat)
    requires i < n
    ensures j < n
  {
    if i + 1 == n then 0 else i + 1
  }

  /** How many steps lead from slot `a` to slot `b`. */
  function Dist(a: nat, b: nat, n: nat): (d: nat)
    requires a < n && b < n
    ensures d < n
  {
    if a <= b then b - a else b - a + n
  }

  /** `riv_strlcpy` into the key field keeps 31 characters. */
  function Stored(key: Key): Key {
    if |key| < KEYLEN then key else key[..KEYLEN - 1]
  }

  // ---------- the calls ----------

  datatype Probe = Hit(i: nat) | Vacant(i: nat) | Exhausted

  /** The loop the three calls share: at slot `i` after `step` steps. */
  function Find(t: Table, key: Key, i: nat, step: nat): (r: Probe)
    requires i < |t| && step <= |t|
    ensures r.Hit? ==> r.i < |t| && t[r.i].used && t[r.i].key == key
    ensures r.Vacant? ==> r.i < |t| && !t[r.i].used
    decreases |t| - step
  {
    if step == |t| then Exhausted
    else if !t[i].used then Vacant(i)
    else if t[i].key == key then Hit(i)
    else Find(t, key, Next(i, |t|), step + 1)
  }

  function Search(t: Table, key: Key): (r: Probe)
    ensures r.Hit? ==> r.i < |t| && t[r.i].used && t[r.i].key == key
    ensures r.Vacant? ==> r.i < |t| && !t[r.i].used
  {
    Find(t, key, Home(key, |t|), 0)
  }

  function Get(t: Table, key: Key): Option<nat> {
    match Search(t, key)
    case Hit(i) => Some(t[i].val)
    case _ => None
  }

  /** The table after `set`; `None` is the -1 of a full table. */
  function Set(t: Table, key: Key, val: nat): Option<Table> {
    match Search(t, key)
    case Hit(i) => Some(t[i := t[i].(val := val)])
    case Vacant(i) => Some(t[i := Slot(Stored(key), val, true)])
    case Exhausted => None
  }

  predicate AtHome(t: Table, j: nat)
    requires j < |t|
  {
    Home(t[j].key, |t|) == j
  }

  /** The shift stops at an unused slot and at an entry that is where it hashes to. */
  predicate Stops(t: Table, hole: nat)
    requires hole < |t|
  {
    var j := Next(hole, |t|);
    !t[j].used || AtHome(t, j)
  }

  /** One move of the shift loop. */
  function Moved(t: Table, hole: nat): (r: Table)
    requires hole < |t|
    ensures |r| == |t|
  {
    t[hole := t[Next(hole, |t|)]]
  }

  /** The whole shift loop of `del`, from the slot of the deleted key. */
  function Shift(t: Table, hole: nat): (r: Table)
    requires hole < |t|
    ensures |r| == |t|
    decreases Displacement(t, hole)
  {
    if Stops(t, hole) then t[hole := t[hole].(used := false)]
    else
      MoveDescends(t, hole);
      Shift(Moved(t, hole), Next(hole, |t|))
  }

  function Del(t: Table, key: Key): Option<Table> {
    match Search(t, key)
    case Hit(i) => Some(Shift(t, i))
    case _ => None
  }

  // ---------- the shift loop ends ----------

  function Sum(w: seq<nat>): nat {
    if w == [] then 0 else Sum(w[..|w| - 1]) + w[|w| - 1]
  }

  lemma {:induction false} SumUpdate(w: seq<nat>, i: nat, v: nat)
    requires i < |w|
    ensures Sum(w[i := v]) == Sum(w) - w[i] + v
  {
    var m := |w| - 1;
    if i < m {
      SumUpdate(w[..m], i, v);
      assert w[i := v][..m] == w[..m][i := v];
    } else {
      assert w[i := v][..m] == w[..m];
    }
  }

  /** How far each entry is from home; the hole counts nothing. */
  function Weights(t: Table, hole: nat): (w: seq<nat>)
    ensures |w| == |t|
    ensures forall j | 0 <= j < |t| ::
              w[j] == if j == hole || !t[j].used then 0 else Dist(Home(t[j].key, |t|), j, |t|)
  {
    seq(|t|, j requires 0 <= j < |t| =>
      if j == hole || !t[j].used then 0 else Dist(Home(t[j].key, |t|), j, |t|))
  }

  function Displacement(t: Table, hole: nat): nat {
    Sum(Weights(t, hole))
  }

  /** Each move brings one entry one slot nearer home, so in any table at all the loop ends. */
  lemma MoveDescends(t: Table, hole: nat)
    requires hole < |t| && !Stops(t, hole)
    ensures Displacement(Moved(t, hole), Next(hole, |t|)) == Displacement(t, hole) - 1
  {
    hide Home;
    var n, j := |t|, Next(hole, |t|);
    var w := Weights(t, hole);
    var d := Dist(Home(t[j].key, n), j, n);
    assert j != hole && d > 0 && w[j] == d && w[hole] == 0;
    assert Dist(Home(t[j].key, n), hole, n) == d - 1;
    var w1: seq<nat> := w[hole := d - 1];
    assert Weights(Moved(t, hole), j) == w1[j := 0];
    SumUpdate(w, hole, d - 1);
    SumUpdate(w1, j, 0);
  }
}

/** The probe invariant, and the table as a finite map. */
module HashMap {
  import opened Basics
  import opened HashSpec

  /** Slot `f` is among those a probe for the entry in `j` looks at before it reaches `j`. */
  predicate Crosses(t: Table, j: nat, f: nat)
    requires j < |t| && f < |t|
  {
    var h := Home(t[j].key, |t|);
    Dist(h, f, |t|) < Dist(h, j, |t|)
  }

  ghost predicate Distinct(t: Table) {
    forall i, j | 0 <= i < j < |t| && t[i].used && t[j].used :: t[i].key != t[j].key
  }

  /** No probe path has a gap. */
  ghost predicate GapFree(t: Table) {
    forall j, f | 0 <= j < |t| && 0 <= f < |t| && t[j].used && Crosses(t, j, f) :: t[f].used
  }

  /** No probe path leads past slot `s`: read from `s` on, every entry is at or after its home. */
  ghost predicate Framed(t: Table, s: nat) {
    && s < |t|
    && forall j | 0 <= j < |t| && t[j].used :: Dist(s, Home(t[j].key, |t|), |t|) <= Dist(s, j, |t|)
  }

  ghost predicate ShortKeys(t: Table) {
    forall j | 0 <= j < |t| && t[j].used :: |t[j].key| < KEYLEN
  }

  ghost predicate Inv(t: Table) {
    ShortKeys(t) && Distinct(t) && GapFree(t) && exists s :: Framed(t, s)
  }

  ghost predicate Full(t: Table) {
    forall j | 0 <= j < |t| :: t[j].used
  }

  ghost function View(t: Table): map<Key, nat>
    requires Distinct(t)
  {
    map j | 0 <= j < |t| && t[j].used :: t[j].key := t[j].val
  }

  // ---------- lookup ----------

  lemma {:induction false} FindHits(t: Table, key: Key, i: nat, step: nat, j: nat)
    requires Distinct(t) && GapFree(t) && j < |t| && t[j].used && t[j].key == key
    requires i < |t| && step == Dist(Home(key, |t|), i, |t|) <= Dist(Home(key, |t|), j, |t|)
    ensures Find(t, key, i, step) == Hit(j)
    decreases |t| - step
  {
    hide Home;
    if i != j {
      assert Crosses(t, j, i);
      FindHits(t, key, Next(i, |t|), step + 1, j);
    }
  }

  /** Without the key, a probe ends at the first unused slot, and all it passed are used. */
  lemma {:induction false} FindMisses(t: Table, key: Key, i: nat, step: nat)
    requires forall j | 0 <= j < |t| && t[j].used :: t[j].key != key
    requires i < |t| && step <= |t|
    requires if step < |t| then step == Dist(Home(key, |t|), i, |t|) else i == Home(key, |t|)
    requires forall f | 0 <= f < |t| && Dist(Home(key, |t|), f, |t|) < step :: t[f].used
    ensures match Find(t, key, i, step)
            case Hit(_) => false
            case Exhausted => Full(t)
            case Vacant(e) =>
              forall f | 0 <= f < |t| && Dist(Home(key, |t|), f, |t|) < Dist(Home(key, |t|), e, |t|) :: t[f].used
    decreases |t| - step
  {
    hide Home;
    if step < |t| && t[i].used {
      FindMisses(t, key, Next(i, |t|), step + 1);
    }
  }

  /** `get` is lookup in the map. */
  lemma GetRefines(t: Table, key: Key)
    requires Distinct(t) && GapFree(t)
    ensures Get(t, key) == if key in View(t) then Some(View(t)[key]) else None
  {
    hide Home;
    if key in View(t) {
      var j :| 0 <= j < |t| && t[j].used && t[j].key == key;
      FindHits(t, key, Home(key, |t|), 0, j);
      assert View(t)[key] == t[j].val;
    } else {
      FindMisses(t, key, Home(key, |t|), 0);
    }
  }

  // ---------- insertion ----------

  /** With an unused slot about, the slot after it is one that no path leads past. */
  lemma FrameAfter(t: Table, u: nat)
    requires GapFree(t) && u < |t| && !t[u].used
    ensures Framed(t, Next(u, |t|))
  {
    hide Home;
    var s := Next(u, |t|);
    forall j | 0 <= j < |t| && t[j].used ensures Dist(s, Home(t[j].key, |t|), |t|) <= Dist(s, j, |t|) {
      assert !Crosses(t, j, u);
    }
  }

  lemma InsertKeeps(t: Table, key: Key, val: nat, e: nat)
    requires Inv(t) && |key| < KEYLEN && e < |t| && !t[e].used
    requires forall j | 0 <= j < |t| && t[j].used :: t[j].key != key
    requires forall f | 0 <= f < |t| && Dist(Home(key, |t|), f, |t|) < Dist(Home(key, |t|), e, |t|) :: t[f].used
    ensures Inv(t[e := Slot(key, val, true)])
  {
    hide Home;
    var r: Table := t[e := Slot(key, val, true)];
    forall j, f | 0 <= j < |r| && 0 <= f < |r| && r[j].used && Crosses(r, j, f) ensures r[f].used {
      if j != e {
        assert Crosses(t, j, f);
      }
    }
    FrameAfter(t, e);
    assert Framed(r, Next(e, |t|));
  }

  /** `set` is map update; it fails exactly when the table is full and the key absent. */
  lemma SetRefines(t: Table, key: Key, val: nat)
    requires Inv(t) && |key| < KEYLEN
    ensures Set(t, key, val).None? <==> Full(t) && key !in View(t)
    ensures match Set(t, key, val)
            case None => true
            case Some(r) => |r| == |t| && Inv(r) && View(r) == View(t)[key := val]
  {
    hide Home;
    if key in View(t) {
      var j :| 0 <= j < |t| && t[j].used && t[j].key == key;
      FindHits(t, key, Home(key, |t|), 0, j);
      OverwriteKeeps(t, j, val);
    } else {
      FindMisses(t, key, Home(key, |t|), 0);
      var p := Search(t, key);
      if p.Vacant? {
        InsertKeeps(t, key, val, p.i);
        ViewUpdated(t, p.i, key, val);
      }
    }
  }

  lemma OverwriteKeeps(t: Table, j: nat, val: nat)
    requires Inv(t) && j < |t| && t[j].used
    ensures var r := t[j := t[j].(val := val)]; Inv(r) && View(r) == View(t)[t[j].key := val]
  {
    hide Home, View;
    var r: Table := t[j := t[j].(val := val)];
    assert forall i | 0 <= i < |t| :: r[i].key == t[i].key && r[i].used == t[i].used;
    assert forall i, f | 0 <= i < |t| && 0 <= f < |t| :: Crosses(r, i, f) == Crosses(t, i, f);
    var s :| Framed(t, s);
    assert Framed(r, s);
    ViewUpdated(t, j, t[j].key, val);
  }

  ghost predicate Maps(t: Table, j: nat, key: Key, val: nat) {
    j < |t| && t[j] == Slot(key, val, true)
  }

  lemma ViewMaps(t: Table, key: Key) returns (j: nat)
    requires Distinct(t) && key in View(t)
    ensures Maps(t, j, key, View(t)[key])
  {
    j :| 0 <= j < |t| && t[j].used && t[j].key == key;
  }

  lemma MapsInView(t: Table, j: nat, key: Key, val: nat)
    requires Distinct(t) && Maps(t, j, key, val)
    ensures key in View(t) && View(t)[key] == val
  {
    assert t[j].used && t[j].key == key;
  }

  /** Two tables that hold the same entries, wherever they are, are the same map. */
  lemma SameEntries(t: Table, m: map<Key, nat>)
    requires Distinct(t)
    requires forall j: nat, k: Key, v: nat | Maps(t, j, k, v) :: k in m && m[k] == v
    requires forall k: Key | k in m :: exists j: nat :: Maps(t, j, k, m[k])
    ensures View(t) == m
  {
    forall k: Key | k in View(t) ensures k in m && m[k] == View(t)[k] {
      var j := ViewMaps(t, k);
    }
    forall k: Key | k in m ensures k in View(t) {
      var j: nat :| Maps(t, j, k, m[k]);
      MapsInView(t, j, k, m[k]);
    }
  }

  lemma ViewUpdated(t: Table, e: nat, key: Key, val: nat)
    requires Distinct(t) && e < |t| && (t[e].used ==> t[e].key == key)
    requires forall j | 0 <= j < |t| && t[j].used && j != e :: t[j].key != key
    ensures var r := t[e := Slot(key, val, true)]; Distinct(r) && View(r) == View(t)[key := val]
  {
    hide View;
    var r: Table := t[e := Slot(key, val, true)];
    var m := View(t)[key := val];
    forall j: nat, k: Key, v: nat | Maps(r, j, k, v) ensures k in m && m[k] == v {
      if j != e {
        MapsInView(t, j, k, v);
      }
    }
    forall k: Key | k in m ensures exists j: nat :: Maps(r, j, k, m[k]) {
      if k == key {
        assert Maps(r, e, k, m[k]);
      } else {
        var j := ViewMaps(t, k);
        assert Maps(r, j, k, m[k]);
      }
    }
    SameEntries(r, m);
  }
}

/** What deletion does to the map, and exactly when it keeps the probe invariant. */
module HashDelete {
  import opened Basics
  import opened HashSpec
  import opened HashMap

  /** The table without the entry in the hole. */
  function Punched(t: Table, hole: nat): (r: Table)
    requires hole < |t|
    ensures |r| == |t|
  {
    t[hole := t[hole].(used := false)]
  }

  /** The slot the shift loop marks unused in the end. */
  function Final(t: Table, hole: nat): (f: nat)
    requires hole < |t|
    ensures f < |t|
    decreases Displacement(t, hole)
  {
    if Stops(t, hole) then hole
    else
      MoveDescends(t, hole);
      Final(Moved(t, hole), Next(hole, |t|))
  }

  // ---------- the map ----------

  lemma MoveKeepsEntries(t: Table, hole: nat)
    requires hole < |t| && t[hole].used && !Stops(t, hole) && Distinct(Punched(t, hole))
    ensures var r := Punched(Moved(t, hole), Next(hole, |t|));
            Distinct(r) && View(r) == View(Punched(t, hole))
  {
    hide View, Home;
    var n, j := |t|, Next(hole, |t|);
    var p, r := Punched(t, hole), Punched(Moved(t, hole), j);
    assert j != hole && r[hole] == p[j] && !r[j].used && !p[hole].used;
    assert forall i | 0 <= i < n && i != hole && i != j :: r[i] == p[i];
    forall x, y | 0 <= x < y < n && r[x].used && r[y].used ensures r[x].key != r[y].key {
      var x', y' := if x == hole then j else x, if y == hole then j else y;
      assert p[x'] == r[x] && p[y'] == r[y];
      assert p[x'].key != p[y'].key by { DistinctPair(p, x', y'); }
    }
    var m := View(p);
    forall i: nat, k: Key, v: nat | Maps(r, i, k, v) ensures k in m && m[k] == v {
      MapsInView(p, if i == hole then j else i, k, v);
    }
    forall k: Key | k in m ensures exists i: nat :: Maps(r, i, k, m[k]) {
      var i := ViewMaps(p, k);
      assert Maps(r, if i == j then hole else i, k, m[k]);
    }
    SameEntries(r, m);
  }

  lemma DistinctPair(t: Table, i: nat, j: nat)
    requires Distinct(t) && i < |t| && j < |t| && i != j && t[i].used && t[j].used
    ensures t[i].key != t[j].key
  {
  }

  lemma {:induction false} ShiftRemoves(t: Table, hole: nat)
    requires hole < |t| && t[hole].used && Distinct(Punched(t, hole))
    ensures Distinct(Shift(t, hole)) && View(Shift(t, hole)) == View(Punched(t, hole))
    ensures !Shift(t, hole)[Final(t, hole)].used
    decreases Displacement(t, hole)
  {
    hide View, Home;
    if !Stops(t, hole) {
      MoveDescends(t, hole);
      MoveKeepsEntries(t, hole);
      ShiftRemoves(Moved(t, hole), Next(hole, |t|));
    }
  }

  lemma PunchedView(t: Table, i: nat)
    requires i < |t| && t[i].used && Distinct(t)
    ensures Distinct(Punched(t, i)) && View(Punched(t, i)) == View(t) - {t[i].key}
  {
    hide View;
    var p, m := Punched(t, i), View(t) - {t[i].key};
    forall j: nat, k: Key, v: nat | Maps(p, j, k, v) ensures k in m && m[k] == v {
      MapsInView(t, j, k, v);
      assert t[j].key != t[i].key;
    }
    forall k: Key | k in m ensures exists j: nat :: Maps(p, j, k, m[k]) {
      var j := ViewMaps(t, k);
      assert Maps(p, j, k, m[k]);
    }
    SameEntries(p, m);
  }

  // ---------- the probe paths ----------

  /** No probe path has a gap, the hole's own entry aside. */
  ghost predicate GapFreeBut(t: Table, hole: nat) {
    && hole < |t| && t[hole].used
    && forall j, f | 0 <= j < |t| && 0 <= f < |t| && j != hole && t[j].used && Crosses(t, j, f) :: t[f].used
  }

  ghost predicate FramedBut(t: Table, hole: nat, s: nat) {
    && s < |t| && hole < |t|
    && forall j | 0 <= j < |t| && j != hole && t[j].used :: Dist(s, Home(t[j].key, |t|), |t|) <= Dist(s, j, |t|)
  }

  /** No entry other than that in `hole` is found by way of slot `f`. */
  ghost predicate Uncrossed(t: Table, hole: nat, f: nat)
    requires f < |t|
  {
    forall j | 0 <= j < |t| && j != hole && t[j].used :: !Crosses(t, j, f)
  }

  /** The entry at the frame's start is at home, so a move never passes it. */
  lemma MoveStaysInFrame(t: Table, hole: nat, s: nat)
    requires FramedBut(t, hole, s) && !Stops(t, hole)
    ensures Dist(s, Next(hole, |t|), |t|) == Dist(s, hole, |t|) + 1
  {
    hide Home;
    var j := Next(hole, |t|);
    assert j != hole;
  }

  lemma MoveKeepsPaths(t: Table, hole: nat, s: nat)
    requires GapFreeBut(t, hole) && FramedBut(t, hole, s) && !Stops(t, hole)
    ensures GapFreeBut(Moved(t, hole), Next(hole, |t|)) && FramedBut(Moved(t, hole), Next(hole, |t|), s)
  {
    hide Home;
    var n, j, r := |t|, Next(hole, |t|), Moved(t, hole);
    MoveStaysInFrame(t, hole, s);
    assert forall i | 0 <= i < n && i != hole :: r[i] == t[i];
    assert r[hole] == t[j];
    forall i, f | 0 <= i < n && 0 <= f < n && i != j && r[i].used && Crosses(r, i, f) ensures r[f].used {
      if i == hole {
        assert Crosses(t, j, f);
      } else {
        assert Crosses(t, i, f);
      }
    }
  }

  lemma MoveKeepsCrossing(t: Table, hole: nat, f: nat)
    requires hole < |t| && t[hole].used && f < |t| && f != hole && !Stops(t, hole)
    ensures Uncrossed(Moved(t, hole), Next(hole, |t|), f) <==> Uncrossed(t, hole, f)
  {
    hide Home;
    var n, j, r := |t|, Next(hole, |t|), Moved(t, hole);
    assert j != hole && r[hole] == t[j];
    assert Crosses(r, hole, f) <==> Crosses(t, j, f);
    assert forall i | 0 <= i < n && i != hole :: Crosses(r, i, f) <==> Crosses(t, i, f);
  }

  /** At the end of the loop: the paths stay whole exactly when none leads through the slot given up. */
  lemma StopExact(t: Table, hole: nat)
    requires GapFreeBut(t, hole)
    ensures GapFree(Punched(t, hole)) <==> Uncrossed(t, hole, hole)
  {
    hide Home;
    var p := Punched(t, hole);
    assert forall i, f | 0 <= i < |t| && 0 <= f < |t| :: Crosses(p, i, f) <==> Crosses(t, i, f);
    if Uncrossed(t, hole, hole) {
      forall j, f | 0 <= j < |p| && 0 <= f < |p| && p[j].used && Crosses(p, j, f) ensures p[f].used {
        assert Crosses(t, j, f);
      }
    }
    if !Uncrossed(t, hole, hole) {
      var j :| 0 <= j < |t| && j != hole && t[j].used && Crosses(t, j, hole);
      assert p[j].used && Crosses(p, j, hole) && !p[hole].used;
    }
  }

  lemma {:induction false} ShiftExact(t: Table, hole: nat, s: nat)
    requires GapFreeBut(t, hole) && FramedBut(t, hole, s)
    ensures Dist(s, hole, |t|) <= Dist(s, Final(t, hole), |t|)
    ensures GapFree(Shift(t, hole)) <==> Uncrossed(t, hole, Final(t, hole))
    decreases Displacement(t, hole)
  {
    hide Home, GapFree, GapFreeBut, FramedBut, Uncrossed;
    UsedHole(t, hole);
    if Stops(t, hole) {
      StopExact(t, hole);
    } else {
      MoveDescends(t, hole);
      MoveStaysInFrame(t, hole, s);
      MoveKeepsPaths(t, hole, s);
      ShiftExact(Moved(t, hole), Next(hole, |t|), s);
      MoveKeepsCrossing(t, hole, Final(t, hole));
    }
  }

  lemma UsedHole(t: Table, hole: nat)
    requires GapFreeBut(t, hole)
    ensures hole < |t| && t[hole].used
  {
  }

  // ---------- where the shift ends, read off the table before the call ----------

  function At(i: nat, m: nat, n: nat): (j: nat)
    requires i < n && m < n
    ensures j < n && Dist(i, j, n) == m
  {
    if i + m < n then i + m else i + m - n
  }

  /** How many entries move: those after slot `i`, up to the first slot that is unused or holds an entry at home. */
  function ShiftLen(t: Table, i: nat, m: nat): (r: nat)
    requires i < |t| && m < |t|
    ensures m <= r < |t|
    decreases |t| - m
  {
    if m + 1 == |t| || Stops(t, At(i, m, |t|)) then m else ShiftLen(t, i, m + 1)
  }

  lemma {:induction false} FinalFound(t0: Table, i: nat, m: nat, t: Table, s: nat)
    requires i < |t0| && |t| == |t0| && m < |t| && FramedBut(t, At(i, m, |t|), s)
    requires Dist(s, At(i, m, |t|), |t|) == Dist(s, i, |t|) + m
    requires forall k | m < k < |t| :: t[At(i, k, |t|)] == t0[At(i, k, |t|)]
    ensures Final(t, At(i, m, |t|)) == At(i, ShiftLen(t0, i, m), |t|)
    decreases |t| - m
  {
    hide Home, FramedBut, Displacement, Stops, Moved, At, Dist;
    var n, hole := |t|, At(i, m, |t|);
    if m + 1 == n {
      EndOfFrame(t, hole, s);
    } else {
      NextAt(i, m, n);
      SameStop(t, t0, hole);
      if !Stops(t, hole) {
        MoveDescends(t, hole);
        MoveStaysInFrame(t, hole, s);
        MoveKeepsFrame(t, hole, s);
        MovedAhead(t0, i, m, t);
        FinalFound(t0, i, m + 1, Moved(t, hole), s);
      }
    }
  }

  lemma NextAt(i: nat, m: nat, n: nat)
    requires i < n && m + 1 < n
    ensures Next(At(i, m, n), n) == At(i, m + 1, n)
  {
  }

  /** A move leaves the slots beyond the next as they were. */
  lemma MovedAhead(t0: Table, i: nat, m: nat, t: Table)
    requires i < |t0| == |t| && m + 1 < |t|
    requires forall k | m < k < |t| :: t[At(i, k, |t|)] == t0[At(i, k, |t|)]
    ensures forall k | m + 1 < k < |t| :: Moved(t, At(i, m, |t|))[At(i, k, |t|)] == t0[At(i, k, |t|)]
  {
  }

  lemma MoveKeepsFrame(t: Table, hole: nat, s: nat)
    requires FramedBut(t, hole, s) && !Stops(t, hole)
    ensures FramedBut(Moved(t, hole), Next(hole, |t|), s)
  {
    hide Home;
    MoveStaysInFrame(t, hole, s);
  }

  lemma SameStop(t: Table, t0: Table, hole: nat)
    requires |t| == |t0| && hole < |t| && t[Next(hole, |t|)] == t0[Next(hole, |t|)]
    ensures Stops(t, hole) == Stops(t0, hole)
  {
  }

  lemma EndOfFrame(t: Table, hole: nat, s: nat)
    requires FramedBut(t, hole, s) && Dist(s, hole, |t|) == |t| - 1
    ensures Stops(t, hole)
  {
    hide Home;
    assert Next(hole, |t|) == s;
  }

  // ---------- the theorem ----------

  /** The slot that deleting the entry in slot `i` finally empties. */
  function Emptied(t: Table, i: nat): (f: nat)
    requires i < |t|
    ensures f < |t|
  {
    At(i, ShiftLen(t, i, 0), |t|)
  }

  lemma FinalIsEmptied(t: Table, i: nat, s: nat)
    requires i < |t| && FramedBut(t, i, s)
    ensures Final(t, i) == Emptied(t, i)
  {
    FinalFound(t, i, 0, t, s);
  }

  /** A lookup whose path has a gap does not find its entry. */
  lemma {:induction false} GapLoses(t: Table, j: nat, f: nat, i: nat, step: nat)
    requires Distinct(t) && j < |t| && f < |t| && t[j].used && !t[f].used && Crosses(t, j, f)
    requires i < |t| && step == Dist(Home(t[j].key, |t|), i, |t|) <= Dist(Home(t[j].key, |t|), f, |t|)
    ensures Find(t, t[j].key, i, step).Vacant?
    decreases |t| - step
  {
    hide Home;
    if t[i].used {
      assert i != f;
      assert i != j;
      GapLoses(t, j, f, Next(i, |t|), step + 1);
    }
  }

  /** Lookups agree with the map exactly when no path has a gap. */
  lemma LookupsExact(t: Table)
    requires Distinct(t)
    ensures GapFree(t) <==> forall k: Key :: Get(t, k) == if k in View(t) then Some(View(t)[k]) else None
  {
    hide Home, View;
    if GapFree(t) {
      forall k: Key ensures Get(t, k) == if k in View(t) then Some(View(t)[k]) else None {
        GetRefines(t, k);
      }
    } else {
      var j, f :| 0 <= j < |t| && 0 <= f < |t| && t[j].used && Crosses(t, j, f) && !t[f].used;
      GapLoses(t, j, f, Home(t[j].key, |t|), 0);
      MapsInView(t, j, t[j].key, t[j].val);
      assert Get(t, t[j].key) == None;
    }
  }

  lemma StillShort(t: Table, hole: nat)
    requires hole < |t| && t[hole].used && ShortKeys(t)
    ensures ShortKeys(Shift(t, hole))
    decreases Displacement(t, hole)
  {
    if !Stops(t, hole) {
      MoveDescends(t, hole);
      StillShort(Moved(t, hole), Next(hole, |t|));
    }
  }

  /**
   Deleting a key that is present removes exactly that key from the map. The probe invariant, and with
   it every later lookup, survives exactly when no remaining entry's probe path crosses the slot that
   the shift finally empties.
   */
  lemma DelExact(t: Table, key: Key)
    requires Inv(t)
    ensures Del(t, key).Some? <==> key in View(t)
    ensures match Del(t, key)
            case None => true
            case Some(r) =>
              var i := Search(t, key).i;
              && |r| == |t| && Distinct(r) && View(r) == View(t) - {key}
              && (Inv(r) <==> Uncrossed(t, i, Emptied(t, i)))
              && (Uncrossed(t, i, Emptied(t, i)) <==>
                  forall k: Key :: Get(r, k) == if k in View(r) then Some(View(r)[k]) else None)
  {
    hide Home, View, Framed, GapFree, Distinct, ShortKeys, Shift;
    GetRefines(t, key);
    if key in View(t) {
      var i := Search(t, key).i;
      var r := Shift(t, i);
      var s :| Framed(t, s);
      FrameOpens(t, i, s);
      PunchedView(t, i);
      ShiftRemoves(t, i);
      StillShort(t, i);
      ShiftExact(t, i, s);
      FinalIsEmptied(t, i, s);
      if GapFree(r) {
        FrameAfter(r, Final(t, i));
      }
      LookupsExact(r);
    }
  }

  lemma FrameOpens(t: Table, i: nat, s: nat)
    requires GapFree(t) && Framed(t, s) && i < |t| && t[i].used
    ensures GapFreeBut(t, i) && FramedBut(t, i, s)
  {
  }
}

/** Whole runs, the limit on key length, and an entry that deletion loses. */
module HashRuns {
  import opened Basics
  import opened HashSpec
  import opened HashMap
  import opened HashDelete

  datatype Call = SetCall(key: Key, val: nat) | DelCall(key: Key)

  function Step(t: Table, c: Call): Table {
    match c
    case SetCall(key, val) => (match Set(t, key, val) case Some(r) => r case None => t)
    case DelCall(key) => (match Del(t, key) case Some(r) => r case None => t)
  }

  /** Keys fit, and no deletion empties a slot that another entry's path crosses. */
  ghost predicate Allowed(t: Table, c: Call) {
    match c
    case SetCall(key, _) => |key| < KEYLEN
    case DelCall(key) =>
      var p := Search(t, key);
      p.Hit? ==> Uncrossed(t, p.i, Emptied(t, p.i))
  }

  ghost predicate Legal(t: Table, calls: seq<Call>)
    decreases |calls|
  {
    calls == [] || (Allowed(t, calls[0]) && Legal(Step(t, calls[0]), calls[1..]))
  }

  function Run(t: Table, calls: seq<Call>): Table
    decreases |calls|
  {
    if calls == [] then t else Run(Step(t, calls[0]), calls[1..])
  }

  /** The same calls on a map that holds at most `cap` keys. */
  function MapRun(m: map<Key, nat>, cap: nat, calls: seq<Call>): map<Key, nat>
    decreases |calls|
  {
    if calls == [] then m
    else
      var m' := match calls[0]
        case SetCall(key, val) => if |m| == cap && key !in m then m else m[key := val]
        case DelCall(key) => m - {key};
      MapRun(m', cap, calls[1..])
  }

  /** The keys in the first `n` slots. */
  ghost function Keys(t: Table, n: nat): set<Key>
    requires n <= |t|
  {
    if n == 0 then {} else Keys(t, n - 1) + if t[n - 1].used then {t[n - 1].key} else {}
  }

  lemma {:induction false} KeyAt(t: Table, n: nat, k: Key) returns (j: nat)
    requires n <= |t| && k in Keys(t, n)
    ensures j < n && t[j].used && t[j].key == k
  {
    if k in Keys(t, n - 1) {
      j := KeyAt(t, n - 1, k);
    } else {
      j := n - 1;
    }
  }

  lemma {:induction false} KeyIn(t: Table, n: nat, j: nat)
    requires j < n <= |t| && t[j].used
    ensures t[j].key in Keys(t, n)
  {
    if j < n - 1 {
      KeyIn(t, n - 1, j);
    }
  }

  ghost predicate AllUsed(t: Table, n: nat)
    requires n <= |t|
  {
    forall j | 0 <= j < n :: t[j].used
  }

  lemma NewKey(t: Table, n: nat)
    requires n < |t| && Distinct(t) && t[n].used
    ensures t[n].key !in Keys(t, n)
  {
    hide Keys;
    if t[n].key in Keys(t, n) {
      var j := KeyAt(t, n, t[n].key);
      assert false;
    }
  }

  lemma KeysStep(t: Table, n: nat)
    requires n < |t|
    ensures Keys(t, n + 1) == if t[n].used then Keys(t, n) + {t[n].key} else Keys(t, n)
  {
  }

  lemma {:induction false} Counted(t: Table, n: nat)
    requires n <= |t| && Distinct(t)
    ensures |Keys(t, n)| <= n && (|Keys(t, n)| == n <==> AllUsed(t, n))
  {
    hide Distinct, AllUsed, Keys;
    AllUsedStep(t, n);
    if n == 0 {
      NoKeys(t);
    } else {
      Counted(t, n - 1);
      KeysStep(t, n - 1);
      if t[n - 1].used {
        NewKey(t, n - 1);
        AddOne(Keys(t, n - 1), t[n - 1].key);
      }
    }
  }

  lemma NoKeys(t: Table)
    ensures |Keys(t, 0)| == 0
  {
  }

  lemma AddOne(s: set<Key>, k: Key)
    requires k !in s
    ensures |s + {k}| == |s| + 1
  {
  }

  lemma AllUsedStep(t: Table, n: nat)
    requires n <= |t|
    ensures AllUsed(t, n) <==> n == 0 || (AllUsed(t, n - 1) && t[n - 1].used)
  {
  }

  lemma KeysAreView(t: Table)
    requires Distinct(t)
    ensures View(t).Keys == Keys(t, |t|)
  {
    hide View, Keys;
    var m, keys := View(t), Keys(t, |t|);
    forall k: Key ensures k in m.Keys <==> k in keys {
      if k in m {
        var j := ViewMaps(t, k);
        KeyIn(t, |t|, j);
      }
      if k in keys {
        var j := KeyAt(t, |t|, k);
        MapsInView(t, j, k, t[j].val);
      }
    }
  }

  /** The table is full exactly when the map has as many keys as there are slots. */
  lemma FullExact(t: Table)
    requires Distinct(t)
    ensures Full(t) <==> |View(t)| == |t|
  {
    hide View, Keys;
    Counted(t, |t|);
    KeysAreView(t);
    assert |View(t)| == |View(t).Keys|;
  }

  lemma ViewSize(t: Table)
    requires Inv(t)
    ensures Distinct(t) && |View(t)| <= |t|
  {
    hide View, Keys;
    Counted(t, |t|);
    KeysAreView(t);
    assert |View(t)| == |View(t).Keys|;
  }

  lemma StepRefines(t: Table, c: Call)
    requires Inv(t) && Allowed(t, c)
    ensures var r := Step(t, c);
            && |r| == |t| && Inv(r)
            && View(r) == match c
                          case SetCall(key, val) =>
                            if |View(t)| == |t| && key !in View(t) then View(t) else View(t)[key := val]
                          case DelCall(key) => View(t) - {key}
  {
    hide Home, View, Search, Set, Del, Uncrossed, Emptied, Framed, GapFree, Distinct, ShortKeys;
    match c
    case SetCall(key, val) =>
      SetRefines(t, key, val);
      FullExact(t);
    case DelCall(key) =>
      DelExact(t, key);
      DelHits(t, key);
  }

  lemma DelHits(t: Table, key: Key)
    ensures Del(t, key).Some? <==> Search(t, key).Hit?
  {
  }

  /** Every such run is the run of a bounded map, and lookups at any point read the map. */
  lemma {:induction false} RunRefines(t: Table, calls: seq<Call>, key: Key)
    requires Inv(t) && Legal(t, calls)
    ensures var r := Run(t, calls);
            && |r| == |t| && Inv(r) && View(r) == MapRun(View(t), |t|, calls)
            && Get(r, key) == if key in View(r) then Some(View(r)[key]) else None
    decreases |calls|
  {
    hide Home, View, Search, Get, Framed, GapFree, Distinct, ShortKeys, Step;
    if calls == [] {
      GetRefines(t, key);
    } else {
      StepRefines(t, calls[0]);
      RunRefines(Step(t, calls[0]), calls[1..], key);
    }
  }

  lemma EmptyTable(t: Table)
    requires forall j | 0 <= j < |t| :: !t[j].used
    ensures Inv(t) && View(t) == map[]
  {
    assert Framed(t, 0);
  }

  /** What `set` stores, `get` returns: exactly for keys of at most 31 characters. */
  lemma SetThenGet(t: Table, key: Key, val: nat)
    requires Inv(t) && Set(t, key, val).Some?
    ensures Get(Set(t, key, val).value, key) == Some(val) <==> |key| < KEYLEN
    ensures |key| >= KEYLEN ==> Get(Set(t, key, val).value, key) == None
  {
    hide Home;
    if |key| < KEYLEN {
      SetRefines(t, key, val);
      GetRefines(Set(t, key, val).value, key);
    }
  }

  /** Thirty-two characters: one more than the key field keeps. */
  function LongKey(): Key {
    Repeat<Byte>(32, 0x61)
  }

  function Vacancy(): Table {
    Repeat(4, Slot([], 0, false))
  }

  /** In an empty table the key is stored without complaint and not found. */
  lemma LongKeyLost()
    ensures match Set(Vacancy(), LongKey(), 7)
            case None => false
            case Some(r) => Get(r, LongKey()) == None
  {
    hide Home;
    EmptyTable(Vacancy());
    SetThenGet(Vacancy(), LongKey(), 7);
  }

  // ---------- an entry lost ----------

  const a: Key := [0x61]
  const b: Key := [0x62]
  const e: Key := [0x65]

  lemma Homes()
    ensures Home(a, 4) == 0 && Home(b, 4) == 1 && Home(e, 4) == 0
  {
    FnvOne(0x61);
    FnvOne(0x62);
    FnvOne(0x65);
  }

  lemma FnvOne(c: Byte)
    requires c == 0x61 || c == 0x62 || c == 0x65
    ensures c != 0x62 ==> Home([c], 4) == 0
    ensures c == 0x62 ==> Home([c], 4) == 1
  {
    assert [c][..0] == [];
    assert Fnv([c]) == Mix(0xcbf29ce484222325, c);
    if c == 0x61 {
      assert Fnv([c]) == 0xaf63dc4c8601ec8c;
    } else if c == 0x62 {
      assert Fnv([c]) == 0xaf63df4c8601f1a5;
    } else {
      assert Fnv([c]) == 0xaf63d84c8601e5c0;
    }
  }

  /** Keys `a` and `b` at home in slots 0 and 1, and `e`, which also hashes to slot 0, in slot 2. */
  function Crowded(): Table {
    [Slot(a, 1, true), Slot(b, 2, true), Slot(e, 3, true), Slot([], 0, false)]
  }

  lemma CrowdedIsSound()
    ensures Inv(Crowded())
  {
    hide Home;
    Homes();
    assert Framed(Crowded(), 0);
  }

  /** Deleting `a` stops at once because `b` is at home, and then `e` can no longer be found. */
  lemma EntryLost()
    ensures Inv(Crowded()) && Get(Crowded(), e) == Some(3)
    ensures match Del(Crowded(), a)
            case None => false
            case Some(r) => Distinct(r) && e in View(r) && Get(r, e) == None
  {
    hide Home, View, Inv, Distinct;
    CrowdedIsSound();
    Homes();
    var t := Crowded();
    assert Search(t, a) == Hit(0);
    DelExact(t, a);
    SoundIsDistinct(t);
    MapsInView(t, 2, e, 3);
    assert Shift(t, 0) == t[0 := t[0].(used := false)];
    assert Find(t, e, 1, 1) == Find(t, e, 2, 2) == Hit(2);
  }

  lemma SoundIsDistinct(t: Table)
    requires Inv(t)
    ensures Distinct(t)
  {
  }
}

/** `hash.h` as code, over an array of slots. */
module HashTable {
  import opened Basics
  import HashRuns
  import opened Bits
  import opened HashSpec
  import opened HashMap
  import opened HashDelete

  /** `riv_hash_fnv64`. */
  method HashOf(s: seq<Byte>) returns (h: bv64)
    ensures h == Fnv(s)
  {
    hide Mix;
    h := 0xcbf29ce484222325;
    var i := 0;
    while i < |s|
      invariant i <= |s| && h == Fnv(s[..i])
    {
      assert s[..i + 1][..i] == s[..i];
      h := Mix(h, s[i]);
      i := i + 1;
    }
    assert s[..i] == s;
  }

  lemma FnvGrows(s: seq<Byte>, b: Byte)
    ensures Fnv(s + [b]) == Mix(Fnv(s), b)
  {
    hide Mix;
    assert (s + [b])[..|s|] == s;
  }

  lemma FnvMixes()
    ensures Mix(0xcbf29ce484222325, 0x66) == 0xaf63db4c8601ead9 && Mix(0xaf63db4c8601ead9, 0x6f) == 0x08985907b541d342
    ensures Mix(0x08985907b541d342, 0x6f) == 0xdcb27518fed9d577 && Mix(0xdcb27518fed9d577, 0x62) == 0xdd120e790c2512af
    ensures Mix(0xdd120e790c2512af, 0x61) == 0xcac165afa2fef40a && Mix(0xcac165afa2fef40a, 0x72) == 0x85944171f73967e8
  {
  }

  /** The published 64-bit FNV-1a value of "foobar". */
  lemma FnvVector()
    ensures Fnv([0x66, 0x6f, 0x6f, 0x62, 0x61, 0x72]) == 0x85944171f73967e8
  {
    hide Mix;
    FnvMixes();
    var s0: seq<Byte> := [];
    var s1 := s0 + [0x66];
    var s2 := s1 + [0x6f];
    var s3 := s2 + [0x6f];
    var s4 := s3 + [0x62];
    var s5 := s4 + [0x61];
    FnvGrows(s0, 0x66);
    FnvGrows(s1, 0x6f);
    FnvGrows(s2, 0x6f);
    FnvGrows(s3, 0x62);
    FnvGrows(s4, 0x61);
    FnvGrows(s5, 0x72);
    assert s5 + [0x72] == [0x66, 0x6f, 0x6f, 0x62, 0x61, 0x72];
  }

  lemma MaskedHome(h: nat, k: nat)
    ensures And(h, Pow2(k) - 1) == h % Pow2(k)
  {
    AndMaskIsMod(h, k);
  }

  lemma MaskedNext(i: nat, k: nat)
    requires i < Pow2(k)
    ensures And(i + 1, Pow2(k) - 1) == Next(i, Pow2(k))
  {
    AndMaskIsMod(i + 1, k);
    if i + 1 == Pow2(k) {
      DivModUnique(i + 1, Pow2(k), 1, 0);
    } else {
      DivModUnique(i + 1, Pow2(k), 0, i + 1);
    }
  }

  /** The two-armed comparison of `del` asks only whether the next entry is away from home. */
  predicate MayMove(next: nat, hole: nat, desired: nat) {
    || (next > hole && (desired <= hole || desired > next))
    || (next < hole && desired <= hole && desired > next)
  }

  lemma MayMoveExact(hole: nat, desired: nat, n: nat)
    requires hole < n && desired < n
    ensures MayMove(Next(hole, n), hole, desired) <==> desired != Next(hole, n)
  {
  }

  lemma FindStep(t: Table, key: Key, i: nat, step: nat)
    requires i < |t| && step <= |t|
    ensures Find(t, key, i, step) ==
            if step == |t| then Exhausted
            else if !t[i].used then Vacant(i)
            else if t[i].key == key then Hit(i)
            else Find(t, key, Next(i, |t|), step + 1)
  {
  }

  class Hash {
    const slots: array<Slot>
    var count: nat
    ghost const k: nat

    ghost predicate Shaped()
      reads this
    {
      slots.Length == Pow2(k) < U32
    }

    /** The table is sound and the counter counts its keys. */
    ghost predicate Valid()
      reads this, slots
    {
      Shaped() && Inv(slots[..]) && count == |View(slots[..])|
    }

    constructor (slots: array<Slot>, ghost k: nat)
      requires slots.Length == Pow2(k) < U32
      modifies slots
      ensures this.slots == slots && Valid() && View(slots[..]) == map[]
    {
      this.slots, count, this.k := slots, 0, k;
      new;
      var i := 0;
      while i < slots.Length
        invariant i <= slots.Length && forall j | 0 <= j < i :: !slots[j].used
        modifies slots
      {
        slots[i] := slots[i].(used := false);
        i := i + 1;
      }
      HashRuns.EmptyTable(slots[..]);
    }

    /** `riv_hash_init`: refuses a capacity that is not a power of two. */
    static method Init(slots: array<Slot>) returns (h: Hash?)
      requires slots.Length < U32
      modifies slots
      ensures h != null <==> IsPow2(slots.Length)
      ensures h != null ==> fresh(h) && h.slots == slots && h.Valid() && View(slots[..]) == map[]
    {
      if slots.Length == 0 || And(slots.Length, slots.Length - 1) != 0 { return null; }
      IsPow2Log(slots.Length);
      h := new Hash(slots, Log2(slots.Length));
    }

    /** The probe loop that opens `riv_hash_set`, `riv_hash_get` and `riv_hash_del`. */
    method Look(key: Key) returns (r: Probe)
      requires Shaped()
      ensures r == Search(slots[..], key)
    {
      hide Fnv, Home, And, Pow2, Next, Find;
      ghost var t: Table := slots[..];
      var i := HomeOf(key);
      var step: nat := 0;
      while step < slots.Length
        invariant 0 <= i < slots.Length && step <= slots.Length && Find(t, key, i, step) == Search(t, key)
      {
        FindStep(t, key, i, step);
        if !slots[i].used { return Vacant(i); }
        if slots[i].key == key { return Hit(i); }
        MaskedNext(i, k);
        i := And(i + 1, slots.Length - 1);
        step := step + 1;
      }
      FindStep(t, key, i, step);
      return Exhausted;
    }

    method Get(key: Key) returns (out: Option<nat>)
      requires Shaped()
      ensures out == HashSpec.Get(slots[..], key)
      ensures Valid() ==> out == if key in View(slots[..]) then Some(View(slots[..])[key]) else None
    {
      hide Find, Home, Fnv, View;
      var p := Look(key);
      out := if p.Hit? then Some(slots[p.i].val) else None;
      if Valid() {
        GetRefines(slots[..], key);
      }
    }

    method Set(key: Key, val: nat) returns (ok: bool)
      requires Shaped()
      modifies this`count, slots
      ensures var was: Table := old(slots[..]);
              && (ok <==> HashSpec.Set(was, key, val).Some?)
              && slots[..] == if ok then HashSpec.Set(was, key, val).value else was
      ensures old(Valid()) && |key| < KEYLEN ==>
                && Valid() && (ok <==> !(Full(old(slots[..])) && key !in View(old(slots[..]))))
                && View(slots[..]) == if ok then View(old(slots[..]))[key := val] else View(old(slots[..]))
    {
      hide Find, Home, Fnv, View, Inv;
      ghost var was: Table := slots[..];
      var p := Look(key);
      match p {
        case Vacant(i) =>
          slots[i] := Slot(Stored(key), val, true);
          count := if count == U32 - 1 then 0 else count + 1;
          ok := true;
        case Hit(i) =>
          slots[i] := slots[i].(val := val);
          ok := true;
        case Exhausted => ok := false;
      }
      if old(Valid()) && |key| < KEYLEN {
        SetRefines(was, key, val);
        SearchExact(was, key);
        HashRuns.SoundIsDistinct(was);
        AddKey(View(was), key, val);
        HashRuns.ViewSize(slots[..]);
      }
    }

    method Del(key: Key) returns (ok: bool)
      requires Shaped()
      modifies this`count, slots
      ensures var was: Table := old(slots[..]);
              && (ok <==> HashSpec.Del(was, key).Some?)
              && slots[..] == if ok then HashSpec.Del(was, key).value else was
      ensures old(Valid()) ==>
                && (ok <==> key in View(old(slots[..])))
                && (!ok ==> Valid())
                && (ok ==>
                      var was: Table := old(slots[..]);
                      var i := Search(was, key).i;
                      && Distinct(slots[..]) && View(slots[..]) == View(was) - {key}
                      && count == |View(slots[..])|
                      && (Valid() <==> Uncrossed(was, i, Emptied(was, i))))
    {
      hide Find, Home, Fnv, View, Inv, Shift, Uncrossed, Emptied;
      ghost var was: Table := slots[..];
      var p := Look(key);
      if !p.Hit? {
        if old(Valid()) { DelExact(was, key); }
        return false;
      }
      ShiftBack(p.i);
      count := if count == 0 then U32 - 1 else count - 1;
      ok := true;
      if old(Valid()) {
        DelExact(was, key);
        HashRuns.SoundIsDistinct(was);
        RemoveOne(View(was), key);
      }
    }

    /** The shift loop of `riv_hash_del`. */
    method ShiftBack(start: nat)
      requires Shaped() && start < slots.Length
      modifies slots
      ensures slots[..] == Shift(old(slots[..]), start)
    {
      hide Fnv, Home;
      ghost var was: Table := slots[..];
      var hole: nat := start;
      while true
        invariant hole < slots.Length && Shift(slots[..], hole) == Shift(was, start)
        decreases Displacement(slots[..], hole)
      {
        ghost var t: Table := slots[..];
        MaskedNext(hole, k);
        var next := And(hole + 1, slots.Length - 1);
        if !slots[next].used {
          slots[hole] := slots[hole].(used := false);
          return;
        }
        var desired := HomeOf(slots[next].key);
        MayMoveExact(hole, desired, slots.Length);
        if MayMove(next, hole, desired) {
          MoveDescends(t, hole);
          slots[hole] := slots[next];
          assert slots[..] == Moved(t, hole);
          hole := next;
        } else {
          slots[hole] := slots[hole].(used := false);
          return;
        }
      }
    }

    method HomeOf(key: Key) returns (i: nat)
      requires Shaped()
      ensures i == Home(key, slots.Length)
    {
      var h := HashOf(key);
      MaskedHome(h as nat, k);
      i := And(h as nat, slots.Length - 1);
    }
  }

  lemma SearchExact(t: Table, key: Key)
    requires Inv(t)
    ensures Search(t, key).Hit? <==> key in View(t)
  {
    GetRefines(t, key);
  }

  lemma AddKey(m: map<Key, nat>, key: Key, val: nat)
    ensures |m[key := val]| == |m| + if key in m then 0 else 1
  {
    assert m[key := val].Keys == m.Keys + {key};
    assert |m[key := val]| == |m[key := val].Keys|;
    if key !in m {
      HashRuns.AddOne(m.Keys, key);
    } else {
      assert m.Keys + {key} == m.Keys;
    }
  }

  lemma RemoveOne(m: map<Key, nat>, key: Key)
    requires key in m
    ensures |m - {key}| == |m| - 1
  {
    var r := m - {key};
    AddKey(r, key, m[key]);
    assert r[key := m[key]] == m;
  }
}
