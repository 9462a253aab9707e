/** The write-back block cache of `buf.h` over a disk, as values. */
module BufSpec {
  import opened Basics

  type Byte = bv8
  type Data = seq<Byte>

  datatype Block = Block(lba: nat, data: Data, refs: nat, valid: bool, dirty: bool)

  /** The cached blocks, and the disk as a map from block address to contents. */
  datatype Cache = Cache(blocks: seq<Block>, disk: map<nat, Data>)

  /** `riv_buf_init` clears every field but the data. */
  predicate Cleared(bs: seq<Block>) {
    forall b | b in bs :: b.lba == 0 && b.refs == 0 && !b.valid && !b.dirty
  }

  predicate Holds(b: Block, lba: nat) {
    b.valid && b.lba == lba
  }

  predicate Evictable(b: Block) {
    b.refs == 0 && !b.dirty
  }

  /** The first block from `i` on that holds `lba`. */
  function Hit(bs: seq<Block>, lba: nat, i: nat): (r: nat)
    requires i <= |bs|
    ensures i <= r <= |bs| && (r < |bs| ==> Holds(bs[r], lba))
    ensures forall j | i <= j < r :: !Holds(bs[j], lba)
    decreases |bs| - i
  {
    if i == |bs| || Holds(bs[i], lba) then i else Hit(bs, lba, i + 1)
  }

  /** The first block from `i` on that is clean and unreferenced. */
  function Victim(bs: seq<Block>, i: nat): (r: nat)
    requires i <= |bs|
    ensures i <= r <= |bs| && (r < |bs| ==> Evictable(bs[r]))
    ensures forall j | i <= j < r :: !Evictable(bs[j])
    decreases |bs| - i
  {
    if i == |bs| || Evictable(bs[i]) then i else Victim(bs, i + 1)
  }

  /** What the read returns; the device may also fail on a block that exists. */
  function DiskRead(disk: map<nat, Data>, lba: nat, up: bool): Option<Data> {
    if up && lba in disk then Some(disk[lba]) else None
  }

  function Get(c: Cache, lba: nat, up: bool): (r: (Cache, Option<nat>))
    ensures |r.0.blocks| == |c.blocks| && (r.1.Some? ==> r.1.value < |c.blocks|)
  {
    var bs := c.blocks;
    var h, v := Hit(bs, lba, 0), Victim(bs, 0);
    if h < |bs| then (c.(blocks := bs[h := bs[h].(refs := (bs[h].refs + 1) % U32)]), Some(h))
    else if v == |bs| then (c, None)
    else match DiskRead(c.disk, lba, up)
      case None => (c, None)
      case Some(d) => (c.(blocks := bs[v := Block(lba, d, 1, true, false)]), Some(v))
  }

  function Release(c: Cache, i: nat): Cache
    requires i < |c.blocks|
  {
    var b := c.blocks[i];
    if b.refs > 0 then c.(blocks := c.blocks[i := b.(refs := b.refs - 1)]) else c
  }

  /** A holder of block `i` changes its data and calls `riv_buf_dirty`. */
  function Update(c: Cache, i: nat, d: Data): Cache
    requires i < |c.blocks|
  {
    c.(blocks := c.blocks[i := c.blocks[i].(data := d, dirty := true)])
  }

  /** Block `i` written back. */
  function Flushed(c: Cache, i: nat): (r: Cache)
    requires i < |c.blocks|
    ensures |r.blocks| == |c.blocks|
  {
    var b := c.blocks[i];
    Cache(c.blocks[i := b.(dirty := false)], c.disk[b.lba := b.data])
  }

  /** `riv_buf_sync` from block `i` on; `up[i]` says whether the device accepts the write of block `i`. */
  function Sync(c: Cache, i: nat, up: seq<bool>): (r: (Cache, bool))
    requires i <= |c.blocks| == |up|
    ensures |r.0.blocks| == |c.blocks|
    decreases |up| - i
  {
    if i == |up| then (c, true)
    else if !(c.blocks[i].valid && c.blocks[i].dirty) then Sync(c, i + 1, up)
    else if !up[i] then (c, false)
    else Sync(Flushed(c, i), i + 1, up)
  }
}

/** What the cache shows, and that only updates change it. */
module BufLaws {
  import opened Basics
  import opened BufSpec

  /** A valid cached block, else the disk's. */
  function Seen(c: Cache, lba: nat): Data
    requires lba in c.disk
  {
    var h := Hit(c.blocks, lba, 0);
    if h < |c.blocks| then c.blocks[h].data else c.disk[lba]
  }

  function View(c: Cache): map<nat, Data> {
    map lba | lba in c.disk :: Seen(c, lba)
  }

  /** At most one valid block per address. */
  ghost predicate Unique(bs: seq<Block>) {
    forall i, j | 0 <= i < j < |bs| && bs[i].valid && bs[j].valid :: bs[i].lba != bs[j].lba
  }

  ghost predicate BlockOk(b: Block, disk: map<nat, Data>) {
    && (b.valid ==> b.lba in disk && (!b.dirty ==> disk[b.lba] == b.data))
    && (b.dirty || b.refs > 0 ==> b.valid)
  }

  /** Unique addresses, clean blocks equal to the disk, and only valid blocks dirty or referenced. */
  ghost predicate Inv(c: Cache) {
    Unique(c.blocks) && forall i | 0 <= i < |c.blocks| :: BlockOk(c.blocks[i], c.disk)
  }

  lemma HitIs(bs: seq<Block>, i: nat)
    requires Unique(bs) && i < |bs| && bs[i].valid
    ensures Hit(bs, bs[i].lba, 0) == i
  {
    var h := Hit(bs, bs[i].lba, 0);
    assert h <= i;
  }

  /** Block `i` shows its own data, and a missing address shows the disk's. */
  lemma SeenIs(c: Cache, lba: nat, i: nat)
    requires Inv(c) && lba in c.disk && i <= |c.blocks|
    requires if i < |c.blocks| then Holds(c.blocks[i], lba) else forall j | 0 <= j < i :: !Holds(c.blocks[j], lba)
    ensures Seen(c, lba) == if i < |c.blocks| then c.blocks[i].data else c.disk[lba]
  {
    if i < |c.blocks| {
      HitIs(c.blocks, i);
    }
  }

  /** Changing block `i` without changing what it holds. */
  lemma SameView(c: Cache, i: nat, b: Block)
    requires Inv(c) && i < |c.blocks|
    requires b.lba == c.blocks[i].lba && b.data == c.blocks[i].data && b.valid == c.blocks[i].valid
    requires BlockOk(b, c.disk)
    ensures var r := c.(blocks := c.blocks[i := b]); Inv(r) && View(r) == View(c)
  {
    var r := c.(blocks := c.blocks[i := b]);
    assert forall j | 0 <= j < |r.blocks| ::
             r.blocks[j].valid == c.blocks[j].valid && r.blocks[j].lba == c.blocks[j].lba;
    assert forall j | 0 <= j < |r.blocks| :: r.blocks[j].data == c.blocks[j].data;
    forall lba | lba in c.disk ensures Seen(r, lba) == Seen(c, lba) {
      var h := Hit(c.blocks, lba, 0);
      assert forall j | 0 <= j < |r.blocks| :: Holds(r.blocks[j], lba) == Holds(c.blocks[j], lba);
      SeenIs(r, lba, h);
    }
  }

  lemma LoadSound(c: Cache, v: nat, lba: nat)
    requires Inv(c) && v < |c.blocks| && Evictable(c.blocks[v]) && lba in c.disk
    requires forall j | 0 <= j < |c.blocks| :: !Holds(c.blocks[j], lba)
    ensures Inv(c.(blocks := c.blocks[v := Block(lba, c.disk[lba], 1, true, false)]))
  {
    var r := c.(blocks := c.blocks[v := Block(lba, c.disk[lba], 1, true, false)]);
    assert forall j | 0 <= j < |c.blocks| && j != v :: r.blocks[j] == c.blocks[j];
  }

  /** Loading `lba` over a clean block. */
  lemma LoadKeeps(c: Cache, v: nat, lba: nat)
    requires Inv(c) && v < |c.blocks| && Evictable(c.blocks[v]) && lba in c.disk
    requires forall j | 0 <= j < |c.blocks| :: !Holds(c.blocks[j], lba)
    ensures var r := c.(blocks := c.blocks[v := Block(lba, c.disk[lba], 1, true, false)]);
            Inv(r) && View(r) == View(c)
  {
    hide Hit, Inv, Seen;
    var r := c.(blocks := c.blocks[v := Block(lba, c.disk[lba], 1, true, false)]);
    LoadSound(c, v, lba);
    BlockIs(c, v);
    forall x | x in c.disk ensures Seen(r, x) == Seen(c, x) {
      var g := Hit(c.blocks, x, 0);
      SeenIs(c, x, g);
      if x == lba {
        SeenIs(r, x, v);
      } else if g == v {
        assert forall j | 0 <= j < |r.blocks| :: !Holds(r.blocks[j], x) by { OnlyHolder(c, v, x); }
        SeenIs(r, x, |r.blocks|);
      } else {
        assert forall j | 0 <= j < |r.blocks| && j != v :: r.blocks[j] == c.blocks[j];
        assert !Holds(r.blocks[v], x);
        SeenIs(r, x, g);
      }
    }
  }

  lemma OnlyHolder(c: Cache, v: nat, x: nat)
    requires Inv(c) && v < |c.blocks| && Holds(c.blocks[v], x)
    ensures forall j | 0 <= j < |c.blocks| && j != v :: !Holds(c.blocks[j], x)
  {
  }

  lemma BlockIs(c: Cache, i: nat)
    requires Inv(c) && i < |c.blocks|
    ensures BlockOk(c.blocks[i], c.disk)
  {
  }

  /** `get` returns nothing exactly on a miss with no block to evict or a read that fails. */
  lemma GetFails(c: Cache, lba: nat, up: bool)
    ensures Get(c, lba, up).1.None? <==>
              && (forall j | 0 <= j < |c.blocks| :: !(c.blocks[j].valid && c.blocks[j].lba == lba))
              && (|| (forall j | 0 <= j < |c.blocks| :: c.blocks[j].refs > 0 || c.blocks[j].dirty)
                  || !up || lba !in c.disk)
    ensures Get(c, lba, up).1.None? ==> Get(c, lba, up).0 == c
  {
    var bs := c.blocks;
    var h, v := Hit(bs, lba, 0), Victim(bs, 0);
    assert forall j | 0 <= j < h :: !Holds(bs[j], lba);
    assert forall j | 0 <= j < v :: !Evictable(bs[j]);
    assert h < |bs| ==> Holds(bs[h], lba);
    assert v < |bs| ==> Evictable(bs[v]);
  }

  /** `get` changes nothing anyone can see, and the block it returns shows the address asked for. */
  lemma GetLaws(c: Cache, lba: nat, up: bool)
    requires Inv(c)
    ensures var (r, i) := Get(c, lba, up);
            && Inv(r) && r.disk == c.disk && View(r) == View(c)
            && (i.Some? ==>
                  lba in View(c) && Holds(r.blocks[i.value], lba) && r.blocks[i.value].data == View(c)[lba])
  {
    hide Inv, Hit, Victim;
    var bs := c.blocks;
    var h, v := Hit(bs, lba, 0), Victim(bs, 0);
    if h < |bs| {
      BlockIs(c, h);
      SameView(c, h, bs[h].(refs := (bs[h].refs + 1) % U32));
      SeenIs(c, lba, h);
    } else if v < |bs| && DiskRead(c.disk, lba, up).Some? {
      LoadKeeps(c, v, lba);
      SeenIs(c, lba, h);
    }
  }

  lemma ReleaseLaws(c: Cache, i: nat)
    requires Inv(c) && i < |c.blocks|
    ensures Inv(Release(c, i)) && View(Release(c, i)) == View(c)
  {
    var b := c.blocks[i];
    if b.refs > 0 {
      SameView(c, i, b.(refs := b.refs - 1));
    }
  }

  /** Writing a valid block changes the view at its own address and nowhere else, and not the disk. */
  lemma UpdateLaws(c: Cache, i: nat, d: Data)
    requires Inv(c) && i < |c.blocks| && c.blocks[i].valid
    ensures Inv(Update(c, i, d)) && Update(c, i, d).disk == c.disk
    ensures View(Update(c, i, d)) == View(c)[c.blocks[i].lba := d]
  {
    hide Hit;
    var r := Update(c, i, d);
    assert forall j | 0 <= j < |c.blocks| && j != i :: r.blocks[j] == c.blocks[j];
    assert forall j | 0 <= j < |c.blocks| ::
             r.blocks[j].lba == c.blocks[j].lba && r.blocks[j].valid == c.blocks[j].valid;
    assert Unique(r.blocks);
    forall x | x in c.disk ensures Seen(r, x) == if x == c.blocks[i].lba then d else Seen(c, x) {
      var h := Hit(c.blocks, x, 0);
      assert forall j | 0 <= j < |r.blocks| :: Holds(r.blocks[j], x) == Holds(c.blocks[j], x);
      SeenIs(r, x, h);
      if x == c.blocks[i].lba {
        HitIs(c.blocks, i);
      }
    }
  }

  lemma FlushLaws(c: Cache, i: nat)
    requires Inv(c) && i < |c.blocks| && c.blocks[i].valid
    ensures Inv(Flushed(c, i)) && View(Flushed(c, i)) == View(c)
  {
    hide Hit;
    var r := Flushed(c, i);
    var b := c.blocks[i];
    assert forall j | 0 <= j < |c.blocks| && j != i :: r.blocks[j] == c.blocks[j];
    assert r.disk.Keys == c.disk.Keys;
    forall j | 0 <= j < |r.blocks| ensures BlockOk(r.blocks[j], r.disk) {
      assert BlockOk(c.blocks[j], c.disk);
      assert j != i && r.blocks[j].valid ==> r.blocks[j].lba != b.lba;
    }
    assert Unique(r.blocks);
    forall x | x in c.disk ensures Seen(r, x) == Seen(c, x) {
      var h := Hit(c.blocks, x, 0);
      assert forall j | 0 <= j < |r.blocks| :: Holds(r.blocks[j], x) == Holds(c.blocks[j], x);
      SeenIs(r, x, h);
      if x == b.lba {
        HitIs(c.blocks, i);
      }
    }
  }

  ghost predicate CleanBefore(bs: seq<Block>, i: nat) {
    forall j | 0 <= j < i && j < |bs| :: !bs[j].dirty
  }

  /** `sync` never changes the view; when it succeeds nothing is dirty. */
  lemma {:induction false} SyncKeeps(c: Cache, i: nat, up: seq<bool>)
    requires Inv(c) && i <= |c.blocks| == |up| && CleanBefore(c.blocks, i)
    ensures var (r, ok) := Sync(c, i, up);
            Inv(r) && View(r) == View(c) && (ok ==> CleanBefore(r.blocks, |up|))
    decreases |up| - i
  {
    hide View, Inv;
    if i < |up| {
      DirtyIsValid(c, i);
      if !(c.blocks[i].valid && c.blocks[i].dirty) {
        SyncKeeps(c, i + 1, up);
      } else if up[i] {
        FlushLaws(c, i);
        SyncKeeps(Flushed(c, i), i + 1, up);
      }
    }
  }

  lemma DirtyIsValid(c: Cache, i: nat)
    requires Inv(c) && i < |c.blocks|
    ensures c.blocks[i].dirty ==> c.blocks[i].valid
  {
    assert BlockOk(c.blocks[i], c.disk);
  }

  /** A cache with nothing dirty shows the disk. */
  lemma CleanShowsDisk(c: Cache)
    requires Inv(c) && CleanBefore(c.blocks, |c.blocks|)
    ensures View(c) == c.disk
  {
    forall lba | lba in c.disk ensures Seen(c, lba) == c.disk[lba] {
      var h := Hit(c.blocks, lba, 0);
      assert h < |c.blocks| ==> BlockOk(c.blocks[h], c.disk) && !c.blocks[h].dirty;
    }
  }

  /** After a successful sync the disk is what the cache showed before it. */
  lemma SyncLaws(c: Cache, up: seq<bool>)
    requires Inv(c) && |up| == |c.blocks|
    ensures var (r, ok) := Sync(c, 0, up);
            Inv(r) && View(r) == View(c) && (ok ==> r.disk == View(c))
  {
    SyncKeeps(c, 0, up);
    var (r, ok) := Sync(c, 0, up);
    if ok {
      CleanShowsDisk(r);
    }
  }

  // ---------- what a sync that fails has written ----------

  /** A block that a sync must write. */
  predicate Due(b: Block) {
    b.valid && b.dirty
  }

  /** The device accepts every write due from block `k` to block `i`. */
  ghost predicate Accepted(bs: seq<Block>, up: seq<bool>, k: nat, i: nat) {
    |bs| == |up| && forall j | k <= j <= i && j < |bs| && Due(bs[j]) :: up[j]
  }

  ghost predicate Written(bs: seq<Block>, up: seq<bool>, k: nat, i: nat)
    requires i < |bs|
  {
    k <= i && Due(bs[i]) && Accepted(bs, up, k, i)
  }

  lemma AcceptedStep(bs: seq<Block>, up: seq<bool>, k: nat, i: nat, b: Block)
    requires k < |bs| == |up| && (Due(bs[k]) ==> up[k]) && k < i
    ensures Accepted(bs, up, k, i) <==> Accepted(bs[k := b], up, k + 1, i)
  {
  }

  lemma FlushBlocks(c: Cache, up: seq<bool>, k: nat, i: nat)
    requires k < |c.blocks| == |up| && up[k] && Due(c.blocks[k]) && i < |c.blocks|
    ensures Written(Flushed(c, k).blocks, up, k + 1, i) <==> i != k && Written(c.blocks, up, k, i)
    ensures Written(c.blocks, up, k, k)
    ensures Flushed(c, k).blocks[i] == if i == k then c.blocks[k].(dirty := false) else c.blocks[i]
  {
    if k < i {
      AcceptedStep(c.blocks, up, k, i, c.blocks[k].(dirty := false));
    }
  }

  lemma SkipBlocks(c: Cache, up: seq<bool>, k: nat, i: nat)
    requires k < |c.blocks| == |up| && !Due(c.blocks[k]) && i < |c.blocks|
    ensures Written(c.blocks, up, k + 1, i) <==> Written(c.blocks, up, k, i)
  {
  }

  /**
   The blocks after a sync: each one due, up to but not including the first that the device refuses, is
   clean; every other one is as it was. It succeeds exactly when the device refuses none.
   */
  lemma {:induction false} SyncBlocks(c: Cache, k: nat, up: seq<bool>, i: nat)
    requires k <= |c.blocks| == |up| && i < |c.blocks|
    ensures Sync(c, k, up).1 <==> Accepted(c.blocks, up, k, |up|)
    ensures Sync(c, k, up).0.blocks[i] ==
            if Written(c.blocks, up, k, i) then c.blocks[i].(dirty := false) else c.blocks[i]
    decreases |up| - k
  {
    hide Written;
    if k == |up| {
      assert !Written(c.blocks, up, k, i) by { Unwritten(c.blocks, up, k, i); }
    } else if !Due(c.blocks[k]) {
      SyncBlocks(c, k + 1, up, i);
      SkipBlocks(c, up, k, i);
    } else if up[k] {
      SyncBlocks(Flushed(c, k), k + 1, up, i);
      FlushBlocks(c, up, k, i);
      AcceptedStep(c.blocks, up, k, |up|, c.blocks[k].(dirty := false));
    } else {
      assert !Written(c.blocks, up, k, i) by { Unwritten(c.blocks, up, k, i); }
    }
  }

  lemma Unwritten(bs: seq<Block>, up: seq<bool>, k: nat, i: nat)
    requires |bs| == |up| && i < |bs| && (k < |bs| ==> Due(bs[k]) && !up[k])
    ensures !Written(bs, up, k, i)
  {
    if k <= i {
      assert !Accepted(bs, up, k, i);
    }
  }

  /** The disk after a sync: the data of each block written, and elsewhere what it had. */
  lemma {:induction false} SyncDisk(c: Cache, k: nat, up: seq<bool>, lba: nat)
    requires k <= |c.blocks| == |up| && Unique(c.blocks) && lba in c.disk
    ensures var d := Sync(c, k, up).0.disk;
            && lba in d
            && (forall i | 0 <= i < |up| && Written(c.blocks, up, k, i) && c.blocks[i].lba == lba ::
                  d[lba] == c.blocks[i].data)
            && ((forall i | 0 <= i < |up| && Written(c.blocks, up, k, i) :: c.blocks[i].lba != lba) ==>
                  d[lba] == c.disk[lba])
    decreases |up| - k
  {
    hide Written;
    if k == |up| {
      forall i | 0 <= i < |up| ensures !Written(c.blocks, up, k, i) { Unwritten(c.blocks, up, k, i); }
    } else if !Due(c.blocks[k]) {
      SyncDisk(c, k + 1, up, lba);
      forall i | 0 <= i < |up| ensures Written(c.blocks, up, k + 1, i) <==> Written(c.blocks, up, k, i) {
        SkipBlocks(c, up, k, i);
      }
    } else if up[k] {
      SyncDisk(Flushed(c, k), k + 1, up, lba);
      FlushedDisk(c, k, up, lba);
    } else {
      forall i | 0 <= i < |up| ensures !Written(c.blocks, up, k, i) { Unwritten(c.blocks, up, k, i); }
    }
  }

  lemma FlushedDisk(c: Cache, k: nat, up: seq<bool>, lba: nat)
    requires k < |c.blocks| == |up| && Unique(c.blocks) && Due(c.blocks[k]) && up[k] && lba in c.disk
    requires var f, d := Flushed(c, k), Sync(c, k, up).0.disk;
             && lba in d
             && (forall i | 0 <= i < |up| && Written(f.blocks, up, k + 1, i) && f.blocks[i].lba == lba ::
                   d[lba] == f.blocks[i].data)
             && ((forall i | 0 <= i < |up| && Written(f.blocks, up, k + 1, i) :: f.blocks[i].lba != lba) ==>
                   d[lba] == f.disk[lba])
    ensures var d := Sync(c, k, up).0.disk;
            && (forall i | 0 <= i < |up| && Written(c.blocks, up, k, i) && c.blocks[i].lba == lba ::
                  d[lba] == c.blocks[i].data)
            && ((forall i | 0 <= i < |up| && Written(c.blocks, up, k, i) :: c.blocks[i].lba != lba) ==>
                  d[lba] == c.disk[lba])
  {
    hide Written, Sync;
    var f := Flushed(c, k);
    forall i | 0 <= i < |up|
      ensures Written(f.blocks, up, k + 1, i) <==> i != k && Written(c.blocks, up, k, i)
      ensures Written(c.blocks, up, k, i) ==> c.blocks[i].valid
      ensures f.blocks[i].lba == c.blocks[i].lba && f.blocks[i].data == c.blocks[i].data
    {
      FlushBlocks(c, up, k, i);
      WrittenIsDue(c.blocks, up, k, i);
    }
    WrittenIsDue(c.blocks, up, k, k);
    FlushBlocks(c, up, k, k);
  }

  lemma WrittenIsDue(bs: seq<Block>, up: seq<bool>, k: nat, i: nat)
    requires i < |bs|
    ensures Written(bs, up, k, i) ==> Due(bs[i])
  {
  }

  /** A dirty block with this address comes before the first one that the device refuses. */
  ghost predicate Flushes(bs: seq<Block>, up: seq<bool>, lba: nat) {
    exists i | 0 <= i < |bs| :: Due(bs[i]) && bs[i].lba == lba && Accepted(bs, up, 0, i)
  }

  /**
   `riv_buf_sync` reports success exactly when the device accepts the write of every valid dirty block.
   Either way, each block before the first refused one is clean and on the disk, and each from there on,
   like the disk at every other address, is as it was.
   */
  lemma SyncExact(c: Cache, up: seq<bool>)
    requires Inv(c) && |up| == |c.blocks|
    ensures var (r, ok) := Sync(c, 0, up);
            && (ok <==> forall i | 0 <= i < |up| && c.blocks[i].valid && c.blocks[i].dirty :: up[i])
            && (forall i | 0 <= i < |up| && Accepted(c.blocks, up, 0, i) ::
                  && r.blocks[i] == c.blocks[i].(dirty := false)
                  && (c.blocks[i].valid ==> c.blocks[i].lba in r.disk && r.disk[c.blocks[i].lba] == c.blocks[i].data))
            && (forall i | 0 <= i < |up| && !Accepted(c.blocks, up, 0, i) :: r.blocks[i] == c.blocks[i])
            && (forall lba | lba in c.disk && !Flushes(c.blocks, up, lba) ::
                  lba in r.disk && r.disk[lba] == c.disk[lba])
  {
    hide Sync, Written, Accepted, View;
    var (r, ok) := Sync(c, 0, up);
    SyncSucceeds(c, up);
    forall i | 0 <= i < |up|
      ensures r.blocks[i] == if Accepted(c.blocks, up, 0, i) then c.blocks[i].(dirty := false) else c.blocks[i]
    {
      SyncBlocks(c, 0, up, i);
      DirtyIsValid(c, i);
      WrittenIs(c.blocks, up, i);
    }
    SyncLaws(c, up);
    forall i | 0 <= i < |up| && Accepted(c.blocks, up, 0, i) && c.blocks[i].valid
      ensures c.blocks[i].lba in r.disk && r.disk[c.blocks[i].lba] == c.blocks[i].data
    {
      BlockIs(r, i);
    }
    forall lba | lba in c.disk && !Flushes(c.blocks, up, lba) ensures lba in r.disk && r.disk[lba] == c.disk[lba] {
      SyncDisk(c, 0, up, lba);
      forall i | 0 <= i < |up| && Written(c.blocks, up, 0, i) ensures c.blocks[i].lba != lba {
        WrittenIs(c.blocks, up, i);
      }
    }
  }

  lemma WrittenIs(bs: seq<Block>, up: seq<bool>, i: nat)
    requires i < |bs|
    ensures Written(bs, up, 0, i) <==> Due(bs[i]) && Accepted(bs, up, 0, i)
  {
  }

  lemma SyncSucceeds(c: Cache, up: seq<bool>)
    requires |up| == |c.blocks|
    ensures Sync(c, 0, up).1 <==> forall i | 0 <= i < |up| && c.blocks[i].valid && c.blocks[i].dirty :: up[i]
  {
    hide Sync;
    if |up| == 0 {
      EmptySync(c);
    } else {
      SyncBlocks(c, 0, up, 0);
    }
  }

  lemma EmptySync(c: Cache)
    requires |c.blocks| == 0
    ensures Sync(c, 0, []).1
  {
  }
}

/** Every run of the cache's calls by holders of references. */
module BufRuns {
  import opened Basics
  import opened BufSpec
  import opened BufLaws

  datatype Call =
    | GetCall(lba: nat, up: bool)
    | ReleaseCall(i: nat)
    | UpdateCall(i: nat, d: Data)
    | SyncCall(ups: seq<bool>)

  /** The cache, and how many references to each block are out. */
  datatype State = State(c: Cache, held: seq<nat>)

  ghost predicate Sound(s: State) {
    && Inv(s.c) && |s.held| == |s.c.blocks|
    && forall i | 0 <= i < |s.held| :: s.c.blocks[i].refs == s.held[i] < U32
  }

  /** Blocks are released and written only by holders, and fewer than 2^32 references to one block are out. */
  ghost predicate Allowed(s: State, call: Call) {
    match call
    case GetCall(lba, _) =>
      var h := Hit(s.c.blocks, lba, 0);
      h < |s.held| ==> s.held[h] + 1 < U32
    case ReleaseCall(i) => i < |s.held| && s.held[i] > 0
    case UpdateCall(i, _) => i < |s.held| && s.held[i] > 0
    case SyncCall(up) => |up| == |s.held|
  }

  ghost function Step(s: State, call: Call): State
    requires Sound(s) && Allowed(s, call)
  {
    match call
    case GetCall(lba, up) =>
      var (c, r) := Get(s.c, lba, up);
      State(c, if r.Some? then s.held[r.value := s.held[r.value] + 1] else s.held)
    case ReleaseCall(i) => State(Release(s.c, i), s.held[i := s.held[i] - 1])
    case UpdateCall(i, d) => s.(c := Update(s.c, i, d))
    case SyncCall(up) => s.(c := Sync(s.c, 0, up).0)
  }

  /** What the calls leave to be seen: only updates count. */
  ghost function Shown(s: State, call: Call): map<nat, Data>
    requires Sound(s) && Allowed(s, call)
  {
    if call.UpdateCall? then View(s.c)[s.c.blocks[call.i].lba := call.d] else View(s.c)
  }

  /** Block `i` is still valid, or still not, for the same address. */
  predicate Same(c: Cache, r: Cache, i: nat) {
    && i < |c.blocks| == |r.blocks|
    && r.blocks[i].lba == c.blocks[i].lba && r.blocks[i].valid == c.blocks[i].valid
  }

  lemma {:induction false} SyncSame(c: Cache, k: nat, up: seq<bool>, i: nat)
    requires k <= |c.blocks| == |up| && i < |c.blocks|
    ensures Same(c, Sync(c, k, up).0, i) && Sync(c, k, up).0.blocks[i].refs == c.blocks[i].refs
    decreases |up| - k
  {
    if k < |up| {
      if !(c.blocks[k].valid && c.blocks[k].dirty) {
        SyncSame(c, k + 1, up, i);
      } else if up[k] {
        SyncSame(Flushed(c, k), k + 1, up, i);
      }
    }
  }

  lemma GetCounts(s: State, lba: nat, up: bool)
    requires Sound(s) && Allowed(s, GetCall(lba, up))
    ensures Sound(Step(s, GetCall(lba, up)))
    ensures forall i | 0 <= i < |s.held| && s.held[i] > 0 ::
              && Same(s.c, Step(s, GetCall(lba, up)).c, i) && Step(s, GetCall(lba, up)).held[i] >= s.held[i]
  {
    hide Inv, View;
    GetLaws(s.c, lba, up);
    GetFails(s.c, lba, up);
    var h, v := Hit(s.c.blocks, lba, 0), Victim(s.c.blocks, 0);
  }

  /**
   Each call keeps the invariant and shows what it should, and no call gives a referenced block to
   another address.
   */
  lemma StepLaws(s: State, call: Call)
    requires Sound(s) && Allowed(s, call)
    ensures Sound(Step(s, call)) && View(Step(s, call).c) == Shown(s, call)
    ensures forall i | 0 <= i < |s.held| && s.held[i] > 0 ::
              && Same(s.c, Step(s, call).c, i)
              && |Step(s, call).held| == |s.held|
              && (call != ReleaseCall(i) ==> Step(s, call).held[i] >= s.held[i])
  {
    hide Inv, View, Get, Sync, Hit;
    match call
    case GetCall(lba, up) =>
      GetCounts(s, lba, up);
      GetLaws(s.c, lba, up);
    case ReleaseCall(i) => ReleaseLaws(s.c, i);
    case UpdateCall(i, d) =>
      BlockIs(s.c, i);
      UpdateLaws(s.c, i, d);
    case SyncCall(up) =>
      SyncLaws(s.c, up);
      forall i | 0 <= i < |s.held|
        ensures Same(s.c, Step(s, call).c, i) && Step(s, call).c.blocks[i].refs == s.held[i]
      {
        SyncSame(s.c, 0, up, i);
      }
  }

  ghost predicate Legal(s: State, calls: seq<Call>)
    requires Sound(s)
    decreases |calls|
  {
    calls == [] || (Allowed(s, calls[0]) && (StepLaws(s, calls[0]); Legal(Step(s, calls[0]), calls[1..])))
  }

  ghost function Run(s: State, calls: seq<Call>): State
    requires Sound(s) && Legal(s, calls)
    decreases |calls|
  {
    if calls == [] then s else (StepLaws(s, calls[0]); Run(Step(s, calls[0]), calls[1..]))
  }

  /** The updates of a run, in order, with the address each one wrote. */
  ghost function Writes(s: State, calls: seq<Call>): seq<(nat, Data)>
    requires Sound(s) && Legal(s, calls)
    decreases |calls|
  {
    if calls == [] then []
    else
      StepLaws(s, calls[0]);
      (if calls[0].UpdateCall? then [(s.c.blocks[calls[0].i].lba, calls[0].d)] else [])
      + Writes(Step(s, calls[0]), calls[1..])
  }

  function Applied(m: map<nat, Data>, ws: seq<(nat, Data)>): map<nat, Data>
    decreases |ws|
  {
    if ws == [] then m else Applied(m[ws[0].0 := ws[0].1], ws[1..])
  }

  /**
   After any run the cache shows the first view with the updates applied in order: evictions, misses,
   failed reads and writes and partial syncs leave no trace. A block someone holds throughout keeps its address.
   */
  lemma {:induction false} RunLaws(s: State, calls: seq<Call>, i: nat)
    requires Sound(s) && Legal(s, calls)
    ensures Sound(Run(s, calls)) && View(Run(s, calls).c) == Applied(View(s.c), Writes(s, calls))
    ensures i < |s.held| && s.held[i] > 0 && ReleaseCall(i) !in calls ==> Same(s.c, Run(s, calls).c, i)
    decreases |calls|
  {
    hide Sound, View, Step, Hit;
    SoundSizes(s);
    if calls != [] {
      var s' := Step(s, calls[0]);
      StepLaws(s, calls[0]);
      RunLaws(s', calls[1..], i);
      var ws := Writes(s', calls[1..]);
      if calls[0].UpdateCall? {
        var w := (s.c.blocks[calls[0].i].lba, calls[0].d);
        assert Writes(s, calls) == [w] + ws && ([w] + ws)[1..] == ws;
      } else {
        assert [] + ws == ws;
      }
      if i < |s.held| && s.held[i] > 0 && ReleaseCall(i) !in calls {
        assert calls[0] != ReleaseCall(i);
        assert Same(s.c, s'.c, i) && s'.held[i] > 0;
        assert ReleaseCall(i) !in calls[1..];
      }
    }
  }

  lemma SoundSizes(s: State)
    requires Sound(s)
    ensures |s.held| == |s.c.blocks|
  {
  }

  /**
   Durability. After any run, a sync succeeds exactly when the device accepts the write of every dirty
   block there is, and then the disk holds the first view with all the updates of the run, in order.
   */
  lemma SyncedRun(s: State, calls: seq<Call>, up: seq<bool>)
    requires Sound(s) && Legal(s, calls) && |up| == |s.held|
    ensures var t := Run(s, calls);
            && |t.c.blocks| == |up|
            && var (r, ok) := Sync(t.c, 0, up);
            && (ok <==> forall i | 0 <= i < |up| && t.c.blocks[i].valid && t.c.blocks[i].dirty :: up[i])
            && (ok ==> r.disk == Applied(View(s.c), Writes(s, calls)))
  {
    hide Legal, Run, Writes, View, Inv, Sync;
    var t := Run(s, calls);
    RunLaws(s, calls, 0);
    RunSize(s, calls);
    SyncSucceeds(t.c, up);
    SyncLaws(t.c, up);
  }

  lemma {:induction false} RunSize(s: State, calls: seq<Call>)
    requires Sound(s) && Legal(s, calls)
    ensures |Run(s, calls).held| == |s.held|
    decreases |calls|
  {
    if calls != [] {
      StepLaws(s, calls[0]);
      StepSize(s, calls[0]);
      RunSize(Step(s, calls[0]), calls[1..]);
    }
  }

  lemma StepSize(s: State, call: Call)
    requires Sound(s) && Allowed(s, call)
    ensures |Step(s, call).held| == |s.held|
  {
  }

  /** An initialised cache shows the disk. */
  lemma Fresh(bs: seq<Block>, disk: map<nat, Data>)
    requires Cleared(bs)
    ensures Sound(State(Cache(bs, disk), seq(|bs|, i => 0))) && View(Cache(bs, disk)) == disk
  {
    var c := Cache(bs, disk);
    assert forall i | 0 <= i < |bs| :: bs[i] in bs;
    CleanShowsDisk(c);
  }
}

/** `buf.h` as code. */
module Buf {
  import opened Basics
  import BufRuns
  import opened BufSpec
  import opened BufLaws

  const BLOCKS := 32

  class BufCache {
    const blocks: array<Block>
    var disk: map<nat, Data>

    ghost predicate Valid()
      reads this, blocks
    {
      blocks.Length == BLOCKS && Inv(Snapshot())
    }

    ghost function Snapshot(): Cache
      reads this, blocks
    {
      Cache(blocks[..], disk)
    }

    /** `riv_buf_init`; the data fields keep whatever they held. */
    constructor (blocks: array<Block>, disk: map<nat, Data>)
      requires blocks.Length == BLOCKS
      modifies blocks
      ensures this.blocks == blocks && Valid() && Cleared(blocks[..]) && View(Snapshot()) == disk
    {
      this.blocks, this.disk := blocks, disk;
      new;
      var i := 0;
      while i < BLOCKS
        invariant 0 <= i <= BLOCKS && Cleared(blocks[..i])
        modifies blocks
      {
        blocks[i] := Block(0, blocks[i].data, 0, false, false);
        assert blocks[..i + 1] == blocks[..i] + [blocks[i]];
        i := i + 1;
      }
      assert blocks[..i] == blocks[..];
      BufRuns.Fresh(blocks[..], disk);
    }

    /** `riv_buf_get`; `up` is the device's answer if a read is needed. The result is a block index. */
    method Get(lba: nat, up: bool) returns (out: Option<nat>)
      requires Valid()
      modifies blocks
      ensures Valid() && (Snapshot(), out) == BufSpec.Get(old(Snapshot()), lba, up)
      ensures View(Snapshot()) == old(View(Snapshot()))
      ensures out.Some? ==>
                && out.value < blocks.Length && lba in View(Snapshot())
                && Holds(blocks[out.value], lba) && blocks[out.value].data == View(Snapshot())[lba]
    {
      hide Inv, View;
      ghost var was := Snapshot();
      GetLaws(was, lba, up);
      var i: nat := 0;
      while i < BLOCKS
        invariant i <= BLOCKS && Snapshot() == was && Hit(was.blocks, lba, i) == Hit(was.blocks, lba, 0)
        modifies {}
      {
        if blocks[i].valid && blocks[i].lba == lba { break; }
        i := i + 1;
      }
      if i < BLOCKS {
        blocks[i] := blocks[i].(refs := (blocks[i].refs + 1) % U32);
        return Some(i);
      }
      i := 0;
      while i < BLOCKS
        invariant i <= BLOCKS && Snapshot() == was && Victim(was.blocks, i) == Victim(was.blocks, 0)
        modifies {}
      {
        if blocks[i].refs == 0 && !blocks[i].dirty { break; }
        i := i + 1;
      }
      if i == BLOCKS { return None; }
      match DiskRead(disk, lba, up)
      case None => return None;
      case Some(d) =>
        blocks[i] := Block(lba, d, 1, true, false);
        return Some(i);
    }

    method Release(i: nat)
      requires Valid() && i < blocks.Length
      modifies blocks
      ensures Valid() && Snapshot() == BufSpec.Release(old(Snapshot()), i) && View(Snapshot()) == old(View(Snapshot()))
    {
      hide Inv, View;
      ReleaseLaws(Snapshot(), i);
      if blocks[i].refs > 0 {
        blocks[i] := blocks[i].(refs := blocks[i].refs - 1);
      }
    }

    /** A holder stores new data in its block and calls `riv_buf_dirty`. */
    method Update(i: nat, d: Data)
      requires Valid() && i < blocks.Length && blocks[i].valid
      modifies blocks
      ensures Valid() && Snapshot() == BufSpec.Update(old(Snapshot()), i, d)
      ensures View(Snapshot()) == old(View(Snapshot()))[blocks[i].lba := d]
    {
      hide Inv, View;
      ghost var was := Snapshot();
      UpdateLaws(was, i, d);
      blocks[i] := blocks[i].(data := d);
      blocks[i] := blocks[i].(dirty := true);
      assert Snapshot() == BufSpec.Update(was, i, d);
    }

    /** `riv_buf_sync`; `up[i]` is the device's answer to the write of block `i`. */
    method Sync(up: seq<bool>) returns (ok: bool)
      requires Valid() && |up| == BLOCKS
      modifies this`disk, blocks
      ensures Valid() && (Snapshot(), ok) == BufSpec.Sync(old(Snapshot()), 0, up)
      ensures View(Snapshot()) == old(View(Snapshot()))
      ensures ok ==> disk == View(Snapshot())
      ensures ok <==> forall i | 0 <= i < BLOCKS && old(blocks[i].valid) && old(blocks[i].dirty) :: up[i]
    {
      hide Inv, View;
      ghost var was := Snapshot();
      SyncLaws(was, up);
      SyncSucceeds(was, up);
      var i: nat := 0;
      while i < BLOCKS
        invariant i <= BLOCKS && BufSpec.Sync(Snapshot(), i, up) == BufSpec.Sync(was, 0, up)
      {
        if blocks[i].valid && blocks[i].dirty {
          if !up[i] { return false; }
          ghost var before := Snapshot();
          disk := disk[blocks[i].lba := blocks[i].data];
          blocks[i] := blocks[i].(dirty := false);
          assert Snapshot() == Flushed(before, i);
        }
        i := i + 1;
      }
      return true;
    }
  }
}
