/** What a dataset finds under its chunk keys when its file is created again. No chunk object is
    removed by that, so a dataset that gets an earlier one's oid starts on the earlier bytes. */
module Recreation {
  import opened Codec
  import opened Keys
  import opened Grid
  import opened Dataspace
  import opened FlatArray
  import opened ArrayHistory
  import Ids = ObjectIds

  /** Byte i of point p of one dataset is kept where byte j of point q of another is. */
  ghost predicate SamePlace(ds: Dset, p: Coord, i: nat, was: Dset, q: Coord, j: nat) {
    && ds.Valid() && InExtent(p, ds.dims) && i < ds.typeSize
    && was.Valid() && InExtent(q, was.dims) && j < was.typeSize
    && ChunkOf(p, GridOf(ds)) == ChunkOf(q, GridOf(was)) && Place(ds, p, i) == Place(was, q, j)
  }

  lemma SameByte(objs: Objects, ds: Dset, p: Coord, i: nat, was: Dset, q: Coord, j: nat)
    requires SamePlace(ds, p, i, was, q, j) && SameDataset(ds, was)
    ensures DatasetByte(objs, ds, p, i) == DatasetByte(objs, was, q, j)
  {
    CornerLocOk(ds, p);
    CornerLocOk(was, q);
    assert KeyAt(ds, ChunkOf(p, GridOf(ds))) == KeyAt(was, ChunkOf(q, GridOf(was)));
  }

  ghost predicate Selects(c: WriteCall, ds: Dset, p: Coord) {
    SameDataset(c.ds, ds) && p in c.file.pts
  }

  ghost predicate Unwritten(calls: seq<WriteCall>, ds: Dset, p: Coord) {
    forall n :: 0 <= n < |calls| ==> !Selects(calls[n], ds, p)
  }

  /** Call n is the last that writes the point. */
  ghost predicate LastSelecting(calls: seq<WriteCall>, ds: Dset, p: Coord, n: nat) {
    n < |calls| && Selects(calls[n], ds, p) && forall m :: n < m < |calls| ==> !Selects(calls[m], ds, p)
  }

  /** What a write that selects the point leaves in its byte b. */
  ghost function LeftBy(c: WriteCall, ds: Dset, p: Coord, b: nat): byte
    requires c.Valid() && Selects(c, ds, p) && c.ds.(writable := ds.writable) == ds && b < ds.typeSize
  {
    MemValue(c.mem, ds.typeSize, c.buf, IndexOf(c.file.pts, p), b)
  }

  /** There is a last write to the point, and it left something other than zero in its byte b. */
  ghost predicate LeftNonZero(calls: seq<WriteCall>, ds: Dset, p: Coord, b: nat)
    requires b < ds.typeSize && OneDescription(calls, ds) && forall n :: 0 <= n < |calls| ==> calls[n].Valid()
  {
    exists n: nat :: LastSelecting(calls, ds, p, n) && LeftBy(calls[n], ds, p, b) != 0
  }

  lemma {:induction false} LatestUnwritten(calls: seq<WriteCall>, initial: Objects, ds: Dset, p: Coord, b: nat)
    requires ds.Valid() && InExtent(p, ds.dims) && b < ds.typeSize && Unwritten(calls, ds, p)
    requires OneDescription(calls, ds) && forall n :: 0 <= n < |calls| ==> calls[n].Valid()
    ensures Latest(calls, initial, ds, p, b) == DatasetByte(initial, ds, p, b)
  {
    hide DatasetByte, MemValue;
    if calls != [] {
      var n := |calls| - 1;
      assert !Selects(calls[n], ds, p);
      assert forall m :: 0 <= m < n ==> calls[..n][m] == calls[m];
      LatestUnwritten(calls[..n], initial, ds, p, b);
    }
  }

  lemma LastSelectingShorter(calls: seq<WriteCall>, ds: Dset, p: Coord, n: nat)
    requires calls != [] && !Selects(calls[|calls| - 1], ds, p)
    ensures LastSelecting(calls, ds, p, n) <==> LastSelecting(calls[..|calls| - 1], ds, p, n)
  {
    hide Selects;
    var init := calls[..|calls| - 1];
    assert forall m :: 0 <= m < |init| ==> init[m] == calls[m];
  }

  lemma LeftNonZeroStep(calls: seq<WriteCall>, ds: Dset, p: Coord, b: nat)
    requires b < ds.typeSize && OneDescription(calls, ds) && forall n :: 0 <= n < |calls| ==> calls[n].Valid()
    requires calls != []
    ensures var c, init := calls[|calls| - 1], calls[..|calls| - 1];
      && OneDescription(init, ds) && (forall n :: 0 <= n < |init| ==> init[n].Valid())
      && (LeftNonZero(calls, ds, p, b) <==>
            if Selects(c, ds, p) then LeftBy(c, ds, p, b) != 0 else LeftNonZero(init, ds, p, b))
  {
    var n: nat := |calls| - 1;
    var init := calls[..n];
    hide LeftBy, WriteCall.Valid, LastSelecting;
    assert forall m :: 0 <= m < n ==> init[m] == calls[m];
    if Selects(calls[n], ds, p) {
      OnlyTheLast(calls, ds, p);
    } else {
      forall m: nat ensures LastSelecting(calls, ds, p, m) <==> LastSelecting(init, ds, p, m) {
        LastSelectingShorter(calls, ds, p, m);
      }
      assert forall m: nat :: LastSelecting(init, ds, p, m) ==> m < n by {
        OnlyInside(init, ds, p);
      }
    }
  }

  lemma OnlyTheLast(calls: seq<WriteCall>, ds: Dset, p: Coord)
    requires calls != [] && Selects(calls[|calls| - 1], ds, p)
    ensures forall n: nat :: LastSelecting(calls, ds, p, n) <==> n == |calls| - 1
  {
    hide Selects;
  }

  lemma OnlyInside(calls: seq<WriteCall>, ds: Dset, p: Coord)
    ensures forall n: nat :: LastSelecting(calls, ds, p, n) ==> n < |calls| && Selects(calls[n], ds, p)
  {
    hide Selects;
  }

  /** From an empty store, a byte of the flat array differs from zero exactly if the last write to
      its point left something else there. */
  lemma {:induction false} LatestNonZero(calls: seq<WriteCall>, ds: Dset, p: Coord, b: nat)
    requires ds.Valid() && InExtent(p, ds.dims) && b < ds.typeSize
    requires OneDescription(calls, ds) && forall n :: 0 <= n < |calls| ==> calls[n].Valid()
    ensures Latest(calls, map[], ds, p, b) != 0 <==> LeftNonZero(calls, ds, p, b)
  {
    if calls == [] {
      CornerLocOk(ds, p);
    } else {
      var n: nat := |calls| - 1;
      LeftNonZeroStep(calls, ds, p, b);
      if !Selects(calls[n], ds, p) {
        LatestNonZero(calls[..n], ds, p, b);
      }
      hide DatasetByte, MemValue, LeftNonZero, OneDescription, WriteCall.Valid;
    }
  }

  /** After `k` writes with the handles `was` the file is created again, and `ds` is a dataset with
      the same oid, of any extent, layout and type. A byte of `ds` whose point has not been written
      since is the byte that the dataset before it had last at that place. */
  lemma UnwrittenIsOld(calls: seq<WriteCall>, stores: seq<Objects>, k: nat, ds: Dset, p: Coord, i: nat,
                       was: Dset, q: Coord, j: nat)
    requires History(calls, stores) && k <= |calls|
    requires SameDataset(ds, was) && SamePlace(ds, p, i, was, q, j)
    requires OneDescription(calls[..k], was) && OneDescription(calls[k..], ds) && Unwritten(calls[k..], ds, p)
    ensures forall n :: 0 <= n < k ==> calls[..k][n].Valid()
    ensures DatasetByte(stores[|calls|], ds, p, i) == Latest(calls[..k], stores[0], was, q, j)
  {
    HistorySplits(calls, stores, k);
    LastWriteWins(calls[..k], stores[..k + 1], was, q, j);
    LastWriteWins(calls[k..], stores[k..], ds, p, i);
    LatestUnwritten(calls[k..], stores[k], ds, p, i);
    SameByte(stores[k], ds, p, i, was, q, j);
    hide *;
  }

  lemma HistorySplits(calls: seq<WriteCall>, stores: seq<Objects>, k: nat)
    requires History(calls, stores) && k <= |calls|
    ensures History(calls[..k], stores[..k + 1]) && History(calls[k..], stores[k..])
    ensures stores[..k + 1][0] == stores[0] && stores[..k + 1][k] == stores[k]
    ensures stores[k..][0] == stores[k] && stores[k..][|calls| - k] == stores[|calls|]
    ensures |calls[..k]| == k && |calls[k..]| == |calls| - k
  {
    hide WriteCall.Done, WriteCall.Valid;
    var first, rest := calls[..k], calls[k..];
    forall n | 0 <= n < k
      ensures first[n].Valid() && first[n].Done(stores[..k + 1][n], stores[..k + 1][n + 1])
    {
      assert first[n] == calls[n];
    }
    forall n | 0 <= n < |rest|
      ensures rest[n].Valid() && rest[n].Done(stores[k..][n], stores[k..][n + 1])
    {
      assert rest[n] == calls[k + n];
    }
  }

  /** Two datasets of one file whose places in their contents agree modulo 2^62 share their chunks,
      so a byte of the later one that was never written is not zero exactly if the last write to
      that place before the re-creation left it so. */
  lemma StaleIff(calls: seq<WriteCall>, stores: seq<Objects>, k: nat, ds: Dset, p: Coord, i: nat,
                 was: Dset, q: Coord, j: nat, now: Ids.Made, before: Ids.Made)
    requires History(calls, stores) && stores[0] == map[] && k <= |calls|
    requires Ids.Placed(now) && Ids.Placed(before) && now.kind == before.kind
    requires now.order % IDX_LIMIT == before.order % IDX_LIMIT
    requires ds.file == was.file && ds.oid == now.oid && was.oid == before.oid
    requires SamePlace(ds, p, i, was, q, j)
    requires OneDescription(calls[..k], was) && OneDescription(calls[k..], ds) && Unwritten(calls[k..], ds, p)
    ensures forall n :: 0 <= n < k ==> calls[..k][n].Valid()
    ensures DatasetByte(stores[|calls|], ds, p, i) != 0 <==> LeftNonZero(calls[..k], was, q, j)
  {
    Ids.SharedIff(now, before);
    UnwrittenIsOld(calls, stores, k, ds, p, i, was, q, j);
    LatestNonZero(calls[..k], was, q, j);
    hide *;
  }

  /** In a dataset of the same extent, layout and element size every place is its own. */
  lemma SameLayoutSamePlace(ds: Dset, p: Coord, b: nat, was: Dset)
    requires ds.Valid() && was.Valid() && InExtent(p, ds.dims) && b < ds.typeSize
    requires ds.dims == was.dims && ds.layout == was.layout && ds.typeSize == was.typeSize
    ensures SamePlace(ds, p, b, was, p, b)
  {
    assert GridOf(ds) == GridOf(was);
  }
}
