/** The counter behind object ids: per-rank file structs that count together without talking to
    each other, and the stored maximum that carries the count from session to session. */
module ObjectIds {
  import opened Codec
  import opened Keys
  import Namespace

  /** What one rank knows about the file: whether it has it open and for writing, the largest
      index used so far, and whether that is newer than the stored one. */
  datatype Local = Local(open: bool, writable: bool, maxOid: uint64, dirty: bool)

  const CLOSED := Local(false, false, 0, false)

  // ----- what each call does to the struct of one rank -----

  /** A collective object creation: every rank counts, only the leader marks the count dirty. */
  function AfterNewObject(l: Local, t: ObjType, leader: bool): (r: (Local, uint64)) {
    var oid := BinaryOid(l.maxOid + 1, t);
    (l.(maxOid := OidToIdx(oid), dirty := l.dirty || leader), oid)
  }

  /** File creation counts the root group as the first object. */
  function AfterCreate(leader: bool): (Local, uint64) {
    AfterNewObject(Local(true, true, 0, false), Group, leader)
  }

  /** A flush stores the maximum if the file is writable and the count is dirty. */
  function AfterFlush(l: Local, stored: seq<byte>): (Local, seq<byte>) {
    if l.writable && l.dirty then (l.(dirty := false), Le64(l.maxOid)) else (l, stored)
  }

  /** The root group of new contents has the oid where absolute paths start. */
  lemma RootIsFirst(leader: bool)
    ensures AfterCreate(leader).1 == Namespace.ROOT_OID == 1
  {
  }

  /** The file struct. */
  class FileObj {
    var open: bool
    var writable: bool
    var maxOid: uint64
    var maxOidDirty: bool
    const myRank: nat

    constructor (myRank: nat)
      ensures this.myRank == myRank && View() == CLOSED
    {
      this.myRank := myRank;
      open, writable, maxOid, maxOidDirty := false, false, 0, false;
    }

    ghost function View(): Local
      reads this
    {
      Local(open, writable, maxOid, maxOidDirty)
    }

    /** The oid part of group and dataset creation in collective mode. */
    method NewObject(t: ObjType) returns (oid: uint64)
      modifies this
      ensures (View(), oid) == AfterNewObject(old(View()), t, myRank == 0)
    {
      oid := BinaryOid(maxOid + 1, t);
      maxOid := OidToIdx(oid);
      if myRank == 0 {
        maxOidDirty := true;
      }
    }

    method Create() returns (rootOid: uint64)
      modifies this
      ensures (View(), rootOid) == AfterCreate(myRank == 0)
    {
      open, writable := true, true;
      maxOid, maxOidDirty := 0, false;
      rootOid := NewObject(Group);
    }

    /** Writes the maximum to the global metadata object, if needed. */
    method Flush(stored: seq<byte>) returns (stored': seq<byte>)
      modifies this
      ensures (View(), stored') == AfterFlush(old(View()), stored)
    {
      stored' := stored;
      if !writable {
        return;
      }
      if maxOidDirty {
        var wbuf := new byte[8];
        assert wbuf[..0] == [] && wbuf[8..] == [];
        var p := Uint64Encode(wbuf, 0, maxOid);
        stored' := wbuf[..];
        assert stored' == Le64(maxOid);
        maxOidDirty := false;
      }
    }

    method Close(stored: seq<byte>) returns (stored': seq<byte>)
      modifies this
      ensures stored' == AfterFlush(old(View()), stored).1 && View() == CLOSED
    {
      stored' := Flush(stored);
      open, writable, maxOid, maxOidDirty := false, false, 0, false;
    }

    /** Opening: the leader decodes the stored maximum, a follower the one it is sent. */
    method Open(rdwr: bool, foi: array<byte>)
      requires foi.Length >= 8
      modifies this
      ensures View() == Local(true, rdwr, Nat64(foi[..8]), false)
    {
      var p;
      maxOid, p := Uint64Decode(foi, 0);
      assert foi[0..8] == foi[..8];
      open, writable, maxOidDirty := true, rdwr, false;
    }
  }

  // ----- all ranks of a program, at their own pace -----

  /** A collective program: every rank issues the same calls in the same order. */
  datatype Call = CreateFile | OpenFile(rdwr: bool) | CloseFile | FlushFile | NewObject(t: ObjType)

  /** The file is created before anything else, and may be created again later, which starts its
      contents over. */
  ghost predicate Program(script: seq<Call>) {
    script != [] && script[0].CreateFile?
  }

  /** An object that was created: its oid and kind, how often the file had been created again by
      then, and how many objects its contents already had. */
  datatype Made = Made(oid: uint64, kind: ObjType, era: nat, order: nat)

  /** Each rank's position in the program and its file struct; the stored maximum; the values the
      leader has broadcast when opening; the objects the leader has created. */
  datatype World = World(pos: seq<nat>, files: seq<Local>, stored: seq<byte>, sent: seq<uint64>, made: seq<Made>)

  /** How many objects the present contents have. */
  function CountNow(made: seq<Made>): nat {
    if made == [] then 0 else made[|made| - 1].order + 1
  }

  /** The objects with one more, the root group of contents that start over. */
  function Restarted(made: seq<Made>, oid: uint64): seq<Made> {
    made + [Made(oid, Group, if made == [] then 0 else made[|made| - 1].era + 1, 0)]
  }

  /** The objects with one more of the present contents. */
  function Extended(made: seq<Made>, oid: uint64, kind: ObjType): seq<Made> {
    made + [Made(oid, kind, if made == [] then 0 else made[|made| - 1].era, CountNow(made))]
  }

  /** A call on a closed file, a creation on a read-only file, creating or opening an open file:
      refused. */
  predicate Refused(l: Local, c: Call) {
    match c
    case CreateFile => l.open
    case OpenFile(_) => l.open
    case CloseFile => !l.open
    case FlushFile => !l.open
    case NewObject(_) => !l.open || !l.writable
  }

  /** The leader's next call. */
  function LeaderStep(w: World, c: Call): World
    requires |w.files| == |w.pos| > 0
  {
    var l, next := w.files[0], w.pos[0] + 1;
    if Refused(l, c) then w.(pos := w.pos[0 := next])
    else
      match c
      case CreateFile =>
        var (l', oid) := AfterCreate(true);
        w.(pos := w.pos[0 := next], files := w.files[0 := l'], made := Restarted(w.made, oid))
      case NewObject(t) =>
        var (l', oid) := AfterNewObject(l, t, true);
        w.(pos := w.pos[0 := next], files := w.files[0 := l'], made := Extended(w.made, oid, t))
      case FlushFile =>
        var (l', stored') := AfterFlush(l, w.stored);
        w.(pos := w.pos[0 := next], files := w.files[0 := l'], stored := stored')
      case CloseFile =>
        w.(pos := w.pos[0 := next], files := w.files[0 := CLOSED], stored := AfterFlush(l, w.stored).1)
      case OpenFile(rdwr) =>
        if |w.stored| != 8 then w.(pos := w.pos[0 := next])
        else
          var m := Nat64(w.stored);
          w.(pos := w.pos[0 := next], files := w.files[0 := Local(true, rdwr, m, false)], sent := w.sent + [m])
  }

  /** How many broadcasts a rank has received when it stands at position p. */
  ghost function Received(script: seq<Call>, p: nat): nat
    requires p <= |script|
  {
    |Sequential(script, p).sent|
  }

  /** A follower's next call can be made: opening waits for the leader's broadcast. */
  ghost predicate CanCall(script: seq<Call>, p: nat, l: Local, sent: seq<uint64>)
    requires p < |script|
  {
    script[p].OpenFile? && !Refused(l, script[p]) ==> Received(script, p) < |sent|
  }

  /** What a follower's next call does to its file struct and to the store. */
  ghost function FollowerCall(script: seq<Call>, p: nat, l: Local, sent: seq<uint64>, stored: seq<byte>): (Local, seq<byte>)
    requires p < |script| && CanCall(script, p, l, sent)
  {
    if Refused(l, script[p]) then (l, stored)
    else
      match script[p]
      case CreateFile => (AfterCreate(false).0, stored)
      case NewObject(t) => (AfterNewObject(l, t, false).0, stored)
      case FlushFile => AfterFlush(l, stored)
      case CloseFile => (CLOSED, AfterFlush(l, stored).1)
      case OpenFile(rdwr) => (Local(true, rdwr, sent[Received(script, p)], false), stored)
  }

  ghost predicate FollowerStep(script: seq<Call>, w: World, r: nat, w': World)
    requires |w.files| == |w.pos| && 0 < r < |w.pos| && w.pos[r] < |script|
  {
    var p := w.pos[r];
    && CanCall(script, p, w.files[r], w.sent)
    && var (l', stored') := FollowerCall(script, p, w.files[r], w.sent, w.stored);
       w' == w.(pos := w.pos[r := p + 1], files := w.files[r := l'], stored := stored')
  }

  ghost predicate Step(script: seq<Call>, w: World, r: nat, w': World) {
    && |w.files| == |w.pos| && r < |w.pos| && w.pos[r] < |script|
    && if r == 0 then w' == LeaderStep(w, script[w.pos[0]]) else FollowerStep(script, w, r, w')
  }

  function Start(n: nat): World {
    World(seq(n, _ => 0), seq(n, _ => CLOSED), [], [], [])
  }

  /** A run: any interleaving of the ranks' steps. */
  ghost predicate Run(script: seq<Call>, n: nat, order: seq<nat>, ws: seq<World>) {
    && |ws| == |order| + 1 && ws[0] == Start(n)
    && forall i :: 0 <= i < |order| ==> Step(script, ws[i], order[i], ws[i + 1])
  }

  // ----- the program run by a single process -----

  /** The program executed by the leader alone up to position p. */
  function Sequential(script: seq<Call>, p: nat): (w: World)
    requires p <= |script|
    ensures |w.files| == |w.pos| == 1 && w.pos[0] == p
  {
    if p == 0 then Start(1) else LeaderStep(Sequential(script, p - 1), script[p - 1])
  }

  /** Objects are listed contents by contents, and in order within each. */
  ghost predicate InOrder(made: seq<Made>) {
    forall k: nat :: k < |made| ==> Follows(made, k)
  }

  /** The k-th object starts new contents or continues those of the one before. */
  ghost predicate Follows(made: seq<Made>, k: nat)
    requires k < |made|
  {
    if k == 0 then
      made[k].era == 0 && made[k].order == 0
    else
      || (made[k].era == made[k - 1].era && made[k].order == made[k - 1].order + 1)
      || (made[k].era == made[k - 1].era + 1 && made[k].order == 0)
  }

  ghost predicate AllPlaced(made: seq<Made>) {
    forall k :: 0 <= k < |made| ==> Placed(made[k])
  }

  lemma OneMore(made: seq<Made>, m: Made)
    requires InOrder(made) && AllPlaced(made) && Placed(m) && Follows(made + [m], |made|)
    ensures InOrder(made + [m]) && AllPlaced(made + [m])
  {
    hide Placed;
    var more := made + [m];
    forall k: nat | k < |more| ensures Follows(more, k) {
      assert k < |made| ==> Follows(made, k);
    }
  }

  lemma RestartedOk(made: seq<Made>)
    requires InOrder(made) && AllPlaced(made)
    ensures var more := Restarted(made, BinaryOid(1, Group));
      more != [] && InOrder(more) && AllPlaced(more) && CountNow(more) == 1
  {
    var m := Restarted(made, BinaryOid(1, Group))[|made|];
    assert Placed(m);
    hide Placed;
    OneMore(made, m);
  }

  lemma ExtendedOk(made: seq<Made>, t: ObjType)
    requires InOrder(made) && AllPlaced(made)
    ensures var more := Extended(made, BinaryOid(CountNow(made) % IDX_LIMIT + 1, t), t);
      more != [] && InOrder(more) && AllPlaced(more) && CountNow(more) == CountNow(made) + 1
  {
    var m := Extended(made, BinaryOid(CountNow(made) % IDX_LIMIT + 1, t), t)[|made|];
    assert Placed(m);
    hide Placed;
    OneMore(made, m);
  }

  /** The oid is the one that the object's place in its contents gives, modulo 2^62. */
  ghost predicate Placed(m: Made) {
    m.oid == BinaryOid(m.order % IDX_LIMIT + 1, m.kind)
  }

  /** What holds at every position of the sequential program: oids follow from the places of the
      objects, the count survives closing and reopening, and a clean flag means that the stored
      maximum is the current one. */
  ghost predicate CountOk(w: World)
    requires |w.files| == |w.pos| == 1
  {
    var l, m := w.files[0], CountNow(w.made) % IDX_LIMIT;
    && InOrder(w.made) && AllPlaced(w.made)
    && (l.open ==> l.maxOid == m)
    && (l.open && !l.dirty ==> w.stored == Le64(m))
    && (l.dirty ==> l.open && l.writable)
    && (!l.open && w.made != [] ==> w.stored == Le64(m))
    && (w.made == [] ==> !l.open)
  }

  lemma NextIndex(n: nat, t: ObjType)
    ensures OidToIdx(BinaryOid(n % IDX_LIMIT + 1, t)) == (n + 1) % IDX_LIMIT
  {
    BinaryOidInjective(n % IDX_LIMIT + 1, t, 0, t);
  }

  lemma CreateCount(w: World)
    requires |w.files| == |w.pos| == 1 && CountOk(w)
    ensures CountOk(LeaderStep(w, CreateFile)) && LeaderStep(w, CreateFile).made != []
  {
    RestartedOk(w.made);
    NextIndex(0, Group);
    hide BinaryOid, OidToIdx, Le64, InOrder, AllPlaced, CountNow, Restarted;
  }

  lemma NewObjectCount(w: World, t: ObjType)
    requires |w.files| == |w.pos| == 1 && CountOk(w)
    ensures CountOk(LeaderStep(w, NewObject(t))) && (w.made != [] ==> LeaderStep(w, NewObject(t)).made != [])
  {
    ExtendedOk(w.made, t);
    NextIndex(CountNow(w.made), t);
    hide BinaryOid, OidToIdx, Le64, InOrder, AllPlaced, CountNow, Extended;
  }

  lemma OpenCount(w: World, rdwr: bool)
    requires |w.files| == |w.pos| == 1 && CountOk(w) && w.made != []
    ensures CountOk(LeaderStep(w, OpenFile(rdwr))) && LeaderStep(w, OpenFile(rdwr)).made != []
  {
    Uint64RoundTrip(CountNow(w.made) % IDX_LIMIT, Le64(0));
    hide AllPlaced, InOrder, Le64, Nat64;
  }

  lemma FlushCount(w: World, c: Call)
    requires |w.files| == |w.pos| == 1 && CountOk(w) && w.made != [] && (c.FlushFile? || c.CloseFile?)
    ensures CountOk(LeaderStep(w, c)) && LeaderStep(w, c).made != []
  {
    hide AllPlaced, InOrder, Le64;
  }

  lemma LeaderStepCount(w: World, c: Call)
    requires |w.files| == |w.pos| == 1 && CountOk(w)
    requires w.made == [] ==> c.CreateFile?
    ensures CountOk(LeaderStep(w, c)) && LeaderStep(w, c).made != []
  {
    hide CountOk, LeaderStep;
    match c {
      case CreateFile => CreateCount(w);
      case OpenFile(rdwr) => OpenCount(w, rdwr);
      case CloseFile => FlushCount(w, c);
      case FlushFile => FlushCount(w, c);
      case NewObject(t) => NewObjectCount(w, t);
    }
  }

  lemma {:induction false} SequentialCount(script: seq<Call>, p: nat)
    requires Program(script) && p <= |script|
    ensures CountOk(Sequential(script, p))
    ensures p > 0 ==> Sequential(script, p).made != []
  {
    if p > 0 {
      SequentialCount(script, p - 1);
      LeaderStepCount(Sequential(script, p - 1), script[p - 1]);
    }
  }

  /** A flush brings the stored maximum up to date, and closing and opening again goes on from the
      same maximum. */
  lemma CountSurvives(w: World, rdwr: bool)
    requires |w.files| == |w.pos| == 1 && CountOk(w) && w.made != [] && w.files[0].open
    ensures var l, flushed := w.files[0], LeaderStep(w, FlushFile);
      flushed.stored == Le64(l.maxOid) && flushed.files[0].maxOid == l.maxOid && flushed.made == w.made
    ensures var l, again := w.files[0], LeaderStep(LeaderStep(w, CloseFile), OpenFile(rdwr));
      again.files[0] == Local(true, rdwr, l.maxOid, false) && again.sent == w.sent + [l.maxOid] && again.made == w.made
  {
    Uint64RoundTrip(w.files[0].maxOid, Le64(0));
    hide Le64, Nat64, InOrder, AllPlaced;
  }

  /** An object is made exactly if the file is open for writing, and takes the next index. */
  lemma ObjectsMade(w: World, t: ObjType)
    requires |w.files| == |w.pos| == 1
    ensures var l, made := w.files[0], LeaderStep(w, NewObject(t)).made;
      if l.open && l.writable then
        && |made| == |w.made| + 1 && made[..|w.made|] == w.made && made[|w.made|].kind == t
        && OidToIdx(made[|w.made|].oid) == (l.maxOid + 1) % 0x4000_0000_0000_0000
      else made == w.made
  {
    BinaryOidInjective(w.files[0].maxOid + 1, t, 0, t);
    hide BinaryOid, OidToIdx;
  }

  /** New contents begin exactly if the file is not open, with a group at index 1. */
  lemma ContentsBegun(w: World)
    requires |w.files| == |w.pos| == 1
    ensures var made := LeaderStep(w, CreateFile).made;
      if w.files[0].open then made == w.made
      else
        && |made| == |w.made| + 1 && made[..|w.made|] == w.made
        && made[|w.made|] == Made(1, Group, if w.made == [] then 0 else w.made[|w.made| - 1].era + 1, 0)
  {
    RootIsFirst(true);
    hide BinaryOid, OidToIdx;
  }

  // ----- which objects share an index -----

  /** The index that an object's place gives. */
  function Wrapped(order: nat): nat {
    (order + 1) % IDX_LIMIT
  }

  lemma PlacedIndex(m: Made)
    requires Placed(m)
    ensures OidToIdx(m.oid) == Wrapped(m.order)
  {
    NextIndex(m.order, m.kind);
  }

  lemma WrappedSame(a: nat, b: nat)
    ensures Wrapped(a) == Wrapped(b) <==> a % IDX_LIMIT == b % IDX_LIMIT
  {
  }

  lemma PlacesModulo(a: nat, b: nat)
    ensures a % IDX_LIMIT + 1 == b % IDX_LIMIT + 1 <==> (a % IDX_LIMIT + 1) % IDX_LIMIT == (b % IDX_LIMIT + 1) % IDX_LIMIT
  {
  }

  /** Two objects have the same index exactly when their places in their contents agree modulo
      2^62, and the same oid exactly when they are also of the same kind. */
  lemma SharedIff(m: Made, n: Made)
    requires Placed(m) && Placed(n)
    ensures OidToIdx(m.oid) == OidToIdx(n.oid) <==> m.order % IDX_LIMIT == n.order % IDX_LIMIT
    ensures m.oid == n.oid <==> m.order % IDX_LIMIT == n.order % IDX_LIMIT && m.kind == n.kind
  {
    PlacedIndex(m);
    PlacedIndex(n);
    WrappedSame(m.order, n.order);
    BinaryOidInjective(m.order % IDX_LIMIT + 1, m.kind, n.order % IDX_LIMIT + 1, n.kind);
    PlacesModulo(m.order, n.order);
    hide *;
  }

  /** An earlier object of the same contents is as many places before as it is listed before. */
  lemma {:induction false} PlacesApart(made: seq<Made>, j: nat, k: nat)
    requires InOrder(made) && j <= k < |made|
    ensures made[j].era <= made[k].era
    ensures made[j].era == made[k].era ==> made[k].order == made[j].order + (k - j)
    decreases k
  {
    if j < k {
      PlacesApart(made, j, k - 1);
      assert Follows(made, k);
    }
  }

  /** Within one contents every earlier place is taken. */
  lemma {:induction false} PlaceTaken(made: seq<Made>, k: nat, order: nat) returns (j: nat)
    requires InOrder(made) && k < |made| && order <= made[k].order
    ensures j <= k && made[j].era == made[k].era && made[j].order == order
    decreases k
  {
    assert Follows(made, k);
    if order == made[k].order {
      j := k;
    } else {
      j := PlaceTaken(made, k - 1, order);
    }
  }

  /** No contents have more than 2^62 objects. */
  ghost predicate ContentsFit(made: seq<Made>) {
    forall k :: 0 <= k < |made| ==> made[k].order < IDX_LIMIT
  }

  ghost predicate DistinctWithin(made: seq<Made>) {
    forall j, k :: 0 <= j < k < |made| && made[j].era == made[k].era ==> OidToIdx(made[j].oid) != OidToIdx(made[k].oid)
  }

  ghost predicate Distinct(made: seq<Made>) {
    forall j, k :: 0 <= j < k < |made| ==> OidToIdx(made[j].oid) != OidToIdx(made[k].oid)
  }

  /** Within the contents between one creation of the file and the next, indices are never reused
      if and only if there are at most 2^62 objects. */
  lemma NeverReusedWithin(made: seq<Made>)
    requires InOrder(made) && AllPlaced(made)
    ensures DistinctWithin(made) <==> ContentsFit(made)
  {
    hide OidToIdx, Placed;
    if ContentsFit(made) {
      forall j: nat, k: nat | j < k < |made| && made[j].era == made[k].era
        ensures OidToIdx(made[j].oid) != OidToIdx(made[k].oid)
      {
        PlacesApart(made, j, k);
        SharedIff(made[j], made[k]);
      }
    } else {
      var k: nat :| k < |made| && made[k].order >= IDX_LIMIT;
      var first := PlaceTaken(made, k, 0);
      var again := PlaceTaken(made, k, IDX_LIMIT);
      SharedIff(made[first], made[again]);
      PlacesApart(made, first, k);
      PlacesApart(made, again, k);
      assert first < again;
    }
  }

  /** Over the whole history of the file they are never reused if and only if, in addition, it was
      created only once: every creation takes index 1 again. */
  lemma IdsNeverReused(w: World)
    requires |w.files| == |w.pos| == 1 && CountOk(w)
    ensures Distinct(w.made) <==>
      |w.made| <= IDX_LIMIT && forall k :: 0 <= k < |w.made| ==> w.made[k].era == 0
  {
    NeverReusedWithin(w.made);
    if k: nat :| k < |w.made| && w.made[k].era > 0 {
      CreatedAgain(w.made, k);
    } else {
      CreatedOnce(w.made);
    }
    hide *;
  }

  lemma CreatedAgain(made: seq<Made>, k: nat)
    requires InOrder(made) && k < |made| && made[k].era > 0 && AllPlaced(made)
    ensures !Distinct(made)
  {
    assert Follows(made, 0);
    var again := PlaceTaken(made, k, 0);
    hide OidToIdx, Placed, InOrder;
    SharedIff(made[0], made[again]);
  }

  lemma CreatedOnce(made: seq<Made>)
    requires InOrder(made) && forall k :: 0 <= k < |made| ==> made[k].era == 0
    ensures ContentsFit(made) <==> |made| <= IDX_LIMIT
    ensures DistinctWithin(made) <==> Distinct(made)
  {
    hide OidToIdx, InOrder;
    forall k: nat | k < |made| ensures made[k].order == k {
      PlacesApart(made, 0, k);
      FirstPlace(made);
    }
    if |made| > IDX_LIMIT {
      assert made[IDX_LIMIT].order == IDX_LIMIT;
    }
  }

  lemma FirstPlace(made: seq<Made>)
    requires InOrder(made) && made != []
    ensures made[0].order == 0
  {
    assert Follows(made, 0);
  }

  const RECREATE := [CreateFile, NewObject(Dataset), CloseFile, CreateFile, NewObject(Dataset)]

  /** Creating a file again brings its ids back: the first dataset of the new contents has the oid,
      and so the chunk keys, of the first dataset of the old ones. */
  lemma RecreatedShares()
    ensures Program(RECREATE)
    ensures var made := Sequential(RECREATE, 5).made;
      |made| == 4 && made[1].era != made[3].era && made[1].oid == made[3].oid
      && forall loc :: |loc| <= MAX_RANK ==> ChunkKey("f", made[1].oid, loc) == ChunkKey("f", made[3].oid, loc)
  {
    hide BinaryOid, OidToIdx, Le64;
    var w1, w2 := Sequential(RECREATE, 1), Sequential(RECREATE, 2);
    assert w1 == LeaderStep(Start(1), CreateFile) && |w1.made| == 1;
    assert w2 == LeaderStep(w1, NewObject(Dataset)) && |w2.made| == 2;
    var w3, w4 := Sequential(RECREATE, 3), Sequential(RECREATE, 4);
    assert w3 == LeaderStep(w2, CloseFile) && w3.made == w2.made && !w3.files[0].open;
    assert w4 == LeaderStep(w3, CreateFile) && |w4.made| == 3;
    assert Sequential(RECREATE, 5) == LeaderStep(w4, NewObject(Dataset));
    assert w1.files[0] == w4.files[0];
  }

  /** No object takes the index 0 of the global metadata object if and only if no contents reach
      2^62 objects. */
  lemma MetadataIndexFree(w: World)
    requires |w.files| == |w.pos| == 1 && CountOk(w)
    ensures (forall k :: 0 <= k < |w.made| ==> OidToIdx(w.made[k].oid) != 0) <==>
      forall k :: 0 <= k < |w.made| ==> w.made[k].order + 1 < IDX_LIMIT
  {
    forall k: nat | k < |w.made|
      ensures OidToIdx(w.made[k].oid) == Wrapped(w.made[k].order)
      ensures w.made[k].order + 1 < IDX_LIMIT ==> Wrapped(w.made[k].order) != 0
    {
      PlacedIndex(w.made[k]);
      WrappedSmall(w.made[k].order);
    }
    hide OidToIdx, Placed, Wrapped;
    if k: nat :| k < |w.made| && w.made[k].order + 1 >= IDX_LIMIT {
      var j := PlaceTaken(w.made, k, IDX_LIMIT - 1);
      WrappedLast();
    }
  }

  lemma WrappedSmall(order: nat)
    ensures order + 1 < IDX_LIMIT ==> Wrapped(order) != 0
  {
  }

  lemma WrappedLast()
    ensures Wrapped(IDX_LIMIT - 1) == 0
  {
  }

  // ----- all ranks agree -----

  /** The leader's part of the world, as a world of one process. */
  function LeaderView(w: World): World
    requires |w.files| == |w.pos| > 0
  {
    w.(pos := [w.pos[0]], files := [w.files[0]])
  }

  /** Two structs are the same but for the dirty flag, which only the leader keeps. */
  predicate SameFile(a: Local, b: Local) {
    a.open == b.open && a.writable == b.writable && a.maxOid == b.maxOid
  }

  /** The leader is where the sequential program is, and every follower has the struct that the
      sequential program had at the follower's position. */
  ghost predicate Agreement(script: seq<Call>, w: World) {
    && |w.files| == |w.pos| > 0
    && (forall r :: 0 <= r < |w.pos| ==> w.pos[r] <= |script|)
    && LeaderView(w) == Sequential(script, w.pos[0])
    && (forall r :: 0 < r < |w.pos| ==>
          SameFile(w.files[r], Sequential(script, w.pos[r]).files[0]) && !w.files[r].dirty)
  }

  lemma {:induction false} SentGrows(script: seq<Call>, p: nat, q: nat)
    requires p <= q <= |script|
    ensures Sequential(script, p).sent <= Sequential(script, q).sent
  {
    if p < q {
      SentGrows(script, p, q - 1);
      var w, c := Sequential(script, q - 1), script[q - 1];
      assert Sequential(script, q) == LeaderStep(w, c);
      LeaderSends(w, c);
      hide *;
    }
  }

  lemma LeaderSends(w: World, c: Call)
    requires |w.files| == |w.pos| > 0
    ensures w.sent <= LeaderStep(w, c).sent
  {
    hide AfterCreate, AfterNewObject, AfterFlush;
  }

  lemma LeaderStepView(w: World, c: Call)
    requires |w.files| == |w.pos| > 0
    ensures |LeaderStep(w, c).files| == |LeaderStep(w, c).pos| == |w.pos|
    ensures LeaderView(LeaderStep(w, c)) == LeaderStep(LeaderView(w), c)
    ensures forall r :: 0 < r < |w.pos| ==>
      LeaderStep(w, c).pos[r] == w.pos[r] && LeaderStep(w, c).files[r] == w.files[r]
    ensures LeaderStep(w, c).pos[0] == w.pos[0] + 1
  {
    hide AfterCreate;
    hide AfterNewObject;
    hide AfterFlush;
  }

  /** A broadcast that a follower is about to take is the maximum the leader had when it opened
      the file at the same position of the program. */
  lemma FollowerOpens(script: seq<Call>, w: World, p: nat)
    requires Program(script) && Agreement(script, w) && p < |script|
    requires script[p].OpenFile? && !Refused(Sequential(script, p).files[0], script[p])
    requires Received(script, p) < |w.sent|
    ensures Sequential(script, p + 1).files[0]
         == Local(true, script[p].rdwr, w.sent[Received(script, p)], false)
  {
    hide OidToIdx;
    hide Nat64;
    hide Le64;
    var s, k, here := Sequential(script, p), Received(script, p), w.pos[0];
    SequentialCount(script, p);
    assert w.sent == Sequential(script, here).sent;
    if here <= p {
      SentGrows(script, here, p);
      assert false;
    }
    SentGrows(script, p + 1, here);
    var next := Sequential(script, p + 1);
    assert next == LeaderStep(s, script[p]);
    assert next.sent == s.sent + [Nat64(s.stored)];
    assert next.sent[k] == w.sent[k];
  }

  /** Without a broadcast a follower's call does what the leader's does, but for the dirty flag
      and the store. */
  lemma FollowerCalls(script: seq<Call>, p: nat, l: Local, s: World, sent: seq<uint64>, stored: seq<byte>)
    requires |s.files| == |s.pos| == 1 && SameFile(l, s.files[0]) && !l.dirty
    requires p < |script| && !(script[p].OpenFile? && !Refused(l, script[p]))
    ensures var (l', stored') := FollowerCall(script, p, l, sent, stored);
      SameFile(l', LeaderStep(s, script[p]).files[0]) && !l'.dirty && stored' == stored
  {
    hide BinaryOid;
    hide OidToIdx;
    hide Le64;
  }

  /** A follower's call leaves it with the struct of the sequential program one position on, and
      never touches the store. */
  lemma FollowerAgrees(script: seq<Call>, w: World, r: nat)
    requires Program(script) && Agreement(script, w) && 0 < r < |w.pos| && w.pos[r] < |script|
    requires CanCall(script, w.pos[r], w.files[r], w.sent)
    ensures var (l', stored') := FollowerCall(script, w.pos[r], w.files[r], w.sent, w.stored);
      SameFile(l', Sequential(script, w.pos[r] + 1).files[0]) && !l'.dirty && stored' == w.stored
  {
    var p, l := w.pos[r], w.files[r];
    var s := Sequential(script, p);
    assert Sequential(script, p + 1) == LeaderStep(s, script[p]);
    assert Refused(l, script[p]) <==> Refused(s.files[0], script[p]);
    if script[p].OpenFile? && !Refused(l, script[p]) {
      FollowerOpens(script, w, p);
    } else {
      FollowerCalls(script, p, l, s, w.sent, w.stored);
    }
  }

  lemma LeaderAgrees(script: seq<Call>, w: World)
    requires Program(script) && Agreement(script, w) && w.pos[0] < |script|
    ensures Agreement(script, LeaderStep(w, script[w.pos[0]]))
  {
    var p := w.pos[0];
    LeaderStepView(w, script[p]);
    assert Sequential(script, p + 1) == LeaderStep(Sequential(script, p), script[p]);
    hide LeaderStep, Sequential, LeaderView;
  }

  lemma FollowerKeeps(script: seq<Call>, w: World, r: nat, w': World)
    requires Program(script) && Agreement(script, w) && 0 < r < |w.pos| && w.pos[r] < |script|
    requires FollowerStep(script, w, r, w')
    ensures Agreement(script, w')
  {
    FollowerAgrees(script, w, r);
    hide FollowerCall, Sequential;
    assert LeaderView(w') == LeaderView(w);
  }

  lemma StepAgrees(script: seq<Call>, w: World, r: nat, w': World)
    requires Program(script) && Agreement(script, w) && Step(script, w, r, w')
    ensures Agreement(script, w')
  {
    hide LeaderStep, FollowerStep, Agreement;
    if r == 0 {
      LeaderAgrees(script, w);
    } else {
      FollowerKeeps(script, w, r, w');
    }
  }

  /** In every run, however the ranks interleave, every rank counts as if it were alone. */
  lemma {:induction false} RunAgrees(script: seq<Call>, n: nat, order: seq<nat>, ws: seq<World>, i: nat)
    requires Program(script) && n > 0 && Run(script, n, order, ws) && i <= |order|
    ensures Agreement(script, ws[i])
  {
    if i == 0 {
      assert LeaderView(Start(n)) == Start(1);
    } else {
      RunAgrees(script, n, order, ws, i - 1);
      StepAgrees(script, ws[i - 1], order[i - 1], ws[i]);
    }
  }

  /** Ranks at the same position of the program hold the same maximum; a new object gets the same
      oid on every rank; and on the leader of an open file a clean flag means that the stored
      maximum is the current one. */
  lemma RanksAgree(script: seq<Call>, n: nat, order: seq<nat>, ws: seq<World>, i: nat, r: nat, s: nat, t: ObjType)
    requires Program(script) && n > 0 && Run(script, n, order, ws) && i <= |order|
    requires r < |ws[i].pos| && s < |ws[i].pos| && |ws[i].pos| == |ws[i].files| && ws[i].pos[r] == ws[i].pos[s]
    ensures ws[i].files[r].maxOid == ws[i].files[s].maxOid
    ensures AfterNewObject(ws[i].files[r], t, r == 0).1 == AfterNewObject(ws[i].files[s], t, s == 0).1
    ensures ws[i].files[0].open && !ws[i].files[0].dirty ==> ws[i].stored == Le64(ws[i].files[0].maxOid)
  {
    RunAgrees(script, n, order, ws, i);
    SequentialCount(script, ws[i].pos[0]);
    assert LeaderView(ws[i]).files[0] == ws[i].files[0];
  }

  /** Over any run, in any interleaving: two objects have the same oid exactly when they are of one
      kind and their places in their contents agree modulo 2^62; indices never repeat within one
      contents if and only if it has at most 2^62 objects, and never at all if and only if the file
      was also created only once. */
  lemma RunIdsNeverReused(script: seq<Call>, n: nat, order: seq<nat>, ws: seq<World>, i: nat)
    requires Program(script) && n > 0 && Run(script, n, order, ws) && i <= |order|
    ensures var made := ws[i].made;
      && (forall j, k :: 0 <= j < |made| && 0 <= k < |made| ==>
            (made[j].oid == made[k].oid <==>
               made[j].order % IDX_LIMIT == made[k].order % IDX_LIMIT && made[j].kind == made[k].kind))
      && (DistinctWithin(made) <==> ContentsFit(made))
      && (Distinct(made) <==> |made| <= IDX_LIMIT && forall k :: 0 <= k < |made| ==> made[k].era == 0)
  {
    RunAgrees(script, n, order, ws, i);
    var w := Sequential(script, ws[i].pos[0]);
    SequentialCount(script, ws[i].pos[0]);
    assert w.made == ws[i].made;
    IdsNeverReused(w);
    NeverReusedWithin(w.made);
    forall j, k | 0 <= j < |w.made| && 0 <= k < |w.made|
      ensures w.made[j].oid == w.made[k].oid <==>
        w.made[j].order % IDX_LIMIT == w.made[k].order % IDX_LIMIT && w.made[j].kind == w.made[k].kind
    {
      SharedIff(w.made[j], w.made[k]);
    }
    hide *;
  }

  /** What is stored for two objects of a file shares a key exactly when the oids are the same and
      it is the same metadata or the same chunk location: for objects of one contents with at most
      2^62 of them never, for objects of different contents whenever their places and kinds agree. */
  lemma StorageSharedIff(script: seq<Call>, n: nat, order: seq<nat>, ws: seq<World>, i: nat,
                         j: nat, k: nat, x: Stored, y: Stored)
    requires Program(script) && n > 0 && Run(script, n, order, ws) && i <= |order|
    requires j < |ws[i].made| && k < |ws[i].made|
    requires Nameable(x) && Nameable(y) && x.oid == ws[i].made[j].oid && y.oid == ws[i].made[k].oid
    ensures var a, b := ws[i].made[j], ws[i].made[k];
      KeyOf(x) == KeyOf(y) <==>
        a.order % IDX_LIMIT == b.order % IDX_LIMIT && a.kind == b.kind && x == y.(oid := x.oid)
  {
    RunIdsNeverReused(script, n, order, ws, i);
    if KeyOf(x) == KeyOf(y) {
      KeysDistinct(x, y);
    }
  }

  /** So nothing stored for a later object of the same contents can land on what an earlier one
      stored: neither its metadata nor any chunk of it. */
  lemma StorageNeverShared(script: seq<Call>, n: nat, order: seq<nat>, ws: seq<World>, i: nat,
                           j: nat, k: nat, x: Stored, y: Stored)
    requires Program(script) && n > 0 && Run(script, n, order, ws) && i <= |order|
    requires j < k < |ws[i].made| && ws[i].made[j].era == ws[i].made[k].era && ContentsFit(ws[i].made)
    requires Nameable(x) && Nameable(y) && x.oid == ws[i].made[j].oid && y.oid == ws[i].made[k].oid
    ensures KeyOf(x) != KeyOf(y)
  {
    RunIdsNeverReused(script, n, order, ws, i);
    if KeyOf(x) == KeyOf(y) {
      KeysDistinct(x, y);
      assert false;
    }
  }
}
