/** Carrying out planned operations on stored objects, and what that does to whole elements. */
module Transfer {
  import opened Codec
  import opened Grid
  import opened Runs
  import opened IoPlan
  import opened Dataspace

  /** The bytes of a stored object; bytes never written read as zero. */
  type Content = map<nat, byte>

  function ByteAt(obj: Content, at: nat): byte {
    if at in obj then obj[at] else 0
  }

  /** Every operation stays within a memory buffer of n bytes. */
  ghost predicate Fits(ops: seq<Op>, n: nat) {
    forall i :: 0 <= i < |ops| ==> ops[i].mem + ops[i].len <= n
  }

  lemma FitsTail(ops: seq<Op>, n: nat)
    requires ops != [] && Fits(ops, n)
    ensures ops[0].mem + ops[0].len <= n && Fits(ops[1..], n)
  {
    assert forall i :: 0 <= i < |ops[1..]| ==> ops[1..][i] == ops[i + 1];
  }

  function WriteOne(obj: Content, op: Op, buf: seq<byte>): Content
    requires op.mem + op.len <= |buf|
  {
    obj + map f: nat | f in Range(op.file, op.len) :: buf[op.mem + (f - op.file)]
  }

  lemma WriteOneAt(obj: Content, op: Op, buf: seq<byte>, f: nat)
    requires op.mem + op.len <= |buf|
    ensures op.file <= f < op.file + op.len ==> ByteAt(WriteOne(obj, op, buf), f) == buf[op.mem + (f - op.file)]
    ensures !(op.file <= f < op.file + op.len) ==> ByteAt(WriteOne(obj, op, buf), f) == ByteAt(obj, f)
  {
    if op.file <= f < op.file + op.len {
      assert Range(op.file, op.len)[f - op.file] == f;
    }
  }

  /** A write operation carried out on an object, one piece after the other. */
  function WriteOps(obj: Content, ops: seq<Op>, buf: seq<byte>): Content
    requires Fits(ops, |buf|)
    decreases ops
  {
    if ops == [] then obj
    else
      FitsTail(ops, |buf|);
      WriteOps(WriteOne(obj, ops[0], buf), ops[1..], buf)
  }

  function ReadByte(obj: Content, op: Op, buf: seq<byte>, m: nat): byte
    requires m < |buf|
  {
    if op.mem <= m < op.mem + op.len then ByteAt(obj, op.file + (m - op.mem)) else buf[m]
  }

  function ReadOne(obj: Content, op: Op, buf: seq<byte>): (r: seq<byte>)
    ensures |r| == |buf|
  {
    seq(|buf|, m requires 0 <= m < |buf| => ReadByte(obj, op, buf, m))
  }

  lemma ReadOneAt(obj: Content, op: Op, buf: seq<byte>, m: nat)
    requires m < |buf|
    ensures op.mem <= m < op.mem + op.len ==> ReadOne(obj, op, buf)[m] == ByteAt(obj, op.file + (m - op.mem))
    ensures !(op.mem <= m < op.mem + op.len) ==> ReadOne(obj, op, buf)[m] == buf[m]
  {
  }

  /** A read operation carried out on an object: the buffer afterwards. */
  function ReadOps(obj: Content, ops: seq<Op>, buf: seq<byte>): (r: seq<byte>)
    ensures |r| == |buf|
    decreases ops
  {
    if ops == [] then buf else ReadOps(obj, ops[1..], ReadOne(obj, ops[0], buf))
  }

  // ----- effect in terms of byte pairs -----

  ghost predicate FileIncreasing(pairs: seq<(nat, nat)>) {
    forall i, j :: 0 <= i < j < |pairs| ==> pairs[i].1 < pairs[j].1
  }

  ghost predicate MemIncreasing(pairs: seq<(nat, nat)>) {
    forall i, j :: 0 <= i < j < |pairs| ==> pairs[i].0 < pairs[j].0
  }

  ghost predicate OnFile(pairs: seq<(nat, nat)>, f: nat) {
    exists k :: 0 <= k < |pairs| && pairs[k].1 == f
  }

  ghost predicate InMem(pairs: seq<(nat, nat)>, m: nat) {
    exists k :: 0 <= k < |pairs| && pairs[k].0 == m
  }

  lemma OpPairsCons(ops: seq<Op>)
    requires ops != []
    ensures OpPairs(ops) == Pairs(ops[0]) + OpPairs(ops[1..])
    ensures forall k :: 0 <= k < |OpPairs(ops[1..])| ==>
      OpPairs(ops)[ops[0].len + k] == OpPairs(ops[1..])[k]
  {
  }

  lemma PairCase(ops: seq<Op>, k: nat)
    requires k < |OpPairs(ops)|
    ensures ops != []
    ensures k < ops[0].len ==> OpPairs(ops)[k] == (ops[0].mem + k, ops[0].file + k)
    ensures k >= ops[0].len ==>
      k - ops[0].len < |OpPairs(ops[1..])| && OpPairs(ops)[k] == OpPairs(ops[1..])[k - ops[0].len]
  {
  }

  lemma TailIncreasing(ops: seq<Op>)
    requires ops != []
    ensures FileIncreasing(OpPairs(ops)) ==> FileIncreasing(OpPairs(ops[1..]))
    ensures MemIncreasing(OpPairs(ops)) ==> MemIncreasing(OpPairs(ops[1..]))
  {
    hide OpPairs;
    OpPairsCons(ops);
    var all, tail, n := OpPairs(ops), OpPairs(ops[1..]), ops[0].len;
    forall i, j | 0 <= i < j < |tail|
      ensures FileIncreasing(all) ==> tail[i].1 < tail[j].1
      ensures MemIncreasing(all) ==> tail[i].0 < tail[j].0
    {
      PairCase(ops, n + i);
      PairCase(ops, n + j);
    }
  }

  /** A byte named by no pair is named neither by the first operation nor by the others. */
  lemma NotOnFile(ops: seq<Op>, f: nat)
    requires ops != [] && !OnFile(OpPairs(ops), f)
    ensures !(ops[0].file <= f < ops[0].file + ops[0].len) && !OnFile(OpPairs(ops[1..]), f)
  {
    var op, all, tail := ops[0], OpPairs(ops), OpPairs(ops[1..]);
    OpPairsCons(ops);
    if op.file <= f < op.file + op.len {
      FirstOnly(ops, f - op.file);
      assert false;
    }
    forall k | 0 <= k < |tail| ensures tail[k].1 != f {
      assert all[op.len + k] == tail[k];
    }
  }

  lemma NotInMem(ops: seq<Op>, m: nat)
    requires ops != [] && !InMem(OpPairs(ops), m)
    ensures !(ops[0].mem <= m < ops[0].mem + ops[0].len) && !InMem(OpPairs(ops[1..]), m)
  {
    var op, all, tail := ops[0], OpPairs(ops), OpPairs(ops[1..]);
    OpPairsCons(ops);
    if op.mem <= m < op.mem + op.len {
      FirstOnly(ops, m - op.mem);
      assert false;
    }
    forall k | 0 <= k < |tail| ensures tail[k].0 != m {
      assert all[op.len + k] == tail[k];
    }
  }

  /** The bytes of the first operation are not touched again by the others. */
  lemma FirstOnly(ops: seq<Op>, k: nat)
    requires ops != [] && k < ops[0].len
    ensures k < |OpPairs(ops)| && OpPairs(ops)[k] == (ops[0].mem + k, ops[0].file + k)
    ensures FileIncreasing(OpPairs(ops)) ==> !OnFile(OpPairs(ops[1..]), ops[0].file + k)
    ensures MemIncreasing(OpPairs(ops)) ==> !InMem(OpPairs(ops[1..]), ops[0].mem + k)
  {
    var op, all, tail := ops[0], OpPairs(ops), OpPairs(ops[1..]);
    OpPairsCons(ops);
    hide OpPairs;
    PairCase(ops, k);
    forall j | 0 <= j < |tail|
      ensures FileIncreasing(all) ==> tail[j].1 != op.file + k
      ensures MemIncreasing(all) ==> tail[j].0 != op.mem + k
    {
      PairCase(ops, op.len + j);
    }
  }

  /** A byte of the object that no pair names keeps its value. */
  lemma {:induction false} WriteKeeps(obj: Content, ops: seq<Op>, buf: seq<byte>, f: nat)
    requires Fits(ops, |buf|) && !OnFile(OpPairs(ops), f)
    ensures ByteAt(WriteOps(obj, ops, buf), f) == ByteAt(obj, f)
    decreases ops
  {
    if ops != [] {
      FitsTail(ops, |buf|);
      NotOnFile(ops, f);
      WriteOneAt(obj, ops[0], buf, f);
      WriteKeeps(WriteOne(obj, ops[0], buf), ops[1..], buf, f);
    }
  }

  /** Each pair moves its memory byte to its object byte. */
  lemma {:induction false} WriteMoves(obj: Content, ops: seq<Op>, buf: seq<byte>, k: nat)
    requires Fits(ops, |buf|) && FileIncreasing(OpPairs(ops)) && k < |OpPairs(ops)|
    ensures OpPairs(ops)[k].0 < |buf|
    ensures ByteAt(WriteOps(obj, ops, buf), OpPairs(ops)[k].1) == buf[OpPairs(ops)[k].0]
    decreases ops
  {
    hide FileIncreasing;
    hide WriteOne;
    hide Fits;
    hide OpPairs;
    PairCase(ops, k);
    TailIncreasing(ops);
    FitsTail(ops, |buf|);
    var op, obj' := ops[0], WriteOne(obj, ops[0], buf);
    if k < op.len {
      FirstOnly(ops, k);
      WriteOneAt(obj, op, buf, op.file + k);
      WriteKeeps(obj', ops[1..], buf, op.file + k);
    } else {
      WriteMoves(obj', ops[1..], buf, k - op.len);
    }
  }

  lemma {:induction false} ReadKeeps(obj: Content, ops: seq<Op>, buf: seq<byte>, m: nat)
    requires m < |buf| && !InMem(OpPairs(ops), m)
    ensures ReadOps(obj, ops, buf)[m] == buf[m]
    decreases ops
  {
    if ops != [] {
      NotInMem(ops, m);
      ReadKeeps(obj, ops[1..], ReadOne(obj, ops[0], buf), m);
    }
  }

  lemma {:induction false} ReadMoves(obj: Content, ops: seq<Op>, buf: seq<byte>, k: nat)
    requires MemIncreasing(OpPairs(ops)) && k < |OpPairs(ops)| && OpPairs(ops)[k].0 < |buf|
    ensures ReadOps(obj, ops, buf)[OpPairs(ops)[k].0] == ByteAt(obj, OpPairs(ops)[k].1)
    decreases ops
  {
    hide MemIncreasing;
    hide ReadOne;
    hide OpPairs;
    PairCase(ops, k);
    TailIncreasing(ops);
    var op, buf' := ops[0], ReadOne(obj, ops[0], buf);
    if k < op.len {
      FirstOnly(ops, k);
      ReadOneAt(obj, op, buf, op.mem + k);
      ReadKeeps(obj, ops[1..], buf', op.mem + k);
    } else {
      ReadMoves(obj, ops[1..], buf', k - op.len);
    }
  }

  // ----- effect in terms of elements -----

  /** Some element of the list covers byte f. */
  ghost predicate Covered(starts: seq<nat>, typeSize: nat, f: nat) {
    exists k :: 0 <= k < |starts| && starts[k] <= f < starts[k] + typeSize
  }

  /** Byte b of element k. */
  function Byte(starts: seq<nat>, k: nat, b: nat): nat
    requires k < |starts|
  {
    starts[k] + b
  }

  /** The plan between two selections pairs byte b of the k-th memory element with byte b of
      the k-th file element. */
  ghost predicate PairsElements(pairs: seq<(nat, nat)>, ms: seq<nat>, fs: seq<nat>, typeSize: nat) {
    && |ms| == |fs|
    && (forall k: nat, b: nat :: k < |ms| && b < typeSize ==> PairedAt(pairs, Byte(ms, k, b), Byte(fs, k, b)))
    && (forall i :: 0 <= i < |pairs| ==>
          Covered(ms, typeSize, pairs[i].0) && Covered(fs, typeSize, pairs[i].1))
    && FileIncreasing(pairs) && MemIncreasing(pairs)
  }

  ghost predicate PairedAt(pairs: seq<(nat, nat)>, m: nat, f: nat) {
    exists i :: 0 <= i < |pairs| && pairs[i] == (m, f)
  }

  lemma SplitIndex(i: nat, n: nat, typeSize: nat) returns (k: nat, b: nat)
    requires typeSize > 0 && i < n * typeSize
    ensures k < n && b < typeSize && i == k * typeSize + b
  {
    k, b := i / typeSize, i % typeSize;
    if k >= n {
      ScaleLe(n, k, typeSize);
      assert false;
    }
  }

  lemma ScaleLe(i: int, j: int, c: nat)
    requires i <= j
    ensures i * c <= j * c
  {
    if i < j {
      ScaleOrder(i, j, c);
    }
  }

  /** However the iterators cut the elements into runs, the merge of their run lists pairs the
      elements. */
  lemma MergePairsElements(m: Selection, f: Selection, ms: seq<nat>, fs: seq<nat>, typeSize: nat)
    requires typeSize > 0 && |ms| == |fs| && Spaced(ms, typeSize) && Spaced(fs, typeSize)
    requires HandedOut(m, ms, typeSize) && HandedOut(f, fs, typeSize)
    ensures Total(m.runs) == Total(f.runs) == |ms| * typeSize
    ensures PairsElements(OpPairs(Merge(m.runs, f.runs)), ms, fs, typeSize)
  {
    BytesLength(ms, typeSize);
    BytesLength(fs, typeSize);
    MergePairsBytes(m.runs, f.runs);
    SpacedBytesIncrease(ms, typeSize);
    SpacedBytesIncrease(fs, typeSize);
    PairsOfBytes(OpPairs(Merge(m.runs, f.runs)), ms, fs, typeSize);
  }

  lemma PairsOfBytes(pairs: seq<(nat, nat)>, ms: seq<nat>, fs: seq<nat>, typeSize: nat)
    requires typeSize > 0 && |ms| == |fs|
    requires |pairs| == |ElementBytes(ms, typeSize)| == |ElementBytes(fs, typeSize)| == |ms| * typeSize
    requires forall i :: 0 <= i < |pairs| ==> pairs[i] == (ElementBytes(ms, typeSize)[i], ElementBytes(fs, typeSize)[i])
    requires FileIncreasing(pairs) && MemIncreasing(pairs)
    ensures PairsElements(pairs, ms, fs, typeSize)
  {
    hide FileIncreasing;
    hide MemIncreasing;
    hide ElementBytes;
    forall k: nat, b: nat | k < |ms| && b < typeSize ensures PairedAt(pairs, Byte(ms, k, b), Byte(fs, k, b)) {
      ElementByte(ms, typeSize, k, b);
      ElementByte(fs, typeSize, k, b);
      assert pairs[k * typeSize + b] == (Byte(ms, k, b), Byte(fs, k, b));
    }
    forall i | 0 <= i < |pairs|
      ensures Covered(ms, typeSize, pairs[i].0) && Covered(fs, typeSize, pairs[i].1)
    {
      var k, b := SplitIndex(i, |ms|, typeSize);
      ElementByte(ms, typeSize, k, b);
      ElementByte(fs, typeSize, k, b);
    }
  }

  lemma {:induction false} PairsFit(ops: seq<Op>, n: nat)
    requires forall i :: 0 <= i < |ops| ==> ops[i].len > 0
    requires forall k :: 0 <= k < |OpPairs(ops)| ==> OpPairs(ops)[k].0 < n
    ensures Fits(ops, n)
  {
    if ops != [] {
      OpPairsCons(ops);
      assert forall i :: 0 <= i < |ops[1..]| ==> ops[1..][i] == ops[i + 1];
      assert forall k :: 0 <= k < |OpPairs(ops[1..])| ==> OpPairs(ops[1..])[k] == OpPairs(ops)[ops[0].len + k];
      PairsFit(ops[1..], n);
      assert OpPairs(ops)[ops[0].len - 1].0 == ops[0].mem + ops[0].len - 1;
      assert forall i :: 0 < i < |ops| ==> ops[i] == ops[1..][i - 1];
    }
  }

  /** After a write, byte b of the k-th file element is byte b of the k-th memory element. */
  lemma WriteElement(obj: Content, ops: seq<Op>, buf: seq<byte>, ms: seq<nat>, fs: seq<nat>, typeSize: nat, k: nat, b: nat)
    requires PairsElements(OpPairs(ops), ms, fs, typeSize) && Fits(ops, |buf|)
    requires k < |ms| && b < typeSize
    ensures Byte(ms, k, b) < |buf| && ByteAt(WriteOps(obj, ops, buf), Byte(fs, k, b)) == buf[Byte(ms, k, b)]
  {
    var pairs := OpPairs(ops);
    assert PairedAt(pairs, Byte(ms, k, b), Byte(fs, k, b));
    var i :| 0 <= i < |pairs| && pairs[i] == (Byte(ms, k, b), Byte(fs, k, b));
    WriteMoves(obj, ops, buf, i);
  }

  /** A write changes no byte outside the elements of the file selection. */
  lemma WriteOutside(obj: Content, ops: seq<Op>, buf: seq<byte>, ms: seq<nat>, fs: seq<nat>, typeSize: nat, f: nat)
    requires PairsElements(OpPairs(ops), ms, fs, typeSize) && Fits(ops, |buf|)
    requires !Covered(fs, typeSize, f)
    ensures ByteAt(WriteOps(obj, ops, buf), f) == ByteAt(obj, f)
  {
    WriteKeeps(obj, ops, buf, f);
  }

  /** After a read, byte b of the k-th memory element is byte b of the k-th file element. */
  lemma ReadElement(obj: Content, ops: seq<Op>, buf: seq<byte>, ms: seq<nat>, fs: seq<nat>, typeSize: nat, k: nat, b: nat)
    requires PairsElements(OpPairs(ops), ms, fs, typeSize)
    requires k < |ms| && b < typeSize && Byte(ms, k, b) < |buf|
    ensures ReadOps(obj, ops, buf)[Byte(ms, k, b)] == ByteAt(obj, Byte(fs, k, b))
  {
    var pairs := OpPairs(ops);
    assert PairedAt(pairs, Byte(ms, k, b), Byte(fs, k, b));
    var i :| 0 <= i < |pairs| && pairs[i] == (Byte(ms, k, b), Byte(fs, k, b));
    ReadMoves(obj, ops, buf, i);
  }

  /** A read changes no byte of the buffer outside the elements of the memory selection. */
  lemma ReadOutside(obj: Content, ops: seq<Op>, buf: seq<byte>, ms: seq<nat>, fs: seq<nat>, typeSize: nat, m: nat)
    requires PairsElements(OpPairs(ops), ms, fs, typeSize)
    requires m < |buf| && !Covered(ms, typeSize, m)
    ensures ReadOps(obj, ops, buf)[m] == buf[m]
  {
    ReadKeeps(obj, ops, buf, m);
  }
}
