/** Byte-level encodings of the connector: the 64-bit little-endian loops, and the two
    kinds of records written with them, dataset metadata and link values. */
module Codec {

  type byte = x: int | 0 <= x < 256
  type uint64 = x: int | 0 <= x < 0x1_0000_0000_0000_0000
  const TWO_TO_THE_64 := 0x1_0000_0000_0000_0000

  /** The k low-order bytes of n, least significant first. */
  function LeBytes(n: nat, k: nat): (bs: seq<byte>)
    ensures |bs| == k
  {
    if k == 0 then [] else [n % 256] + LeBytes(n / 256, k - 1)
  }

  /** The number that a little-endian byte string stands for. */
  function LeNat(bs: seq<byte>): nat {
    if bs == [] then 0 else bs[0] + 256 * LeNat(bs[1..])
  }

  function Pow256(k: nat): (p: nat)
    ensures p > 0
  {
    if k == 0 then 1 else 256 * Pow256(k - 1)
  }

  lemma {:induction false} Pow256Of8()
    ensures Pow256(8) == TWO_TO_THE_64
  {
    assert Pow256(2) == 0x1_0000 by { assert Pow256(1) == 256; }
    assert Pow256(4) == 0x1_0000_0000 by { assert Pow256(3) == 0x100_0000; }
    assert Pow256(6) == 0x1_0000_0000_0000 by { assert Pow256(5) == 0x100_0000_0000; }
    assert Pow256(7) == 0x100_0000_0000_0000;
  }

  lemma {:induction false} LeNatBound(bs: seq<byte>)
    ensures LeNat(bs) < Pow256(|bs|)
  {
    if bs != [] {
      LeNatBound(bs[1..]);
    }
  }

  /** Decoding undoes encoding for every number that fits the width. */
  lemma {:induction false} NatOfLeBytes(n: nat, k: nat)
    requires n < Pow256(k)
    ensures LeNat(LeBytes(n, k)) == n
  {
    if k > 0 {
      NatOfLeBytes(n / 256, k - 1);
      assert LeBytes(n, k)[1..] == LeBytes(n / 256, k - 1);
    }
  }

  /** Encoding undoes decoding for every byte string. */
  lemma {:induction false} LeBytesOfNat(bs: seq<byte>)
    ensures LeBytes(LeNat(bs), |bs|) == bs
  {
    if bs != [] {
      LeBytesOfNat(bs[1..]);
      assert LeNat(bs) % 256 == bs[0] && LeNat(bs) / 256 == LeNat(bs[1..]);
    }
  }

  lemma {:induction false} LeNatSnoc(bs: seq<byte>, b: byte)
    ensures LeNat(bs + [b]) == LeNat(bs) + Pow256(|bs|) * b
  {
    if bs != [] {
      LeNatSnoc(bs[1..], b);
      assert (bs + [b])[1..] == bs[1..] + [b];
      assert Pow256(|bs|) * b == 256 * (Pow256(|bs| - 1) * b);
    }
  }

  function Le64(n: uint64): (bs: seq<byte>)
    ensures |bs| == 8
  {
    LeBytes(n, 8)
  }

  function Nat64(bs: seq<byte>): (n: uint64)
    requires |bs| == 8
  {
    LeNatBound(bs);
    Pow256Of8();
    LeNat(bs)
  }

  /** The 64-bit loops invert each other in both directions. */
  lemma Uint64RoundTrip(n: uint64, bs: seq<byte>)
    requires |bs| == 8
    ensures Nat64(Le64(n)) == n
    ensures Le64(Nat64(bs)) == bs
  {
    Pow256Of8();
    NatOfLeBytes(n, 8);
    LeBytesOfNat(bs);
  }

  lemma {:induction false} LeBytesDrop(n: nat, k: nat)
    requires k > 0
    ensures LeBytes(n, k)[0] == n % 256 && LeBytes(n, k)[1..] == LeBytes(n / 256, k - 1)
  {
  }

  lemma DropOneByOne(s: seq<byte>)
    requires |s| >= 4
    ensures s[4..] == s[1..][1..][1..][1..] && s[3] == s[1..][1..][1..][0]
  {
  }

  lemma FourBytesDown(n: nat)
    ensures n / 256 / 256 / 256 / 256 == n / 0x1_0000_0000
  {
    var a := n / 256;
    var b := a / 256;
    assert b == n / 0x1_0000;
    var c := b / 256;
    assert c == n / 0x100_0000;
  }

  /** Four bytes further up in the number is four places further on. */
  lemma LeBytesDrop4(n: nat, k: nat)
    requires k >= 4
    ensures LeBytes(n, k)[4..] == LeBytes(n / 0x1_0000_0000, k - 4)
    ensures LeBytes(n, k)[3] == n / 256 / 256 / 256 % 256
  {
    var a := n / 256;
    var b := a / 256;
    var c := b / 256;
    LeBytesDrop(n, k);
    LeBytesDrop(a, k - 1);
    LeBytesDrop(b, k - 2);
    LeBytesDrop(c, k - 3);
    FourBytesDown(n);
    hide LeBytes;
    DropOneByOne(LeBytes(n, k));
  }

  lemma HighByte(n: uint64)
    ensures n / 0x1_0000_0000 / 256 / 256 / 256 % 256 == n / 0x100_0000_0000_0000
  {
    var m := n / 0x1_0000_0000;
    assert m < 0x1_0000_0000;
    var a := m / 256;
    var b := a / 256;
    assert b == m / 0x1_0000;
    assert b / 256 == m / 0x100_0000;
  }

  /** The low-order byte comes first and the high-order byte last. */
  lemma LowByteFirst(n: uint64)
    ensures Le64(n)[0] == n % 256 && Le64(n)[7] == n / 0x100_0000_0000_0000
  {
    var bs := LeBytes(n, 8);
    LeBytesDrop(n, 8);
    LeBytesDrop4(n, 8);
    LeBytesDrop4(n / 0x1_0000_0000, 4);
    HighByte(n);
    hide LeBytes;
    assert bs[7] == bs[4..][3];
  }

  /** One more element stored behind those that are in place. */
  lemma SetNext<T>(s: seq<T>, k: nat, x: T, front: seq<T>, done: seq<T>)
    requires k < |s| && s[..k] == front + done
    ensures s[k := x][..k + 1] == front + (done + [x]) && s[k := x][k + 1..] == s[k..][1..]
  {
  }

  lemma Split<T>(s: seq<T>, k: nat)
    requires k <= |s|
    ensures s == s[..k] + s[k..]
  {
  }

  /** UINT64ENCODE: eight bytes at p, low-order byte first, shifting the value right. */
  method Uint64Encode(buf: array<byte>, p: nat, n: uint64) returns (q: nat)
    requires p + 8 <= buf.Length
    modifies buf
    ensures q == p + 8
    ensures buf[..] == old(buf[..p]) + Le64(n) + old(buf[p + 8..])
  {
    var rest: nat := n;
    var i := 0;
    ghost var front, done := buf[..p], [];
    assert done + LeBytes(rest, 8) == Le64(n);
    hide *;
    while i < 8
      invariant 0 <= i <= 8 && |done| == i
      invariant done + LeBytes(rest, 8 - i) == Le64(n)
      invariant buf[..p + i] == front + done && buf[p + i..] == old(buf[p + i..])
    {
      EncodeStep(done, rest, 8 - i);
      ghost var before := buf[..];
      var b: byte := rest % 256;
      buf[p + i] := b;
      assert buf[..] == before[p + i := b];
      SetNext(before, p + i, b, front, done);
      done := done + [b];
      rest := rest / 256;
      i := i + 1;
    }
    assert LeBytes(rest, 0) == [];
    q := p + 8;
    Split(buf[..], p + 8);
  }

  lemma EncodeStep(done: seq<byte>, rest: nat, k: nat)
    requires k > 0
    ensures done + LeBytes(rest, k) == (done + [rest % 256]) + LeBytes(rest / 256, k - 1)
  {
  }

  lemma LeNatCons(b: byte, bs: seq<byte>)
    ensures LeNat([b] + bs) == b + 256 * LeNat(bs)
  {
    assert ([b] + bs)[1..] == bs;
  }

  lemma DecodeStep(b: byte, bs: seq<byte>)
    requires |bs| < 8
    ensures LeNat([b] + bs) < TWO_TO_THE_64
    ensures LeNat([b] + bs) == LeNat(bs) * 256 % TWO_TO_THE_64 + b
  {
    LeNatCons(b, bs);
    SuffixFits([b] + bs);
    ModSmall(LeNat(bs) * 256);
    hide *;
  }

  lemma ModSmall(x: nat)
    requires x < TWO_TO_THE_64
    ensures x % TWO_TO_THE_64 == x
  {
  }

  /** UINT64DECODE: the pointer runs backwards from p + 8, shifting the value left. */
  method Uint64Decode(buf: array<byte>, p: nat) returns (n: uint64, q: nat)
    requires p + 8 <= buf.Length
    ensures q == p + 8
    ensures n == Nat64(buf[p..p + 8])
  {
    n := 0;
    var at := p + 8;
    var i := 0;
    assert LeNat(buf[p + 8..p + 8]) == 0;
    hide LeNat;
    while i < 8
      invariant 0 <= i <= 8 && at == p + 8 - i
      invariant n == LeNat(buf[at..p + 8])
    {
      at := at - 1;
      assert buf[at..p + 8] == [buf[at]] + buf[at + 1..p + 8];
      DecodeStep(buf[at], buf[at + 1..p + 8]);
      n := n * 256 % TWO_TO_THE_64 + buf[at];
      i := i + 1;
    }
    q := at + 8;
  }

  lemma {:induction false} SuffixFits(bs: seq<byte>)
    requires |bs| <= 8
    ensures LeNat(bs) < TWO_TO_THE_64
  {
    LeNatBound(bs);
    Pow256Of8();
    Pow256Monotone(|bs|, 8);
  }

  lemma {:induction false} Pow256Monotone(j: nat, k: nat)
    requires j <= k
    ensures Pow256(j) <= Pow256(k)
  {
    if j < k {
      Pow256Monotone(j, k - 1);
    }
  }

  // ----- dataset records -----

  /** A dataset's stored metadata: serialized datatype, dataspace and creation properties. */
  datatype DatasetRecord = DatasetRecord(dtype: seq<byte>, space: seq<byte>, dcpl: seq<byte>)

  predicate Encodable(r: DatasetRecord) {
    24 + |r.dtype| + |r.space| + |r.dcpl| < TWO_TO_THE_64
  }

  function EncodeRecord(r: DatasetRecord): (bs: seq<byte>)
    requires Encodable(r)
  {
    Le64(|r.dtype|) + Le64(|r.space|) + Le64(|r.dcpl|) + r.dtype + r.space + r.dcpl
  }

  datatype Decoded<T> = Value(value: T) | Malformed

  /** The three length words at the front of a record. */
  function RecordLengths(bs: seq<byte>): (uint64, uint64, uint64)
    requires |bs| >= 24
  {
    (Nat64(bs[..8]), Nat64(bs[8..16]), Nat64(bs[16..24]))
  }

  /** The reader's length check: the three lengths and the header make up the size of the record,
      added in 64 bits. */
  predicate LengthsPass(bs: seq<byte>) {
    |bs| >= 24 &&
    var (t, s, d) := RecordLengths(bs);
    (t + s + d + 24) % TWO_TO_THE_64 == |bs|
  }

  /** The length check, and then the three slices. A slice that would reach past the record, which
      the check alone does not exclude, makes it malformed. */
  function DecodeRecord(bs: seq<byte>): Decoded<DatasetRecord> {
    if !LengthsPass(bs) then Malformed
    else
      var (t, s, d) := RecordLengths(bs);
      if t + s + 24 > |bs| then Malformed
      else Value(DatasetRecord(bs[24..24 + t], bs[24 + t..24 + t + s], bs[24 + t + s..]))
  }

  lemma RecordLengthsOfEncoding(r: DatasetRecord)
    requires Encodable(r)
    ensures |EncodeRecord(r)| == 24 + |r.dtype| + |r.space| + |r.dcpl|
    ensures RecordLengths(EncodeRecord(r)) == (|r.dtype|, |r.space|, |r.dcpl|)
  {
    var bs := EncodeRecord(r);
    assert bs[..8] == Le64(|r.dtype|) && bs[8..16] == Le64(|r.space|) && bs[16..24] == Le64(|r.dcpl|);
    Uint64RoundTrip(|r.dtype|, bs[..8]);
    Uint64RoundTrip(|r.space|, bs[..8]);
    Uint64RoundTrip(|r.dcpl|, bs[..8]);
  }

  /** Where a record has what: three lengths in eight bytes each, then the three blobs. */
  lemma RecordLayout(r: DatasetRecord)
    requires Encodable(r)
    ensures var bs, t, s, d := EncodeRecord(r), |r.dtype|, |r.space|, |r.dcpl|;
      && |bs| == 24 + t + s + d
      && Nat64(bs[..8]) == t && Nat64(bs[8..16]) == s && Nat64(bs[16..24]) == d
      && bs[24..24 + t] == r.dtype && bs[24 + t..24 + t + s] == r.space && bs[24 + t + s..] == r.dcpl
  {
    RecordLengthsOfEncoding(r);
    Blocks(Le64(|r.dtype|) + Le64(|r.space|) + Le64(|r.dcpl|), r.dtype, r.space, r.dcpl);
    hide Le64, Nat64;
  }

  /** Every record written is accepted by the length check and decodes to itself. */
  lemma RecordRoundTrip(r: DatasetRecord)
    requires Encodable(r)
    ensures DecodeRecord(EncodeRecord(r)) == Value(r)
  {
    RecordLengthsOfEncoding(r);
    DecodeGiven(EncodeRecord(r), |r.dtype|, |r.space|, |r.dcpl|);
    Blocks(Le64(|r.dtype|) + Le64(|r.space|) + Le64(|r.dcpl|), r.dtype, r.space, r.dcpl);
    hide Le64, Nat64, RecordLengths, DecodeRecord;
  }

  /** Decoding by the lengths found at the front. */
  lemma DecodeGiven(bs: seq<byte>, t: uint64, s: uint64, d: uint64)
    requires |bs| >= 24 && RecordLengths(bs) == (t, s, d) && t + s + d + 24 == |bs| < TWO_TO_THE_64
    ensures DecodeRecord(bs) == Value(DatasetRecord(bs[24..24 + t], bs[24 + t..24 + t + s], bs[24 + t + s..]))
  {
    ModSmall(t + s + d + 24);
    hide Nat64, RecordLengths;
  }

  /** Four blocks one after the other. */
  lemma Blocks(a: seq<byte>, b: seq<byte>, c: seq<byte>, d: seq<byte>)
    ensures var bs := a + b + c + d;
      && bs[|a|..|a| + |b|] == b
      && bs[|a| + |b|..|a| + |b| + |c|] == c
      && bs[|a| + |b| + |c|..] == d
  {
  }

  lemma Glue(bs: seq<byte>, i: nat, j: nat)
    requires 24 <= i <= j <= |bs|
    ensures Le64(Nat64(bs[..8])) + Le64(Nat64(bs[8..16])) + Le64(Nat64(bs[16..24]))
          + bs[24..i] + bs[i..j] + bs[j..] == bs
  {
    Uint64RoundTrip(0, bs[..8]);
    Uint64RoundTrip(0, bs[8..16]);
    Uint64RoundTrip(0, bs[16..24]);
    hide *;
    Join(bs, 8, 16);
    Join(bs, 16, 24);
    Join(bs, 24, i);
    Join(bs, i, j);
    assert bs[..j] + bs[j..] == bs;
  }

  lemma Join(bs: seq<byte>, i: nat, j: nat)
    requires i <= j <= |bs|
    ensures bs[..i] + bs[i..j] == bs[..j]
  {
  }

  /** Some writer stored these bytes. */
  ghost predicate Stored(bs: seq<byte>) {
    exists r :: Encodable(r) && EncodeRecord(r) == bs
  }

  /** The length check by itself is not enough: of the records that pass it, exactly those whose
      lengths do not overflow together were stored by a writer. */
  lemma PassingIsStoredIff(bs: seq<byte>)
    requires LengthsPass(bs) && |bs| < TWO_TO_THE_64
    ensures Stored(bs) <==>
      RecordLengths(bs).0 + RecordLengths(bs).1 + RecordLengths(bs).2 + 24 < TWO_TO_THE_64
  {
    var (t, s, d) := RecordLengths(bs);
    if t + s + d + 24 < TWO_TO_THE_64 {
      ModSmall(t + s + d + 24);
      var r := DatasetRecord(bs[24..24 + t], bs[24 + t..24 + t + s], bs[24 + t + s..]);
      WrittenBack(bs, t, s, d);
      hide EncodeRecord, Encodable;
      assert Encodable(r) && EncodeRecord(r) == bs;
    }
    if r :| Encodable(r) && EncodeRecord(r) == bs {
      RecordLengthsOfEncoding(r);
      hide EncodeRecord;
    }
  }

  /** Two lengths of 2^63 cancel out: a record of 24 bytes passes the check, and no writer stores it. */
  lemma OverflowPasses()
    ensures var bs := Le64(0x8000_0000_0000_0000) + Le64(0x8000_0000_0000_0000) + Le64(0);
      LengthsPass(bs) && !Stored(bs)
  {
    var h := 0x8000_0000_0000_0000;
    var bs := Le64(h) + Le64(h) + Le64(0);
    HeaderAlone(h, h, 0);
    hide Le64, Nat64, RecordLengths, Stored, LengthsPass;
    OverflowCancels(bs, h, h, 0);
  }

  lemma OverflowCancels(bs: seq<byte>, t: uint64, s: uint64, d: uint64)
    requires |bs| >= 24 && RecordLengths(bs) == (t, s, d) && t + s + d + 24 == |bs| + TWO_TO_THE_64
    requires |bs| < TWO_TO_THE_64
    ensures LengthsPass(bs) && !Stored(bs)
  {
    ModOnce(|bs|);
    assert LengthsPass(bs);
    PassingIsStoredIff(bs);
    hide *;
  }

  lemma ModOnce(x: nat)
    requires x < TWO_TO_THE_64
    ensures (x + TWO_TO_THE_64) % TWO_TO_THE_64 == x
  {
  }

  lemma HeaderAlone(t: uint64, s: uint64, d: uint64)
    ensures var bs := Le64(t) + Le64(s) + Le64(d);
      |bs| == 24 && RecordLengths(bs) == (t, s, d)
  {
    Blocks(Le64(t), Le64(s), Le64(d), []);
    var bs := Le64(t) + Le64(s) + Le64(d);
    assert bs + [] == bs && bs[..8] == Le64(t);
    Uint64RoundTrip(t, Le64(0));
    Uint64RoundTrip(s, Le64(0));
    Uint64RoundTrip(d, Le64(0));
    hide Le64, Nat64;
  }

  /** The bytes are the encoding of the slices that the lengths give. */
  lemma WrittenBack(bs: seq<byte>, t: uint64, s: uint64, d: uint64)
    requires |bs| >= 24 && RecordLengths(bs) == (t, s, d) && t + s + d + 24 == |bs| < TWO_TO_THE_64
    ensures var r := DatasetRecord(bs[24..24 + t], bs[24 + t..24 + t + s], bs[24 + t + s..]);
      Encodable(r) && EncodeRecord(r) == bs
  {
    Glue(bs, 24 + t, 24 + t + s);
    assert Le64(t) == Le64(Nat64(bs[..8])) && Le64(s) == Le64(Nat64(bs[8..16])) && Le64(d) == Le64(Nat64(bs[16..24]));
    hide Nat64, Le64, RecordLengths;
  }

  /** Testing the slices as well refuses exactly what no writer stored, and what is accepted
      decodes to the record that was stored. */
  lemma RecordAcceptedIsWritten(bs: seq<byte>)
    requires |bs| < TWO_TO_THE_64
    ensures DecodeRecord(bs).Value? <==> Stored(bs)
    ensures DecodeRecord(bs).Value? ==>
      Encodable(DecodeRecord(bs).value) && EncodeRecord(DecodeRecord(bs).value) == bs
  {
    if r :| Encodable(r) && EncodeRecord(r) == bs {
      RecordRoundTrip(r);
    }
    if DecodeRecord(bs).Value? {
      AcceptedParts(bs);
      WrittenBack(bs, RecordLengths(bs).0, RecordLengths(bs).1, RecordLengths(bs).2);
      hide Nat64, Le64, RecordLengths, EncodeRecord, DecodeRecord;
    }
  }

  lemma AcceptedParts(bs: seq<byte>)
    requires DecodeRecord(bs).Value? && |bs| < TWO_TO_THE_64
    ensures |bs| >= 24
    ensures var (t, s, d) := RecordLengths(bs);
      t + s + d + 24 == |bs| &&
      DecodeRecord(bs).value == DatasetRecord(bs[24..24 + t], bs[24 + t..24 + t + s], bs[24 + t + s..])
  {
    hide Nat64, RecordLengths;
    var (t, s, d) := RecordLengths(bs);
    NoOverflow(t, s, d, |bs|);
  }

  /** If the first two lengths fit the record, the sum of the three does not overflow. */
  lemma NoOverflow(t: uint64, s: uint64, d: uint64, n: nat)
    requires (t + s + d + 24) % TWO_TO_THE_64 == n < TWO_TO_THE_64 && t + s + 24 <= n
    ensures t + s + d + 24 == n
  {
  }

  // ----- link values -----

  /** A hard link holds the binary oid of its target, a soft link a path string. */
  datatype Link = Hard(oid: uint64) | Soft(target: seq<byte>)

  const LINK_HARD: byte := 0
  const LINK_SOFT: byte := 1

  /** A C string: no NUL inside. */
  predicate IsCString(s: seq<byte>) {
    forall i :: 0 <= i < |s| ==> s[i] != 0
  }

  function EncodeLink(l: Link): seq<byte> {
    match l
    case Hard(oid) => [LINK_HARD] + Le64(oid)
    case Soft(target) => [LINK_SOFT] + target
  }

  /** An empty value means "link not found" and an unknown type byte is refused. The reader takes
      eight bytes of a hard link without looking at the length: what follows them is ignored, and
      a value too short to hold them is treated as malformed here. */
  function DecodeLink(bs: seq<byte>): Decoded<Link> {
    if bs == [] then Malformed
    else if bs[0] == LINK_HARD then
      if |bs| >= 9 then Value(Hard(Nat64(bs[1..9]))) else Malformed
    else if bs[0] == LINK_SOFT then Value(Soft(bs[1..]))
    else Malformed
  }

  /** Link values decode to what was encoded, and what decodes starts with its own encoding: it
      is the encoding unless a hard link has bytes after the oid. */
  lemma LinkRoundTrip(l: Link, bs: seq<byte>)
    ensures DecodeLink(EncodeLink(l)) == Value(l)
    ensures DecodeLink(bs).Value? ==> EncodeLink(DecodeLink(bs).value) <= bs
    ensures DecodeLink(bs).Value? ==> (EncodeLink(DecodeLink(bs).value) == bs <==> bs[0] == LINK_SOFT || |bs| == 9)
  {
    match l {
      case Hard(oid) =>
        assert EncodeLink(l)[1..9] == Le64(oid);
        Uint64RoundTrip(oid, Le64(oid));
      case Soft(target) =>
        assert EncodeLink(l)[1..] == target;
    }
    if |bs| >= 9 && bs[0] == LINK_HARD {
      Uint64RoundTrip(0, bs[1..9]);
      assert bs[..9] == [bs[0]] + bs[1..9];
    }
  }

  /** The size of the writer's buffer on the stack. */
  const LINK_VAL_BUF_SIZE := 256

  method CopyBytes(buf: array<byte>, p: nat, data: seq<byte>)
    requires p + |data| <= buf.Length
    modifies buf
    ensures buf[..] == old(buf[..p]) + data + old(buf[p + |data|..])
  {
    for i := 0 to |data|
      invariant buf[p..p + i] == data[..i]
      invariant buf[..p] == old(buf[..p]) && buf[p + |data|..] == old(buf[p + |data|..])
    {
      ghost var done := buf[p..p + i];
      buf[p + i] := data[i];
      assert buf[p..p + i + 1] == done + [data[i]];
    }
    assert buf[..] == buf[..p] + buf[p..p + |data|] + buf[p + |data|..];
  }

  /** H5VL_dtio_link_write up to the store operation: nine bytes for a hard link, in a larger
      buffer only if a soft link needs it. */
  method LinkWrite(l: Link) returns (buf: array<byte>, valLen: nat)
    ensures fresh(buf) && valLen <= buf.Length
    ensures buf.Length == if valLen > LINK_VAL_BUF_SIZE then valLen else LINK_VAL_BUF_SIZE
    ensures buf[..valLen] == EncodeLink(l)
  {
    buf := new byte[LINK_VAL_BUF_SIZE](_ => 0);
    match l {
      case Hard(oid) =>
        buf[0] := LINK_HARD;
        var p := Uint64Encode(buf, 1, oid);
        valLen := 9;
      case Soft(target) =>
        valLen := |target| + 1;
        if valLen > LINK_VAL_BUF_SIZE {
          buf := new byte[valLen](_ => 0);
        }
        buf[0] := LINK_SOFT;
        CopyBytes(buf, 1, target);
        assert buf[..valLen] == [LINK_SOFT] + target;
    }
  }

  /** H5VL_dtio_link_read from the value on: the type byte, then the oid or a copy of the string
      with a NUL put behind it. */
  method LinkRead(val: array<byte>) returns (r: Decoded<Link>)
    ensures r == DecodeLink(val[..])
  {
    if val.Length == 0 {
      return Malformed;
    }
    var p := 1;
    if val[0] == LINK_HARD {
      if val.Length < 9 {
        return Malformed;
      }
      var oid;
      oid, p := Uint64Decode(val, p);
      return Value(Hard(oid));
    } else if val[0] == LINK_SOFT {
      var soft := new byte[val.Length](_ => 0);
      CopyBytes(soft, 0, val[p..]);
      soft[val.Length - 1] := 0;
      assert soft[..val.Length - 1] == val[1..];
      return Value(Soft(soft[..val.Length - 1]));
    } else {
      return Malformed;
    }
  }

  /** The writer of a dataset's metadata: three length words, then the three blobs behind them. */
  method RecordWrite(r: DatasetRecord) returns (md: array<byte>)
    requires Encodable(r)
    ensures fresh(md) && md[..] == EncodeRecord(r)
  {
    md := new byte[24 + |r.dtype| + |r.space| + |r.dcpl|](_ => 0);
    var p := Uint64Encode(md, 0, |r.dtype|);
    p := Uint64Encode(md, p, |r.space|);
    p := Uint64Encode(md, p, |r.dcpl|);
    ghost var head := Le64(|r.dtype|) + Le64(|r.space|) + Le64(|r.dcpl|);
    assert md[..24] == head;
    CopyBytes(md, 24, r.dtype);
    assert md[..24 + |r.dtype|] == head + r.dtype;
    CopyBytes(md, 24 + |r.dtype|, r.space);
    assert md[..24 + |r.dtype| + |r.space|] == head + r.dtype + r.space;
    CopyBytes(md, 24 + |r.dtype| + |r.space|, r.dcpl);
    assert md[..] == head + r.dtype + r.space + r.dcpl;
  }
}
