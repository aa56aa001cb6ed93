/** Object names: binary oids, the string keys of objects, and the string keys of chunks. */
module Keys {
  import opened Codec

  const IDX_LIMIT := 0x4000_0000_0000_0000
  const TYPE_DSET := 0x4000_0000_0000_0000
  const TYPE_DTYPE := 0x8000_0000_0000_0000

  datatype ObjType = Group | Dataset | Datatype

  /** The two type bits of an oid. */
  function TypeBits(t: ObjType): nat {
    match t
    case Group => 0
    case Dataset => TYPE_DSET
    case Datatype => TYPE_DTYPE
  }

  /** A binary oid: the low 62 bits of the index, with the type in the top two. */
  function BinaryOid(idx: nat, t: ObjType): (oid: uint64) {
    idx % IDX_LIMIT + TypeBits(t)
  }

  function OidToIdx(oid: uint64): (idx: nat)
    ensures idx < IDX_LIMIT
  {
    oid % IDX_LIMIT
  }

  /** The type and the index modulo 2^62 can be read back from an oid, so two oids are the same
      only for the same type and the same index modulo 2^62. */
  lemma BinaryOidInjective(i: nat, s: ObjType, j: nat, t: ObjType)
    ensures OidToIdx(BinaryOid(i, s)) == i % IDX_LIMIT
    ensures BinaryOid(i, s) == BinaryOid(j, t) <==> i % IDX_LIMIT == j % IDX_LIMIT && s == t
  {
  }

  /** The two top bits of an oid are 0 for a group, 1 for a dataset and 2 for a datatype; the others
      are the index. */
  lemma OidLayout(idx: nat, t: ObjType)
    ensures BinaryOid(idx, t) / 0x4000_0000_0000_0000 == if t == Group then 0 else if t == Dataset then 1 else 2
    ensures BinaryOid(idx, t) % 0x4000_0000_0000_0000 == idx % 0x4000_0000_0000_0000
  {
  }

  // ----- hexadecimal -----

  const DIGITS := "0123456789ABCDEF"

  function HexDigit(d: nat): char
    requires d < 16
  {
    DIGITS[d]
  }

  function DigitValue(c: char): (d: nat)
    ensures d < 16
  {
    if '0' <= c <= '9' then (c as int) - ('0' as int)
    else if 'A' <= c <= 'F' then (c as int) - ('A' as int) + 10
    else 0
  }

  lemma DigitRoundTrip(d: nat)
    requires d < 16
    ensures DigitValue(HexDigit(d)) == d
  {
  }

  /** k hexadecimal digits, most significant first. */
  function Hex(n: nat, k: nat): (s: string)
    ensures |s| == k
  {
    if k == 0 then "" else Hex(n / 16, k - 1) + [HexDigit(n % 16)]
  }

  function UnHex(s: string): nat {
    if s == "" then 0 else 16 * UnHex(s[..|s| - 1]) + DigitValue(s[|s| - 1])
  }

  function Pow16(k: nat): (p: nat)
    ensures p > 0
  {
    if k == 0 then 1 else 16 * Pow16(k - 1)
  }

  lemma {:induction false} Pow16Of16()
    ensures Pow16(16) == TWO_TO_THE_64
  {
    assert Pow16(2) == 0x100 && Pow16(4) == 0x1_0000;
    assert Pow16(6) == 0x100_0000 && Pow16(8) == 0x1_0000_0000;
    assert Pow16(10) == 0x100_0000_0000 && Pow16(12) == 0x1_0000_0000_0000;
    assert Pow16(14) == 0x100_0000_0000_0000;
  }

  lemma {:induction false} UnHexOfHex(n: nat, k: nat)
    requires n < Pow16(k)
    ensures UnHex(Hex(n, k)) == n
  {
    if k > 0 {
      UnHexOfHex(n / 16, k - 1);
      DigitRoundTrip(n % 16);
      assert Hex(n, k)[..k - 1] == Hex(n / 16, k - 1);
    }
  }

  function Hex16(n: uint64): (s: string)
    ensures |s| == 16
  {
    Hex(n, 16)
  }

  lemma Hex16RoundTrip(n: uint64)
    ensures UnHex(Hex16(n)) == n
  {
    Pow16Of16();
    UnHexOfHex(n, 16);
  }

  // ----- keys -----

  const MAX_RANK := 99

  /** Everything that is stored under a key of its own. */
  datatype Stored =
    | Object(file: string, oid: uint64)
    | Chunk(file: string, oid: uint64, loc: seq<uint64>)

  predicate Nameable(x: Stored) {
    x.Chunk? ==> |x.loc| <= MAX_RANK
  }

  function Dec2(n: nat): (s: string)
    requires n <= 99
    ensures |s| == 2
  {
    [HexDigit(n / 10), HexDigit(n % 10)]
  }

  function LocString(loc: seq<uint64>): (s: string)
    ensures |s| == 16 * |loc|
  {
    if loc == [] then "" else LocString(loc[..|loc| - 1]) + Hex16(loc[|loc| - 1])
  }

  function ObjectKey(file: string, oid: uint64): (key: string)
    ensures |key| == 2 + |file| + 16
  {
    "ob" + file + Hex16(oid)
  }

  function ChunkKey(file: string, oid: uint64, loc: seq<uint64>): (key: string)
    requires |loc| <= MAX_RANK
    ensures |key| == 2 + |file| + 16 + |loc| * 16
  {
    Dec2(|loc|) + file + Hex16(oid) + LocString(loc)
  }

  function KeyOf(x: Stored): string
    requires Nameable(x)
  {
    match x
    case Object(file, oid) => ObjectKey(file, oid)
    case Chunk(file, oid, loc) => ChunkKey(file, oid, loc)
  }

  // ----- decoding keys -----

  function UnHex64(s: string): (n: uint64) {
    UnHex(s) % TWO_TO_THE_64
  }

  /** The 16-digit groups of a string. */
  function UnLoc(s: string, rank: nat): (loc: seq<uint64>)
    requires |s| == 16 * rank
    ensures |loc| == rank
  {
    seq(rank, i requires 0 <= i < rank => UnHex64(s[16 * i..16 * i + 16]))
  }

  /** Reads a key back: the first character tells objects from chunks, and the two digits of
      the rank tell where the file name ends. */
  function Decode(key: string): Decoded<Stored> {
    if |key| < 18 then Malformed
    else if key[0] == 'o' then
      Value(Object(key[2..|key| - 16], UnHex64(key[|key| - 16..])))
    else
      var rank := 10 * DigitValue(key[0]) + DigitValue(key[1]);
      var end := |key| - 16 * rank;
      if end < 18 then Malformed
      else Value(Chunk(key[2..end - 16], UnHex64(key[end - 16..end]), UnLoc(key[end..], rank)))
  }

  /** The parts of a concatenation. */
  lemma Parts(a: string, b: string, c: string, d: string)
    ensures var s := a + b + c + d;
      && s[..|a|] == a && s[|a|..|a| + |b|] == b
      && s[|a| + |b|..|a| + |b| + |c|] == c && s[|a| + |b| + |c|..] == d
  {
  }

  lemma {:induction false} LocGroup(loc: seq<uint64>, i: nat)
    requires i < |loc|
    ensures LocString(loc)[16 * i..16 * i + 16] == Hex16(loc[i])
  {
    hide Hex16;
    var n := |loc| - 1;
    var s, t := LocString(loc), LocString(loc[..n]);
    assert s == t + Hex16(loc[n]);
    if i < n {
      LocGroup(loc[..n], i);
      assert s[16 * i..16 * i + 16] == t[16 * i..16 * i + 16];
    }
  }

  lemma LocRoundTrip(loc: seq<uint64>)
    ensures UnLoc(LocString(loc), |loc|) == loc
  {
    hide Hex16;
    hide UnHex64;
    forall i | 0 <= i < |loc| ensures UnHex64(LocString(loc)[16 * i..16 * i + 16]) == loc[i] {
      LocGroup(loc, i);
      Hex64RoundTrip(loc[i]);
    }
  }

  lemma Hex64RoundTrip(n: uint64)
    ensures UnHex64(Hex16(n)) == n
  {
    hide Hex16;
    Hex16RoundTrip(n);
  }

  lemma RankRoundTrip(rank: nat)
    requires rank <= 99
    ensures 10 * DigitValue(Dec2(rank)[0]) + DigitValue(Dec2(rank)[1]) == rank
    ensures Dec2(rank)[0] != 'o'
  {
    DigitRoundTrip(rank / 10);
    DigitRoundTrip(rank % 10);
    assert DIGITS[rank / 10] != 'o';
  }

  /** Every key can be decoded: nothing of the file name, the oid, the rank or the chunk
      location is lost. */
  lemma KeyRoundTrip(x: Stored)
    requires Nameable(x)
    ensures Decode(KeyOf(x)) == Value(x)
  {
    match x {
      case Object(file, oid) => ObjectKeyRoundTrip(file, oid);
      case Chunk(file, oid, loc) => ChunkKeyRoundTrip(file, oid, loc);
    }
  }

  lemma ObjectKeyRoundTrip(file: string, oid: uint64)
    ensures Decode(ObjectKey(file, oid)) == Value(Object(file, oid))
  {
    hide Hex16;
    hide UnHex64;
    Hex64RoundTrip(oid);
    Parts("ob", file, Hex16(oid), "");
    assert ObjectKey(file, oid) == "ob" + file + Hex16(oid) + "";
  }

  lemma ChunkKeyRoundTrip(file: string, oid: uint64, loc: seq<uint64>)
    requires |loc| <= MAX_RANK
    ensures Decode(ChunkKey(file, oid, loc)) == Value(Chunk(file, oid, loc))
  {
    hide Hex16;
    hide UnHex64;
    hide UnLoc;
    hide LocString;
    hide Dec2;
    hide DigitValue;
    var key, rank := ChunkKey(file, oid, loc), |loc|;
    Hex64RoundTrip(oid);
    LocRoundTrip(loc);
    RankRoundTrip(rank);
    Parts(Dec2(rank), file, Hex16(oid), LocString(loc));
    assert key[..2] == Dec2(rank);
    assert key[0] == Dec2(rank)[0] && key[1] == Dec2(rank)[1];
    assert |key| - 16 * rank == 2 + |file| + 16;
  }

  /** No two distinct objects or chunks, of any files, share a key. */
  lemma KeysDistinct(x: Stored, y: Stored)
    requires Nameable(x) && Nameable(y) && KeyOf(x) == KeyOf(y)
    ensures x == y
  {
    KeyRoundTrip(x);
    KeyRoundTrip(y);
  }

  // ----- the code: keys as NUL-terminated strings in buffers -----

  /** The buffer holds the string s at the front, followed by a NUL. */
  ghost predicate HoldsString(buf: array<char>, s: string)
    reads buf
  {
    |s| < buf.Length && buf[..|s|] == s && buf[|s|] == '\0'
  }

  /** snprintf of a ready text at position `at`: as much as fits, a NUL, and the full length. */
  method Print(buf: array<char>, at: nat, text: string) returns (n: nat)
    requires at < buf.Length
    modifies buf
    ensures n == |text|
    ensures buf[..at] == old(buf[..at])
    ensures at + n < buf.Length ==> buf[at..at + n] == text && buf[at + n] == '\0'
  {
    var i := 0;
    while i < |text| && at + i < buf.Length - 1
      invariant i <= |text| && at + i <= buf.Length - 1
      invariant buf[..at] == old(buf[..at])
      invariant buf[at..at + i] == text[..i]
    {
      buf[at + i] := text[i];
      i := i + 1;
    }
    buf[at + i] := '\0';
    n := |text|;
  }

  /** The string key of an object, in a fresh buffer of just the right size. */
  method OidCreateString(file: string, oid: uint64) returns (ok: bool, buf: array<char>)
    ensures ok && HoldsString(buf, ObjectKey(file, oid)) && buf.Length == |ObjectKey(file, oid)| + 1
  {
    buf := new char[2 + |file| + 16 + 1];
    var n := Print(buf, 0, "ob" + file + Hex16(oid));
    ok := n == 2 + |file| + 16;
    assert buf[0..n] == buf[..n];
  }

  /** The string key of a chunk. A buffer from an earlier call for the same file name length and
      rank may be used again. */
  method OidCreateChunk(file: string, oid: uint64, loc: seq<uint64>, oldBuf: array?<char>)
    returns (ok: bool, buf: array<char>)
    requires |loc| <= MAX_RANK
    requires oldBuf != null ==> oldBuf.Length == 2 + |file| + 16 + |loc| * 16 + 1
    modifies if oldBuf == null then {} else {oldBuf}
    ensures ok && HoldsString(buf, ChunkKey(file, oid, loc))
    ensures buf.Length == |ChunkKey(file, oid, loc)| + 1
    ensures if oldBuf == null then fresh(buf) else buf == oldBuf
  {
    var rank := |loc|;
    var oidLen := 2 + |file| + 16 + rank * 16 + 1;
    if oldBuf == null {
      buf := new char[oidLen];
    } else {
      buf := oldBuf;
    }
    var n := Print(buf, 0, Dec2(rank) + file + Hex16(oid));
    ok := n == 2 + |file| + 16;
    assert buf[0..n] == buf[..n];
    PrintLocation(buf, 2 + |file| + 16, loc);
  }

  /** Appends the location, one coordinate at a time, to the string of length `at` in the buffer. */
  method PrintLocation(buf: array<char>, at: nat, loc: seq<uint64>)
    requires at + 16 * |loc| < buf.Length && buf[at] == '\0'
    modifies buf
    ensures HoldsString(buf, old(buf[..at]) + LocString(loc))
  {
    hide Hex16;
    hide LocString;
    ghost var front := buf[..at];
    var oidOff := at;
    var i := 0;
    assert loc[..0] == [] && |LocString([])| == 0;
    while i < |loc|
      invariant i <= |loc| && oidOff == at + 16 * i
      invariant HoldsString(buf, front + LocString(loc[..i]))
    {
      var n := Print(buf, oidOff, Hex16(loc[i]));
      ExtendLocation(loc, i);
      assert buf[..oidOff + 16] == buf[..oidOff] + buf[oidOff..oidOff + 16];
      oidOff := oidOff + 16;
      i := i + 1;
    }
    assert loc[..i] == loc;
  }

  lemma ExtendLocation(loc: seq<uint64>, i: nat)
    requires i < |loc|
    ensures LocString(loc[..i + 1]) == LocString(loc[..i]) + Hex16(loc[i])
  {
    assert loc[..i + 1][..i] == loc[..i];
  }
}
