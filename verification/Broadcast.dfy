/** Collective opens: the leader reads an object's metadata and broadcasts it, in one message if
    it fits the followers' static buffers and in two if it does not. */
module Broadcast {
  import opened Codec

  const DINFO_BUF_SIZE := 1024
  const GINFO_BUF_SIZE := 256
  const FOI_BUF_SIZE := 1024

  /** The C conversion of a 64-bit length to an int count. */
  function AsInt(n: nat): int {
    var m := n % 0x1_0000_0000;
    if m < 0x8000_0000 then m else m - 0x1_0000_0000
  }

  lemma AsIntExact(n: nat)
    ensures AsInt(n) == n <==> n < 0x8000_0000
  {
  }

  type Message = seq<byte>

  /** What a follower makes of the messages: the opened object with the number of broadcasts it
      took part in, the leader's failure mark, or a broadcast whose counts do not match. */
  datatype Got<T> = Opened(value: T, used: nat) | LeaderFailed | Broken

  // ----- the communicator -----

  /** The broadcasts of one collective call: those made by the leader, and how many of them this
      follower has taken. */
  class Comm {
    var sent: seq<Message>
    var taken: nat

    constructor ()
      ensures sent == [] && taken == 0
    {
      sent, taken := [], 0;
    }

    /** The leader's side; fails for a negative count. */
    method Send(buf: array<byte>, at: nat, count: int) returns (ok: bool)
      requires count >= 0 ==> at + count <= buf.Length
      modifies this
      ensures ok <==> count >= 0
      ensures taken == old(taken)
      ensures sent == if ok then old(sent) + [buf[at..at + count]] else old(sent)
    {
      ok := count >= 0;
      if ok {
        sent := sent + [buf[at..at + count]];
      }
    }

    /** A follower's side; fails unless the leader sent a message of just this size. */
    method Receive(buf: array<byte>, at: nat, count: int) returns (ok: bool)
      requires count >= 0 ==> at + count <= buf.Length
      modifies this, buf
      ensures ok <==> old(taken) < |sent| && |sent[old(taken)]| == count
      ensures sent == old(sent) && taken == if ok then old(taken) + 1 else old(taken)
      ensures buf[..] == if ok then old(buf[..at]) + sent[old(taken)] + old(buf[at + count..]) else old(buf[..])
    {
      ok := taken < |sent| && |sent[taken]| == count;
      if ok {
        var m := sent[taken];
        forall i | 0 <= i < |m| {
          buf[at + i] := m[i];
        }
        taken := taken + 1;
      }
    }
  }

  // ----- groups -----

  /** A group's messages: oid, length and, if it fits, the property list in a static buffer whose
      other bytes are whatever they were; else the property list in a message of its own. */
  ghost function GroupMessages(oid: uint64, gcpl: seq<byte>, junk: seq<byte>): seq<Message>
    requires |gcpl| < TWO_TO_THE_64 && |junk| == GINFO_BUF_SIZE
  {
    var header := Le64(oid) + Le64(|gcpl|);
    if |gcpl| + 16 <= GINFO_BUF_SIZE then [header + gcpl + junk[16 + |gcpl|..]]
    else if AsInt(|gcpl|) < 0 then [header + junk[16..]]
    else [header + junk[16..], gcpl[..AsInt(|gcpl|)]]
  }

  method LeaderGroupOpen(comm: Comm, oid: uint64, gcpl: array<byte>, ginfo: array<byte>)
    requires gcpl.Length < TWO_TO_THE_64 && ginfo.Length == GINFO_BUF_SIZE && gcpl != ginfo
    modifies comm, ginfo
    ensures comm.sent == old(comm.sent) + GroupMessages(oid, gcpl[..], old(ginfo[..]))
  {
    ghost var junk := ginfo[..];
    var gcplLen := gcpl.Length;
    AsIntExact(gcplLen);
    var p := Uint64Encode(ginfo, 0, oid);
    p := Uint64Encode(ginfo, p, gcplLen);
    assert ginfo[..] == Le64(oid) + Le64(gcplLen) + junk[16..];
    if gcplLen + 16 <= GINFO_BUF_SIZE {
      CopyBytes(ginfo, p, gcpl[..]);
      assert ginfo[..] == Le64(oid) + Le64(gcplLen) + gcpl[..] + junk[16 + gcplLen..];
    }
    var ok := comm.Send(ginfo, 0, GINFO_BUF_SIZE);
    assert ginfo[0..GINFO_BUF_SIZE] == ginfo[..];
    if gcplLen + 16 > GINFO_BUF_SIZE {
      ok := comm.Send(gcpl, 0, AsInt(gcplLen));
    }
  }

  /** What a follower reads from a group's messages. */
  ghost function GroupGot(msgs: seq<Message>): Got<(uint64, seq<byte>)> {
    if msgs == [] || |msgs[0]| != GINFO_BUF_SIZE then Broken
    else
      var m, oid, len := msgs[0], Nat64(msgs[0][..8]), Nat64(msgs[0][8..16]);
      if len == 0 then LeaderFailed
      else if len + 16 <= GINFO_BUF_SIZE then Opened((oid, m[16..16 + len]), 1)
      else if |msgs| < 2 || |msgs[1]| != len || AsInt(len) != len then Broken
      else Opened((oid, msgs[1]), 2)
  }

  /** The follower's side. The second receive goes to a static buffer if the property list fits
      it, although it did not fit behind the header. */
  method FollowerGroupOpen(comm: Comm, ginfo: array<byte>) returns (got: Got<(uint64, seq<byte>)>)
    requires ginfo.Length == GINFO_BUF_SIZE && comm.taken == 0
    modifies comm, ginfo
    ensures got == GroupGot(old(comm.sent))
    ensures got.Opened? ==> comm.taken == got.used
  {
    var ok := comm.Receive(ginfo, 0, GINFO_BUF_SIZE);
    if !ok {
      return Broken;
    }
    hide Nat64, AsInt;
    assert ginfo[..] == comm.sent[0];
    var oid, p := Uint64Decode(ginfo, 0);
    var gcplLen;
    gcplLen, p := Uint64Decode(ginfo, p);
    assert ginfo[0..8] == comm.sent[0][..8] && ginfo[8..16] == comm.sent[0][8..16];
    if gcplLen == 0 {
      return LeaderFailed;
    }
    if gcplLen + 16 > GINFO_BUF_SIZE {
      got := ReceiveProperties(comm, ginfo, oid, gcplLen);
      return;
    }
    return Opened((oid, ginfo[p..p + gcplLen]), 1);
  }

  method ReceiveProperties(comm: Comm, ginfo: array<byte>, oid: uint64, gcplLen: uint64)
    returns (got: Got<(uint64, seq<byte>)>)
    requires ginfo.Length == GINFO_BUF_SIZE && comm.taken == 1
    modifies comm, ginfo
    ensures got == if |comm.sent| < 2 || |comm.sent[1]| != gcplLen || AsInt(gcplLen) != gcplLen then Broken
                   else Opened((oid, comm.sent[1]), 2)
    ensures comm.sent == old(comm.sent) && (got.Opened? ==> comm.taken == 2)
  {
    AsIntBelow(gcplLen);
    hide AsInt;
    var buf := ginfo;
    if gcplLen > GINFO_BUF_SIZE {
      buf := new byte[gcplLen];
    }
    var ok := comm.Receive(buf, 0, AsInt(gcplLen));
    if !ok || AsInt(gcplLen) != gcplLen {
      return Broken;
    }
    assert buf[..gcplLen] == comm.sent[1];
    return Opened((oid, buf[..gcplLen]), 2);
  }

  /** Leader and follower agree for every length that an int can count: the same number of
      broadcasts, of the same sizes, and the leader's oid and property list. Longer ones fail, and an empty list
      reads as the mark of a leader that failed. */
  lemma GroupAgreement(oid: uint64, gcpl: seq<byte>, junk: seq<byte>)
    requires |gcpl| < TWO_TO_THE_64 && |junk| == GINFO_BUF_SIZE
    ensures var msgs := GroupMessages(oid, gcpl, junk);
      GroupGot(msgs) ==
        if gcpl == [] then LeaderFailed
        else if |gcpl| < 0x8000_0000 then Opened((oid, gcpl), |msgs|)
        else Broken
  {
    var msgs, len := GroupMessages(oid, gcpl, junk), |gcpl|;
    Uint64RoundTrip(oid, Le64(0));
    Uint64RoundTrip(len, Le64(0));
    AsIntExact(len);
    if len + 16 <= GINFO_BUF_SIZE {
      Slices(Le64(oid), Le64(len), gcpl, junk[16 + len..]);
      assert msgs == [Le64(oid) + Le64(len) + gcpl + junk[16 + len..]];
    } else {
      Slices(Le64(oid), Le64(len), junk[16..], []);
      assert Le64(oid) + Le64(len) + junk[16..] + [] == Le64(oid) + Le64(len) + junk[16..];
      assert msgs[0] == Le64(oid) + Le64(len) + junk[16..];
      assert len < 0x8000_0000 ==> gcpl[..AsInt(len)] == gcpl;
    }
    hide Le64, Nat64, AsInt;
  }

  // ----- datasets -----

  /** A dataset's messages: oid and stored record in a static buffer if they fit; else the first
      part of them, and then the record behind its length words in a message of its own. */
  ghost function DatasetMessages(oid: uint64, md: seq<byte>, junk: seq<byte>): seq<Message>
    requires |md| >= 24 && |junk| == DINFO_BUF_SIZE
  {
    var data, rest := Le64(oid) + md, |md| - 24;
    AsIntBelow(rest);
    if |data| <= DINFO_BUF_SIZE then [data + junk[|data|..]]
    else if AsInt(rest) < 0 then [data[..DINFO_BUF_SIZE]]
    else [data[..DINFO_BUF_SIZE], data[32..32 + AsInt(rest)]]
  }

  lemma AsIntBelow(n: nat)
    ensures AsInt(n) <= n
  {
  }

  method LeaderDatasetOpen(comm: Comm, oid: uint64, md: seq<byte>, dinfoStatic: array<byte>, ghost r: DatasetRecord)
    returns (ok: bool)
    requires Encodable(r) && md == EncodeRecord(r)
    requires dinfoStatic.Length == DINFO_BUF_SIZE
    modifies comm, dinfoStatic
    ensures ok
    ensures comm.sent == old(comm.sent) + DatasetMessages(oid, md, old(dinfoStatic[..]))
  {
    RecordLengthsOfEncoding(r);
    hide EncodeRecord, Le64, Nat64, RecordLengths, DatasetMessages;
    ghost var junk := dinfoStatic[..];
    var dinfo := dinfoStatic;
    if |md| + 8 > DINFO_BUF_SIZE {
      dinfo := new byte[|md| + 8];
    }
    ghost var before := dinfo[..];
    ok := CheckLengths(dinfo, md, r);
    if !ok {
      return;
    }
    BehindOid(Le64(oid), md, before);
    var p := Uint64Encode(dinfo, 0, oid);
    assert |md| + 8 > DINFO_BUF_SIZE ==> Le64(oid) + md + before[8 + |md|..] == Le64(oid) + md;
    SendDataset(comm, oid, md, dinfo, dinfo != dinfoStatic, junk);
  }

  /** Putting the oid in front of a record that was read in behind it. */
  lemma BehindOid(oid: seq<byte>, md: seq<byte>, before: seq<byte>)
    requires |oid| == 8 && 8 + |md| <= |before|
    ensures var read := before[..8] + md + before[8 + |md|..];
      read[..0] + oid + read[8..] == oid + md + before[8 + |md|..]
  {
  }

  lemma LengthWords(front: seq<byte>, md: seq<byte>, back: seq<byte>)
    requires |front| == 8 && |md| >= 24
    ensures var b := front + md + back;
      b[8..16] == md[..8] && b[16..24] == md[8..16] && b[24..32] == md[16..24]
  {
  }

  /** Reads the record into the buffer behind the room for the oid and checks its lengths. */
  method CheckLengths(dinfo: array<byte>, md: seq<byte>, ghost r: DatasetRecord) returns (ok: bool)
    requires Encodable(r) && md == EncodeRecord(r) && 8 + |md| <= dinfo.Length
    modifies dinfo
    ensures ok && dinfo[..] == old(dinfo[..8]) + md + old(dinfo[8 + |md|..])
  {
    WrittenLengths(r);
    hide *;
    LengthWords(dinfo[..8], md, dinfo[8 + |md|..]);
    CopyBytes(dinfo, 8, md);
    ghost var filled := dinfo[..];
    assert dinfo[8..16] == filled[8..16] && dinfo[16..24] == filled[16..24] && dinfo[24..32] == filled[24..32];
    var typeLen, spaceLen, dcplLen, p;
    typeLen, p := Uint64Decode(dinfo, 8);
    spaceLen, p := Uint64Decode(dinfo, p);
    dcplLen, p := Uint64Decode(dinfo, p);
    ok := (typeLen + spaceLen + dcplLen + 24) % 0x1_0000_0000_0000_0000 == |md|;
  }

  /** The length words of a stored record, and that they pass the check. */
  lemma WrittenLengths(r: DatasetRecord)
    requires Encodable(r)
    ensures var md, t, s, d := EncodeRecord(r), |r.dtype|, |r.space|, |r.dcpl|;
      && |md| >= 24
      && Nat64(md[..8]) == t && Nat64(md[8..16]) == s && Nat64(md[16..24]) == d
      && (t + s + d + 24) % 0x1_0000_0000_0000_0000 == |md|
  {
    RecordLengthsOfEncoding(r);
    ModSmall(24 + |r.dtype| + |r.space| + |r.dcpl|);
    hide EncodeRecord, Nat64, Le64;
  }

  /** The one or two broadcasts of the leader. */
  method SendDataset(comm: Comm, oid: uint64, md: seq<byte>, dinfo: array<byte>, dynamic: bool, ghost junk: seq<byte>)
    requires |md| >= 24 && |junk| == DINFO_BUF_SIZE
    requires dynamic <==> |md| + 8 > DINFO_BUF_SIZE
    requires dinfo.Length == if dynamic then |md| + 8 else DINFO_BUF_SIZE
    requires dinfo[..] == if dynamic then Le64(oid) + md else Le64(oid) + md + junk[8 + |md|..]
    modifies comm
    ensures comm.sent == old(comm.sent) + DatasetMessages(oid, md, junk)
  {
    hide Le64;
    hide AsInt;
    ghost var data, msgs := Le64(oid) + md, DatasetMessages(oid, md, junk);
    AsIntBelow(|md| - 24);
    assert dinfo[0..DINFO_BUF_SIZE] == msgs[0];
    var ok := comm.Send(dinfo, 0, DINFO_BUF_SIZE);
    if dynamic {
      assert AsInt(|md| - 24) >= 0 ==> dinfo[32..32 + AsInt(|md| - 24)] == msgs[1];
      ok := comm.Send(dinfo, 32, AsInt(|md| - 24));
    }
  }

  /** The blobs of a record, one after the other in a buffer. */
  function Blobs(bs: seq<byte>, t: nat, s: nat, d: nat): DatasetRecord
    requires t + s + d <= |bs|
  {
    DatasetRecord(bs[..t], bs[t..t + s], bs[t + s..t + s + d])
  }

  /** What a follower reads from a dataset's messages. */
  ghost function DatasetGot(msgs: seq<Message>): Got<(uint64, DatasetRecord)> {
    if msgs == [] || |msgs[0]| != DINFO_BUF_SIZE then Broken
    else
      var m, oid := msgs[0], Nat64(msgs[0][..8]);
      var (t, s, d) := RecordLengths(msgs[0][8..]);
      var tot := (t + s + d) % TWO_TO_THE_64;
      if t == 0 then LeaderFailed
      else if tot != t + s + d then Broken
      else if tot + 32 <= DINFO_BUF_SIZE then Opened((oid, Blobs(m[32..], t, s, d)), 1)
      else if |msgs| < 2 || |msgs[1]| != tot || AsInt(tot) != tot then Broken
      else Opened((oid, Blobs(msgs[1], t, s, d)), 2)
  }

  /** The follower's side. The second receive goes to the static buffer if it fits there. */
  method FollowerDatasetOpen(comm: Comm, dinfoStatic: array<byte>) returns (got: Got<(uint64, DatasetRecord)>)
    requires dinfoStatic.Length == DINFO_BUF_SIZE && comm.taken == 0
    modifies comm, dinfoStatic
    ensures got == DatasetGot(old(comm.sent))
    ensures got.Opened? ==> comm.taken == got.used
  {
    var ok := comm.Receive(dinfoStatic, 0, DINFO_BUF_SIZE);
    if !ok {
      return Broken;
    }
    hide Nat64, AsInt;
    ghost var m := comm.sent[0];
    assert dinfoStatic[..] == m;
    assert dinfoStatic[0..8] == m[..8] && dinfoStatic[8..16] == m[8..][..8];
    assert dinfoStatic[16..24] == m[8..][8..16] && dinfoStatic[24..32] == m[8..][16..24];
    var oid, t, s, d, p;
    oid, p := Uint64Decode(dinfoStatic, 0);
    t, p := Uint64Decode(dinfoStatic, p);
    s, p := Uint64Decode(dinfoStatic, p);
    d, p := Uint64Decode(dinfoStatic, p);
    if t == 0 {
      return LeaderFailed;
    }
    var tot := (t + s + d) % TWO_TO_THE_64;
    if tot != t + s + d {
      return Broken;
    }
    if tot + 32 > DINFO_BUF_SIZE {
      got := ReceiveRest(comm, dinfoStatic, oid, t, s, d);
      return;
    }
    assert dinfoStatic[p..] == m[32..];
    return Opened((oid, Blobs(dinfoStatic[p..], t, s, d)), 1);
  }

  method ReceiveRest(comm: Comm, dinfoStatic: array<byte>, oid: uint64, t: nat, s: nat, d: nat)
    returns (got: Got<(uint64, DatasetRecord)>)
    requires dinfoStatic.Length == DINFO_BUF_SIZE && comm.taken == 1
    modifies comm, dinfoStatic
    ensures got == if |comm.sent| < 2 || |comm.sent[1]| != t + s + d || AsInt(t + s + d) != t + s + d then Broken
                   else Opened((oid, Blobs(comm.sent[1], t, s, d)), 2)
    ensures comm.sent == old(comm.sent) && (got.Opened? ==> comm.taken == 2)
  {
    var tot := t + s + d;
    AsIntBelow(tot);
    var buf := dinfoStatic;
    if tot > DINFO_BUF_SIZE {
      buf := new byte[tot];
    }
    var ok := comm.Receive(buf, 0, AsInt(tot));
    if !ok || AsInt(tot) != tot {
      return Broken;
    }
    assert buf[..tot] == comm.sent[1];
    return Opened((oid, Blobs(buf[..tot], t, s, d)), 2);
  }

  /** Leader and followers agree on every stored record: the same broadcasts, and the leader's oid
      and record. The exceptions are a record without a datatype, which reads as the leader's
      failure mark, and one whose second message is too long for an int. */
  lemma DatasetAgreement(oid: uint64, r: DatasetRecord, junk: seq<byte>)
    requires Encodable(r) && |junk| == DINFO_BUF_SIZE
    ensures var msgs := DatasetMessages(oid, EncodeRecord(r), junk);
      var tot := |r.dtype| + |r.space| + |r.dcpl|;
      DatasetGot(msgs) ==
        if r.dtype == [] then LeaderFailed
        else if tot + 32 <= DINFO_BUF_SIZE || tot < 0x8000_0000 then Opened((oid, r), |msgs|)
        else Broken
  {
    var md := EncodeRecord(r);
    var msgs := DatasetMessages(oid, md, junk);
    var t, s, d := |r.dtype|, |r.space|, |r.dcpl|;
    var tot := t + s + d;
    RecordLengthsOfEncoding(r);
    Uint64RoundTrip(oid, Le64(0));
    AsIntExact(tot);
    RecordParts(r);
    FirstMessage(oid, md, junk);
    Payload(oid, md, junk);
    GotCases(msgs, oid, t, s, d);
    if tot + 32 <= DINFO_BUF_SIZE {
      BlobsOfPrefix(msgs[0][32..], t, s, d);
    }
    hide *;
  }

  /** What a follower reads, by the lengths it finds. */
  lemma GotCases(msgs: seq<Message>, oid: uint64, t: uint64, s: uint64, d: uint64)
    requires msgs != [] && |msgs[0]| == DINFO_BUF_SIZE && t + s + d < TWO_TO_THE_64
    requires Nat64(msgs[0][..8]) == oid && RecordLengths(msgs[0][8..]) == (t, s, d)
    ensures var tot := t + s + d;
      DatasetGot(msgs) ==
        if t == 0 then LeaderFailed
        else if tot + 32 <= DINFO_BUF_SIZE then Opened((oid, Blobs(msgs[0][32..], t, s, d)), 1)
        else if |msgs| < 2 || |msgs[1]| != tot || AsInt(tot) != tot then Broken
        else Opened((oid, Blobs(msgs[1], t, s, d)), 2)
  {
    hide Nat64, RecordLengths, AsInt, Blobs;
  }

  /** Where the record behind its length words travels. */
  lemma Payload(oid: uint64, md: seq<byte>, junk: seq<byte>)
    requires |md| >= 24 && |junk| == DINFO_BUF_SIZE
    ensures var msgs, tot := DatasetMessages(oid, md, junk), |md| - 24;
      && |msgs[0]| == DINFO_BUF_SIZE
      && (tot + 32 <= DINFO_BUF_SIZE ==> |msgs| == 1 && msgs[0][32..][..tot] == md[24..])
      && (DINFO_BUF_SIZE < tot + 32 && tot < 0x8000_0000 ==> |msgs| == 2 && msgs[1] == md[24..])
      && (DINFO_BUF_SIZE < tot + 32 && tot >= 0x8000_0000 ==> |msgs| == 1 || |msgs[1]| != tot)
  {
    hide Le64;
    var msgs, tot := DatasetMessages(oid, md, junk), |md| - 24;
    AsIntExact(tot);
    AsIntBelow(tot);
    if tot + 32 <= DINFO_BUF_SIZE {
      assert msgs[0][32..][..tot] == md[24..];
    } else if tot < 0x8000_0000 {
      assert msgs[1] == md[24..];
    }
  }

  /** The blobs behind the length words are those of the record. */
  lemma RecordParts(r: DatasetRecord)
    requires Encodable(r)
    ensures |EncodeRecord(r)| == 24 + |r.dtype| + |r.space| + |r.dcpl|
    ensures Blobs(EncodeRecord(r)[24..], |r.dtype|, |r.space|, |r.dcpl|) == r
  {
    RecordLengthsOfEncoding(r);
    var bs, t, s, d := EncodeRecord(r), |r.dtype|, |r.space|, |r.dcpl|;
    Blocks(Le64(t) + Le64(s) + Le64(d), r.dtype, r.space, r.dcpl);
    SliceOfTail(bs, 24, 0, t);
    SliceOfTail(bs, 24, t, t + s);
    SliceOfTail(bs, 24, t + s, t + s + d);
    BlobsAre(bs[24..], t, s, d);
    hide Le64, Blobs;
  }

  lemma BlobsOfPrefix(bs: seq<byte>, t: nat, s: nat, d: nat)
    requires t + s + d <= |bs|
    ensures Blobs(bs, t, s, d) == Blobs(bs[..t + s + d], t, s, d)
  {
    SliceOfPrefix(bs, t + s + d, 0, t);
    SliceOfPrefix(bs, t + s + d, t, t + s);
    SliceOfPrefix(bs, t + s + d, t + s, t + s + d);
    BlobsAre(bs, t, s, d);
    BlobsAre(bs[..t + s + d], t, s, d);
    hide *;
  }

  lemma BlobsAre(bs: seq<byte>, t: nat, s: nat, d: nat)
    requires t + s + d <= |bs|
    ensures Blobs(bs, t, s, d) == DatasetRecord(bs[0..t], bs[t..t + s], bs[t + s..t + s + d])
  {
    assert bs[..t] == bs[0..t];
  }

  lemma SliceOfPrefix(bs: seq<byte>, n: nat, i: nat, j: nat)
    requires i <= j <= n <= |bs|
    ensures bs[..n][i..j] == bs[i..j]
  {
  }

  lemma SliceOfTail(bs: seq<byte>, n: nat, i: nat, j: nat)
    requires n <= |bs| && i <= j <= |bs| - n
    ensures bs[n..][i..j] == bs[n + i..n + j]
  {
  }

  lemma FirstMessage(oid: uint64, md: seq<byte>, junk: seq<byte>)
    requires |md| >= 24 && |junk| == DINFO_BUF_SIZE
    ensures var m := DatasetMessages(oid, md, junk)[0];
      |m| == DINFO_BUF_SIZE && m[..8] == Le64(oid) && RecordLengths(m[8..]) == RecordLengths(md)
  {
    var m := DatasetMessages(oid, md, junk)[0];
    hide Le64;
    assert forall i :: 0 <= i < 24 ==> m[8..][i] == m[8 + i] == md[i];
    assert m[8..][..8] == md[..8];
    assert m[8..][8..16] == md[8..16];
    assert m[8..][16..24] == md[16..24];
  }

  // ----- files -----

  /** A file's message: stored maximum and root group properties. Properties that do not fit the
      static buffer stop the leader on an assertion before it broadcasts. */
  ghost function FileMessages(stored: seq<byte>, gcpl: seq<byte>, junk: seq<byte>): seq<Message>
    requires |stored| == 8 && |gcpl| < TWO_TO_THE_64 && |junk| == FOI_BUF_SIZE
  {
    if |gcpl| + 16 > FOI_BUF_SIZE then []
    else [stored + Le64(|gcpl|) + gcpl + junk[16 + |gcpl|..]]
  }

  method LeaderFileOpen(comm: Comm, stored: seq<byte>, gcpl: seq<byte>, foi: array<byte>) returns (maxOid: uint64)
    requires |stored| == 8 && |gcpl| < TWO_TO_THE_64 && foi.Length == FOI_BUF_SIZE
    modifies comm, foi
    ensures maxOid == Nat64(stored)
    ensures comm.sent == old(comm.sent) + FileMessages(stored, gcpl, old(foi[..]))
  {
    hide Le64, Nat64, FileMessages;
    ghost var junk := foi[..];
    CopyBytes(foi, 0, stored);
    assert foi[0..8] == stored;
    if |gcpl| + 16 <= FOI_BUF_SIZE {
      FilePacked(stored, Le64(|gcpl|), gcpl, junk);
    }
    FileMessagesCases(stored, gcpl, junk);
    var p;
    maxOid, p := Uint64Decode(foi, 0);
    if |gcpl| + 16 > FOI_BUF_SIZE {
      return;
    }
    p := Uint64Encode(foi, p, |gcpl|);
    CopyBytes(foi, p, gcpl);
    assert foi[0..FOI_BUF_SIZE] == foi[..];
    var ok := comm.Send(foi, 0, FOI_BUF_SIZE);
  }

  lemma FileMessagesCases(stored: seq<byte>, gcpl: seq<byte>, junk: seq<byte>)
    requires |stored| == 8 && |gcpl| < TWO_TO_THE_64 && |junk| == FOI_BUF_SIZE
    ensures FileMessages(stored, gcpl, junk) ==
      if |gcpl| + 16 > FOI_BUF_SIZE then [] else [stored + Le64(|gcpl|) + gcpl + junk[16 + |gcpl|..]]
  {
  }

  /** Filling the buffer front to back. */
  lemma FilePacked(a: seq<byte>, b: seq<byte>, c: seq<byte>, junk: seq<byte>)
    requires |a| == |b| == 8 && 16 + |c| <= |junk|
    ensures var s1 := junk[..0] + a + junk[8..];
      var s2 := s1[..8] + b + s1[16..];
      s2[..16] + c + s2[16 + |c|..] == a + b + c + junk[16 + |c|..]
  {
  }

  /** What a follower reads from a file's messages. It asks for a second message when the first
      cannot hold the properties, into a buffer that exists only if they exceed the static one. */
  ghost function FileGot(msgs: seq<Message>): Got<(uint64, seq<byte>)> {
    if msgs == [] || |msgs[0]| != FOI_BUF_SIZE then Broken
    else
      var m, len := msgs[0], Nat64(msgs[0][8..16]);
      if len == 0 then LeaderFailed
      else if len + 16 <= FOI_BUF_SIZE then Opened((Nat64(m[..8]), m[16..16 + len]), 1)
      else if len <= FOI_BUF_SIZE || |msgs| < 2 || |msgs[1]| != len || AsInt(len) != len then Broken
      else Opened((Nat64(m[..8]), msgs[1]), 2)
  }

  method FollowerFileOpen(comm: Comm, foi: array<byte>) returns (got: Got<(uint64, seq<byte>)>)
    requires foi.Length == FOI_BUF_SIZE && comm.taken == 0
    modifies comm, foi
    ensures got == FileGot(old(comm.sent))
    ensures got.Opened? ==> comm.taken == got.used
  {
    var ok := comm.Receive(foi, 0, FOI_BUF_SIZE);
    if !ok {
      return Broken;
    }
    assert foi[..] == comm.sent[0];
    assert foi[0..8] == comm.sent[0][..8] && foi[8..16] == comm.sent[0][8..16];
    var maxOid, gcplLen, p;
    maxOid, p := Uint64Decode(foi, 0);
    gcplLen, p := Uint64Decode(foi, p);
    if gcplLen == 0 {
      return LeaderFailed;
    }
    if gcplLen + 16 <= FOI_BUF_SIZE {
      return Opened((maxOid, foi[p..p + gcplLen]), 1);
    }
    if gcplLen <= FOI_BUF_SIZE || AsInt(gcplLen) != gcplLen {
      return Broken;
    }
    var foiDyn := new byte[gcplLen];
    ok := comm.Receive(foiDyn, 0, gcplLen);
    if !ok {
      return Broken;
    }
    assert foiDyn[..] == comm.sent[1];
    return Opened((maxOid, foiDyn[..]), 2);
  }

  lemma Slices(a: seq<byte>, b: seq<byte>, c: seq<byte>, d: seq<byte>)
    requires |a| == |b| == 8
    ensures var m := a + b + c + d;
      m[..8] == a && m[8..16] == b && m[16..16 + |c|] == c
  {
  }

  /** Opening a file works on all ranks exactly when there are properties and they fit the static
      buffer. An empty list reads as the mark of a leader that failed. */
  lemma FileAgreement(stored: seq<byte>, gcpl: seq<byte>, junk: seq<byte>)
    requires |stored| == 8 && |gcpl| < TWO_TO_THE_64 && |junk| == FOI_BUF_SIZE
    ensures var msgs := FileMessages(stored, gcpl, junk);
      FileGot(msgs) ==
        if gcpl == [] then LeaderFailed
        else if |gcpl| + 16 <= FOI_BUF_SIZE then Opened((Nat64(stored), gcpl), |msgs|)
        else Broken
  {
    var msgs := FileMessages(stored, gcpl, junk);
    Uint64RoundTrip(|gcpl|, Le64(0));
    hide Le64;
    hide Nat64;
    if |gcpl| + 16 <= FOI_BUF_SIZE {
      Slices(stored, Le64(|gcpl|), gcpl, junk[16 + |gcpl|..]);
      assert msgs[0] == stored + Le64(|gcpl|) + gcpl + junk[16 + |gcpl|..];
    }
  }

  /** A leader that fails before it broadcasts leaves the followers without a message: none of
      their opens succeeds, and none sees the failure mark that the leader never sends. */
  lemma SilentLeader()
    ensures GroupGot([]) == Broken
    ensures DatasetGot([]) == Broken
    ensures FileGot([]) == Broken
  {
  }
}
