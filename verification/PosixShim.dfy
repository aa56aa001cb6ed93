/** The POSIX interception layer and the storage server behind it, against an operating system
    that keeps one byte sequence per path and one offset per descriptor (IEEE Std 1003.1-2017,
    System Interfaces, open(), read(), write(), lseek(), close()). */
module PosixShim {
  import opened Codec
  import opened PathConfig

  // ----- the operating system: what a program without the layer would see -----

  datatype Flags = Flags(read: bool, write: bool, append: bool, creat: bool, excl: bool, trunc: bool)
  datatype Description = Description(path: string, flags: Flags, offset: nat)
  datatype Kernel = Kernel(files: map<string, seq<byte>>, fds: map<int, Description>)
  datatype Whence = SeekSet | SeekCur | SeekEnd | SeekOther
  datatype Reply = Reply(ret: int, data: seq<byte>)

  datatype Op =
    | Open(path: string, flags: Flags)
    | Read(fd: int, stale: seq<byte>)   // the caller asks for |stale| bytes
    | Write(fd: int, data: seq<byte>)
    | Lseek(fd: int, offset: int, whence: Whence)
    | Close(fd: int)

  const ERROR := Reply(-1, [])

  function FileOf(files: map<string, seq<byte>>, path: string): seq<byte> {
    if path in files then files[path] else []
  }

  function ReadAt(file: seq<byte>, off: nat, count: nat): seq<byte> {
    if off >= |file| then [] else if off + count <= |file| then file[off..off + count] else file[off..]
  }

  /** Bytes past the end that are skipped become zero; writing nothing changes nothing. */
  function WriteAt(file: seq<byte>, off: nat, data: seq<byte>): seq<byte> {
    if data == [] then file
    else
      var front := if off <= |file| then file[..off] else file + seq(off - |file|, _ => 0);
      var back := if off + |data| <= |file| then file[off + |data|..] else [];
      front + data + back
  }

  /** The lowest number not in use. */
  function FreeFrom(used: set<int>, n: nat): (fd: nat)
    ensures fd !in used && fd >= n
    ensures forall k: int :: n <= k < fd ==> k in used
    decreases used
  {
    if n !in used then n else FreeFrom(used - {n}, n + 1)
  }

  function Absolute(cwd: string, path: string): string {
    if path != "" && path[0] == '/' then path else cwd + "/" + path
  }

  function KernelOpen(k: Kernel, cwd: string, path: string, flags: Flags): (Kernel, Reply) {
    var name := Absolute(cwd, path);
    if path == "" || (name in k.files && flags.creat && flags.excl) || (name !in k.files && !flags.creat) then (k, ERROR)
    else
      var file := if flags.trunc && flags.write then [] else FileOf(k.files, name);
      var fd := FreeFrom(k.fds.Keys, 0);
      (Kernel(k.files[name := file], k.fds[fd := Description(name, flags, 0)]), Reply(fd, []))
  }

  function MoveTo(k: Kernel, fd: int, off: nat): Kernel
    requires fd in k.fds
  {
    k.(fds := k.fds[fd := k.fds[fd].(offset := off)])
  }

  function KernelRead(k: Kernel, fd: int, count: nat): (Kernel, Reply) {
    if fd !in k.fds || !k.fds[fd].flags.read then (k, ERROR)
    else
      var d := k.fds[fd];
      var data := ReadAt(FileOf(k.files, d.path), d.offset, count);
      (MoveTo(k, fd, d.offset + |data|), Reply(|data|, data))
  }

  function KernelWrite(k: Kernel, fd: int, data: seq<byte>): (Kernel, Reply) {
    if fd !in k.fds || !k.fds[fd].flags.write then (k, ERROR)
    else
      var d := k.fds[fd];
      var file := FileOf(k.files, d.path);
      var off := if d.flags.append && data != [] then |file| else d.offset;
      (MoveTo(k.(files := k.files[d.path := WriteAt(file, off, data)]), fd, off + |data|), Reply(|data|, []))
  }

  function SeekTarget(k: Kernel, fd: int, offset: int, whence: Whence): int
    requires fd in k.fds
  {
    match whence
    case SeekSet => offset
    case SeekCur => k.fds[fd].offset + offset
    case SeekEnd => |FileOf(k.files, k.fds[fd].path)| + offset
    case SeekOther => -1
  }

  function KernelLseek(k: Kernel, fd: int, offset: int, whence: Whence): (Kernel, Reply) {
    if fd !in k.fds || SeekTarget(k, fd, offset, whence) < 0 then (k, ERROR)
    else
      var to := SeekTarget(k, fd, offset, whence);
      (MoveTo(k, fd, to), Reply(to, []))
  }

  function KernelClose(k: Kernel, fd: int): (Kernel, Reply) {
    if fd !in k.fds then (k, ERROR) else (k.(fds := k.fds - {fd}), Reply(0, []))
  }

  function KernelStep(cwd: string, k: Kernel, op: Op): (Kernel, Reply) {
    match op
    case Open(path, flags) => KernelOpen(k, cwd, path, flags)
    case Read(fd, stale) => KernelRead(k, fd, |stale|)
    case Write(fd, data) => KernelWrite(k, fd, data)
    case Lseek(fd, offset, whence) => KernelLseek(k, fd, offset, whence)
    case Close(fd) => KernelClose(k, fd)
  }

  /** What positioned writing means, byte by byte: the new bytes, the bytes that were there,
      and zeros in a gap. */
  lemma WriteAtBytes(file: seq<byte>, off: nat, data: seq<byte>)
    ensures var r := WriteAt(file, off, data);
      && |r| == (if data == [] || off + |data| <= |file| then |file| else off + |data|)
      && (forall i :: 0 <= i < |r| ==>
            r[i] == if off <= i < off + |data| then data[i - off] else if i < |file| then file[i] else 0)
      && ReadAt(r, off, |data|) == (if data == [] then [] else data)
  {
  }

  /** What positioned reading means: as many bytes as asked for, or as many as lie behind the offset,
      each the file's byte at its place. */
  lemma ReadAtBytes(file: seq<byte>, off: nat, count: nat)
    ensures var r := ReadAt(file, off, count);
      && |r| == (if off + count <= |file| then count else if off <= |file| then |file| - off else 0)
      && forall i :: 0 <= i < |r| ==> r[i] == file[off + i]
  {
  }

  // ----- what the operating system's calls mean together -----

  /** Two reads in a row are one longer read. */
  lemma ReadsCompose(k: Kernel, fd: int, a: nat, b: nat)
    requires fd in k.fds && k.fds[fd].flags.read
    ensures var (k1, r1) := KernelRead(k, fd, a);
      var (k2, r2) := KernelRead(k1, fd, b);
      KernelRead(k, fd, a + b) == (k2, Reply(r1.ret + r2.ret, r1.data + r2.data))
  {
    var file, off := FileOf(k.files, k.fds[fd].path), k.fds[fd].offset;
    var one, two := ReadAt(file, off, a), ReadAt(file, off + |ReadAt(file, off, a)|, b);
    assert ReadAt(file, off, a + b) == one + two;
    var k1 := MoveTo(k, fd, off + |one|);
    assert MoveTo(k1, fd, off + |one| + |two|) == MoveTo(k, fd, off + |one + two|);
  }

  /** Going to a place, writing there, going back and reading gives the bytes written; without
      O_APPEND. Other files keep their contents and other descriptors their offsets. */
  lemma WriteSeekRead(k: Kernel, fd: int, off: nat, data: seq<byte>)
    requires fd in k.fds && k.fds[fd].flags.read && k.fds[fd].flags.write && !k.fds[fd].flags.append
    ensures var (k1, r1) := KernelLseek(k, fd, off, SeekSet);
      var (k2, r2) := KernelWrite(k1, fd, data);
      var (k3, r3) := KernelLseek(k2, fd, -|data|, SeekCur);
      var (k4, r4) := KernelRead(k3, fd, |data|);
      && r1.ret == off && r2.ret == |data| && r3.ret == off && r4 == Reply(|data|, data)
      && (forall path :: path != k.fds[fd].path ==> FileOf(k4.files, path) == FileOf(k.files, path))
      && (forall f :: f in k.fds && f != fd ==> f in k4.fds && k4.fds[f] == k.fds[f])
  {
    WriteAtBytes(FileOf(k.files, k.fds[fd].path), off, data);
    hide WriteAt;
  }

  /** With O_APPEND, bytes are added at the end, wherever the offset is, and the offset ends there. So
      they are after seeking to the end. */
  lemma AppendsAtEnd(k: Kernel, fd: int, data: seq<byte>)
    requires fd in k.fds && k.fds[fd].flags.write
    ensures var path, file := k.fds[fd].path, FileOf(k.files, k.fds[fd].path);
      var atEnd := KernelLseek(k, fd, 0, SeekEnd).0;
      && KernelLseek(k, fd, 0, SeekEnd).1.ret == |file|
      && FileOf(KernelWrite(atEnd, fd, data).0.files, path) == file + data
      && (k.fds[fd].flags.append ==> FileOf(KernelWrite(k, fd, data).0.files, path) == file + data)
      && (k.fds[fd].flags.append && data != [] ==>
            KernelWrite(k, fd, data).0.fds[fd].offset == |file + data|)
  {
    var file := FileOf(k.files, k.fds[fd].path);
    assert data != [] ==> file[..|file|] + data + [] == file + data;
    assert data == [] ==> file + data == file;
  }

  /** A seek to nowhere reports the offset and moves nothing; one before the start, or on what is not
      open, fails and changes nothing. */
  lemma SeekReports(k: Kernel, fd: int, offset: int, whence: Whence)
    ensures fd in k.fds ==> KernelLseek(k, fd, 0, SeekCur) == (k, Reply(k.fds[fd].offset, []))
    ensures fd in k.fds && offset >= 0 ==> KernelLseek(k, fd, offset, SeekSet).0.fds[fd].offset == offset
    ensures fd in k.fds && offset >= -|FileOf(k.files, k.fds[fd].path)| ==>
      KernelLseek(k, fd, offset, SeekEnd).1.ret == |FileOf(k.files, k.fds[fd].path)| + offset
    ensures KernelLseek(k, fd, offset, whence).1.ret < 0 ==> KernelLseek(k, fd, offset, whence).0 == k
    ensures KernelLseek(k, fd, offset, SeekOther).1 == ERROR
    ensures fd !in k.fds || k.fds[fd].offset + offset < 0 ==> KernelLseek(k, fd, offset, SeekCur).1 == ERROR
  {
    if fd in k.fds {
      assert k.fds[fd := k.fds[fd].(offset := k.fds[fd].offset)] == k.fds;
    }
  }

  /** When open succeeds, and what it finds: the contents that are there, or nothing if they were to
      be cut off or the file is new, with the offset at the start. */
  lemma OpenFinds(k: Kernel, cwd: string, path: string, flags: Flags, count: nat)
    ensures var name := Absolute(cwd, path);
      var (k', r) := KernelOpen(k, cwd, path, flags);
      && (r.ret >= 0 <==> path != "" && (if name in k.files then !(flags.creat && flags.excl) else flags.creat))
      && (r.ret < 0 ==> k' == k)
      && (r.ret >= 0 ==>
            && r.ret !in k.fds && r.ret in k'.fds && k'.fds[r.ret] == Description(name, flags, 0)
            && (flags.read ==>
                  KernelRead(k', r.ret, count).1.data ==
                    if name !in k.files || (flags.trunc && flags.write) then [] else ReadAt(k.files[name], 0, count))
            && (forall p :: p != name ==> FileOf(k'.files, p) == FileOf(k.files, p)))
  {
    hide Absolute;
  }

  /** After close no call on the descriptor succeeds; every other one is as before. */
  lemma CloseEnds(k: Kernel, fd: int, count: nat, data: seq<byte>, offset: int, whence: Whence)
    ensures var k' := KernelClose(k, fd).0;
      && KernelClose(k, fd).1.ret == (if fd in k.fds then 0 else -1)
      && KernelRead(k', fd, count).1 == KernelWrite(k', fd, data).1 == KernelLseek(k', fd, offset, whence).1 == ERROR
      && KernelClose(k', fd).1 == ERROR && k'.files == k.files
      && forall f :: f != fd ==> (f in k'.fds <==> f in k.fds) && (f in k.fds ==> k'.fds[f] == k.fds[f])
  {
  }

  /** The mode decides which transfers are possible. */
  lemma ModeDecides(k: Kernel, fd: int, count: nat, data: seq<byte>)
    ensures KernelRead(k, fd, count).1.ret >= 0 <==> fd in k.fds && k.fds[fd].flags.read
    ensures KernelWrite(k, fd, data).1.ret >= 0 <==> fd in k.fds && k.fds[fd].flags.write
    ensures KernelRead(k, fd, count).1.ret < 0 ==> KernelRead(k, fd, count).0 == k
    ensures KernelWrite(k, fd, data).1.ret < 0 ==> KernelWrite(k, fd, data).0 == k
  {
  }

  // ----- the layer's table of intercepted descriptors -----

  datatype FileInfo = FileInfo(absolutePath: string, flags: Flags, currentOffset: nat)
  datatype Option<T> = None | Some(value: T)

  function WithOffset(files: map<int, FileInfo>, fd: int, off: nat): map<int, FileInfo> {
    if fd in files then files[fd := files[fd].(currentOffset := off)] else files
  }

  class ClientMetadataManager {
    var posixFiles: map<int, FileInfo>

    constructor ()
      ensures posixFiles == map[]
    {
      posixFiles := map[];
    }

    method RegisterPosixFd(fd: int, absolutePath: string, flags: Flags)
      modifies this
      ensures posixFiles == old(posixFiles)[fd := FileInfo(absolutePath, flags, 0)]
    {
      posixFiles := posixFiles[fd := FileInfo(absolutePath, flags, 0)];
    }

    method IsPosixFdRegistered(fd: int) returns (r: bool)
      ensures r <==> fd in posixFiles
    {
      r := fd in posixFiles;
    }

    method GetPosixFileInfo(fd: int) returns (r: Option<FileInfo>)
      ensures r == if fd in posixFiles then Some(posixFiles[fd]) else None
    {
      if fd in posixFiles {
        r := Some(posixFiles[fd]);
      } else {
        r := None;
      }
    }

    method UnregisterPosixFd(fd: int)
      modifies this
      ensures posixFiles == old(posixFiles) - {fd}
    {
      posixFiles := posixFiles - {fd};
    }

    method UpdatePosixOffset(fd: int, newOffset: nat)
      modifies this
      ensures posixFiles == WithOffset(old(posixFiles), fd, newOffset)
    {
      if fd in posixFiles {
        posixFiles := posixFiles[fd := posixFiles[fd].(currentOffset := newOffset)];
      }
    }
  }

  // ----- the server: positioned access to a path -----

  const READ_WRITE_CREATE := Flags(true, true, false, true, false, false)

  /** The name without a leading dtio://. */
  function FilePath(filename: string): string {
    if "dtio://" <= filename then filename[7..] else filename
  }

  predicate IsAbsolute(path: string) {
    path != "" && path[0] == '/'
  }

  lemma AbsoluteKept(path: string)
    requires IsAbsolute(path)
    ensures FilePath(path) == path && forall cwd :: Absolute(cwd, path) == path
  {
  }

  /** The scheme goes, and nothing else; a relative name lies below the working directory. */
  lemma SchemeStripped(path: string, cwd: string)
    ensures FilePath("dtio://" + path) == path
    ensures !("dtio://" <= path) ==> FilePath(path) == path
    ensures !IsAbsolute(path) ==> cwd <= Absolute(cwd, path) && Absolute(cwd, path)[|cwd|..] == "/" + path
  {
    assert ("dtio://" + path)[7..] == path;
    assert (cwd + "/" + path)[|cwd|..] == "/" + path;
  }

  /** The file system, shared by the program and the server process. */
  class Disk {
    var files: map<string, seq<byte>>

    constructor (initial: map<string, seq<byte>>)
      ensures files == initial
    {
      files := initial;
    }
  }

  /** The bytes a server read leaves in the shared buffer: what the file has, then whatever was there. */
  function Overlay(data: seq<byte>, buffer: seq<byte>): seq<byte> {
    if |data| <= |buffer| then data + buffer[|data|..] else data
  }

  /** Each byte of the buffer is the file's at its place, or as it was if the file ends before. */
  ghost predicate FilledFrom(file: seq<byte>, off: nat, buffer: seq<byte>, filled: seq<byte>) {
    && |filled| == |buffer|
    && forall i :: 0 <= i < |buffer| ==> filled[i] == if off + i < |file| then file[off + i] else buffer[i]
  }

  lemma OverlayBytes(file: seq<byte>, off: nat, buffer: seq<byte>)
    ensures FilledFrom(file, off, buffer, Overlay(ReadAt(file, off, |buffer|), buffer))
  {
    ReadAtBytes(file, off, |buffer|);
    hide ReadAt;
  }

  /** The server process. It may have no more than `limit` descriptors open, and never closes one. */
  class Server {
    const disk: Disk
    const cwd: string
    const limit: nat
    var fds: map<int, Description>

    constructor (disk: Disk, cwd: string, limit: nat)
      ensures this.disk == disk && this.cwd == cwd && this.limit == limit && fds == map[] && Valid()
    {
      this.disk, this.cwd, this.limit := disk, cwd, limit;
      fds := map[];
    }

    ghost predicate Valid()
      reads this
    {
      |fds| <= limit && forall fd :: fd in fds ==> fd >= 0
    }

    /** A request for this name can be served: it is more than the prefix, and there is a
        descriptor left. Otherwise the failing calls print and the request has no effect. */
    predicate Serves(filename: string)
      reads this
    {
      FilePath(filename) != "" && |fds| < limit
    }

    /** open64(path, O_RDWR | O_CREAT). */
    function OpenPath(filepath: string): (Kernel, Reply)
      reads this, disk
    {
      var k := Kernel(disk.files, fds);
      if |fds| >= limit then (k, ERROR) else KernelOpen(k, cwd, filepath, READ_WRITE_CREATE)
    }

    /** A served write changes the file, and leaves one more descriptor open. */
    method Write(data: seq<byte>, dataOffset: nat, filename: string)
      requires Valid()
      modifies this, disk
      ensures Valid()
      ensures var name, files := Absolute(cwd, FilePath(filename)), old(disk.files);
        disk.files ==
          if old(Serves(filename)) then files[name := WriteAt(FileOf(files, name), dataOffset, data)] else files
      ensures |fds| == old(|fds|) + if old(Serves(filename)) then 1 else 0
    {
      var filepath := FilePath(filename);
      var atPath := OpenPath(filepath);
      var fd := atPath.1.ret;
      var sought := KernelLseek(atPath.0, fd, dataOffset, SeekSet);
      var written := KernelWrite(sought.0, fd, data);
      disk.files := written.0.files;
      fds := written.0.fds;
    }

    /** A served read fills the buffer as far as the file goes, and leaves one more descriptor open. */
    method Read(buffer: seq<byte>, dataOffset: nat, filename: string) returns (filled: seq<byte>)
      requires Valid()
      modifies this, disk
      ensures Valid() && |filled| == |buffer|
      ensures var name, files := Absolute(cwd, FilePath(filename)), old(disk.files);
        if old(Serves(filename)) then
          && disk.files == files[name := FileOf(files, name)]
          && filled == Overlay(ReadAt(FileOf(files, name), dataOffset, |buffer|), buffer)
          && FilledFrom(FileOf(files, name), dataOffset, buffer, filled)
        else disk.files == files && filled == buffer
      ensures |fds| == old(|fds|) + if old(Serves(filename)) then 1 else 0
    {
      var filepath := FilePath(filename);
      var atPath := OpenPath(filepath);
      var fd := atPath.1.ret;
      var sought := KernelLseek(atPath.0, fd, dataOffset, SeekSet);
      var got := KernelRead(sought.0, fd, |buffer|);
      filled := Overlay(got.1.data, buffer);
      OverlayBytes(FileOf(disk.files, Absolute(cwd, filepath)), dataOffset, buffer);
      disk.files := got.0.files;
      fds := got.0.fds;
    }
  }

  // ----- the layer's calls, as steps on values -----

  /** The program's kernel state, the layer's table, and how many descriptors the server may still
      open. */
  datatype World = World(kernel: Kernel, meta: map<int, FileInfo>, free: nat)

  function ShimOpen(w: World, table: seq<PathEntry>, cwd: string, path: string, flags: Flags): (World, Reply) {
    var (k, r) := KernelOpen(w.kernel, cwd, path, flags);
    var name := Absolute(cwd, path);
    if r.ret < 0 || !FirstMatch(table, name) then (w.(kernel := k), r)
    else (w.(kernel := k, meta := w.meta[r.ret := FileInfo(name, flags, 0)]), r)
  }

  function ShimRead(w: World, fd: int, stale: seq<byte>): (World, Reply) {
    if fd !in w.meta then
      var (k, r) := KernelRead(w.kernel, fd, |stale|);
      (w.(kernel := k), r)
    else
      var info := w.meta[fd];
      var file := FileOf(w.kernel.files, info.absolutePath);
      var meta := WithOffset(w.meta, fd, info.currentOffset + |stale|);
      if w.free == 0 then (w.(meta := meta), Reply(|stale|, stale))
      else
        (World(w.kernel.(files := w.kernel.files[info.absolutePath := file]), meta, w.free - 1),
         Reply(|stale|, Overlay(ReadAt(file, info.currentOffset, |stale|), stale)))
  }

  function ShimWrite(w: World, fd: int, data: seq<byte>): (World, Reply) {
    if fd !in w.meta then
      var (k, r) := KernelWrite(w.kernel, fd, data);
      (w.(kernel := k), r)
    else
      var info := w.meta[fd];
      var file := WriteAt(FileOf(w.kernel.files, info.absolutePath), info.currentOffset, data);
      var meta := WithOffset(w.meta, fd, info.currentOffset + |data|);
      if w.free == 0 then (w.(meta := meta), Reply(|data|, []))
      else
        (World(w.kernel.(files := w.kernel.files[info.absolutePath := file]), meta, w.free - 1), Reply(|data|, []))
  }

  function ShimLseek(w: World, fd: int, offset: int, whence: Whence): (World, Reply) {
    var (k, r) := KernelLseek(w.kernel, fd, offset, whence);
    if fd !in w.meta || r.ret < 0 then (w.(kernel := k), r)
    else (w.(kernel := k, meta := WithOffset(w.meta, fd, r.ret)), r)
  }

  function ShimClose(w: World, fd: int): (World, Reply) {
    var (k, r) := KernelClose(w.kernel, fd);
    (w.(kernel := k, meta := if fd in w.meta then w.meta - {fd} else w.meta), r)
  }

  function ShimStep(table: seq<PathEntry>, cwd: string, w: World, op: Op): (World, Reply) {
    match op
    case Open(path, flags) => ShimOpen(w, table, cwd, path, flags)
    case Read(fd, stale) => ShimRead(w, fd, stale)
    case Write(fd, data) => ShimWrite(w, fd, data)
    case Lseek(fd, offset, whence) => ShimLseek(w, fd, offset, whence)
    case Close(fd) => ShimClose(w, fd)
  }

  /** What a read delivers: for a registered descriptor each byte of the file at the recorded offset
      as far as the server has a descriptor and the file goes; for any other readable one the bytes
      behind the kernel's offset. */
  ghost predicate ReadAnswers(w: World, fd: int, stale: seq<byte>, r: Reply) {
    if fd in w.meta then
      var info := w.meta[fd];
      && r.ret == |stale|
      && (w.free > 0 ==> FilledFrom(FileOf(w.kernel.files, info.absolutePath), info.currentOffset, stale, r.data))
      && (w.free == 0 ==> r.data == stale)
    else if fd in w.kernel.fds && w.kernel.fds[fd].flags.read then
      var file, off := FileOf(w.kernel.files, w.kernel.fds[fd].path), w.kernel.fds[fd].offset;
      && r.ret == |r.data| == (if off + |stale| <= |file| then |stale| else if off <= |file| then |file| - off else 0)
      && forall i :: 0 <= i < |r.data| ==> r.data[i] == file[off + i]
    else r == ERROR
  }

  lemma ReadIsAnswered(w: World, fd: int, stale: seq<byte>)
    ensures ReadAnswers(w, fd, stale, ShimRead(w, fd, stale).1)
  {
    if fd in w.meta {
      OverlayBytes(FileOf(w.kernel.files, w.meta[fd].absolutePath), w.meta[fd].currentOffset, stale);
    } else if fd in w.kernel.fds {
      ReadAtBytes(FileOf(w.kernel.files, w.kernel.fds[fd].path), w.kernel.fds[fd].offset, |stale|);
    }
    hide FilledFrom, Overlay, ReadAt;
  }

  // ----- the layer itself -----

  class Shim {
    const disk: Disk
    const server: Server
    const meta: ClientMetadataManager
    const config: ConfigurationManager
    const cwd: string
    var fds: map<int, Description>   // the process's descriptors, as the kernel holds them

    constructor (disk: Disk, server: Server, meta: ClientMetadataManager, config: ConfigurationManager, cwd: string)
      requires server.disk == disk && server.Valid() && meta.posixFiles == map[]
      ensures this.disk == disk && this.server == server && this.meta == meta && this.config == config
      ensures this.cwd == cwd && fds == map[] && Ready()
    {
      this.disk, this.server, this.meta, this.config, this.cwd := disk, server, meta, config, cwd;
      fds := map[];
    }

    ghost function Now(): World
      reads this, disk, meta, server
      requires server.Valid()
    {
      World(Kernel(disk.files, fds), meta.posixFiles, server.limit - |server.fds|)
    }

    ghost predicate Ready()
      reads this, disk, meta, server
    {
      server.disk == disk && server.Valid() && forall fd :: fd in meta.posixFiles ==> IsAbsolute(meta.posixFiles[fd].absolutePath)
    }

    method Open(path: string, flags: Flags) returns (r: Reply)
      requires Ready() && IsAbsolute(cwd)
      modifies this, disk, meta
      ensures Ready() && (Now(), r) == ShimStep(config.pathEntries, cwd, old(Now()), Op.Open(path, flags))
    {
      var (k, reply) := KernelOpen(Kernel(disk.files, fds), cwd, path, flags);
      disk.files, fds := k.files, k.fds;
      if reply.ret < 0 {
        return reply;
      }
      var absPath := Absolute(cwd, path);
      var intercept := config.ShouldIntercept(absPath);
      if !intercept {
        return reply;
      }
      meta.RegisterPosixFd(reply.ret, absPath, flags);
      return reply;
    }

    /** creat() registers the flags that make it an open(). */
    method Creat(path: string) returns (r: Reply)
      requires Ready() && IsAbsolute(cwd)
      modifies this, disk, meta
      ensures Ready()
      ensures (Now(), r) == ShimStep(config.pathEntries, cwd, old(Now()),
                                     Op.Open(path, Flags(false, true, false, true, false, true)))
    {
      var flags := Flags(false, true, false, true, false, true);
      var (k, reply) := KernelOpen(Kernel(disk.files, fds), cwd, path, flags);
      disk.files, fds := k.files, k.fds;
      if reply.ret < 0 {
        return reply;
      }
      var absPath := Absolute(cwd, path);
      var intercept := config.ShouldIntercept(absPath);
      if !intercept {
        return reply;
      }
      meta.RegisterPosixFd(reply.ret, absPath, flags);
      return reply;
    }

    /** A registered descriptor has an entry: the second lookup cannot miss (see FdTable for
        what other threads may do in between). */
    method Read(fd: int, stale: seq<byte>) returns (r: Reply)
      requires Ready()
      modifies this, disk, meta, server
      ensures Ready() && (Now(), r) == ShimStep(config.pathEntries, cwd, old(Now()), Op.Read(fd, stale))
      ensures ReadAnswers(old(Now()), fd, stale, r)
    {
      ReadIsAnswered(Now(), fd, stale);
      var registered := meta.IsPosixFdRegistered(fd);
      if !registered {
        var (k, reply) := KernelRead(Kernel(disk.files, fds), fd, |stale|);
        disk.files, fds := k.files, k.fds;
        return reply;
      }
      var info := meta.GetPosixFileInfo(fd);
      AbsoluteKept(info.value.absolutePath);
      var filled := server.Read(stale, info.value.currentOffset, info.value.absolutePath);
      meta.UpdatePosixOffset(fd, info.value.currentOffset + |stale|);
      return Reply(|stale|, filled);
    }

    method Write(fd: int, data: seq<byte>) returns (r: Reply)
      requires Ready()
      modifies this, disk, meta, server
      ensures Ready() && (Now(), r) == ShimStep(config.pathEntries, cwd, old(Now()), Op.Write(fd, data))
    {
      var registered := meta.IsPosixFdRegistered(fd);
      if !registered {
        var (k, reply) := KernelWrite(Kernel(disk.files, fds), fd, data);
        disk.files, fds := k.files, k.fds;
        return reply;
      }
      var info := meta.GetPosixFileInfo(fd);
      AbsoluteKept(info.value.absolutePath);
      server.Write(data, info.value.currentOffset, info.value.absolutePath);
      meta.UpdatePosixOffset(fd, info.value.currentOffset + |data|);
      return Reply(|data|, []);
    }

    method Lseek(fd: int, offset: int, whence: Whence) returns (r: Reply)
      requires Ready()
      modifies this, disk, meta
      ensures Ready() && (Now(), r) == ShimStep(config.pathEntries, cwd, old(Now()), Op.Lseek(fd, offset, whence))
    {
      var registered := meta.IsPosixFdRegistered(fd);
      var (k, reply) := KernelLseek(Kernel(disk.files, fds), fd, offset, whence);
      disk.files, fds := k.files, k.fds;
      if !registered || reply.ret < 0 {
        return reply;
      }
      meta.UpdatePosixOffset(fd, reply.ret);
      return reply;
    }

    method Close(fd: int) returns (r: Reply)
      requires Ready()
      modifies this, disk, meta
      ensures Ready() && (Now(), r) == ShimStep(config.pathEntries, cwd, old(Now()), Op.Close(fd))
    {
      var registered := meta.IsPosixFdRegistered(fd);
      if registered {
        meta.UnregisterPosixFd(fd);
      }
      var (k, reply) := KernelClose(Kernel(disk.files, fds), fd);
      disk.files, fds := k.files, k.fds;
      return reply;
    }
  }

  // ----- what the program sees through the layer -----

  /** The table holds exactly the intercepted open descriptors, under their paths. */
  ghost predicate Valid(table: seq<PathEntry>, w: World) {
    && (forall fd :: fd in w.kernel.fds ==>
          IsAbsolute(w.kernel.fds[fd].path) && w.kernel.fds[fd].path in w.kernel.files)
    && (forall fd :: fd in w.meta ==> fd in w.kernel.fds && w.meta[fd].absolutePath == w.kernel.fds[fd].path)
    && (forall fd :: fd in w.kernel.fds ==> (fd in w.meta <==> FirstMatch(table, w.kernel.fds[fd].path)))
  }

  function SeenDescription(w: World, fd: int): Description
    requires fd in w.kernel.fds
  {
    if fd in w.meta then w.kernel.fds[fd].(offset := w.meta[fd].currentOffset) else w.kernel.fds[fd]
  }

  /** The operating system that the program believes it runs on: the recorded offset stands for
      the kernel's where there is one. */
  function Seen(w: World): Kernel {
    Kernel(w.kernel.files, map fd | fd in w.kernel.fds :: SeenDescription(w, fd))
  }

  /** The call does to the world as the program sees it what it would do without the layer, and
      answers the same. */
  ghost predicate Agrees(table: seq<PathEntry>, cwd: string, w: World, op: Op) {
    var (next, r) := ShimStep(table, cwd, w, op);
    (Seen(next), r) == KernelStep(cwd, Seen(w), op)
  }

  /** The bytes to write are already where they would go. */
  predicate RepeatsFile(file: seq<byte>, off: nat, data: seq<byte>) {
    data == [] || (off + |data| <= |file| && file[off..off + |data|] == data)
  }

  /** When that is so: the mode allows the call, a read stays inside the file, an appending write
      is at the end, a relative seek does not start from a stale kernel offset. Once the server has
      no descriptor left, a read is right only if the buffer happens to hold the file's bytes, and
      a write only if it repeats them. */
  predicate Guard(w: World, op: Op) {
    match op
    case Open(_, _) => true
    case Close(_) => true
    case Read(fd, stale) =>
      fd in w.meta && fd in w.kernel.fds ==>
        && w.kernel.fds[fd].flags.read
        && (stale == [] || w.meta[fd].currentOffset + |stale| <= |FileOf(w.kernel.files, w.kernel.fds[fd].path)|)
        && (w.free > 0 || ReadAt(FileOf(w.kernel.files, w.kernel.fds[fd].path), w.meta[fd].currentOffset, |stale|) == stale)
    case Write(fd, data) =>
      fd in w.meta && fd in w.kernel.fds ==>
        && w.kernel.fds[fd].flags.write
        && (data == [] || !w.kernel.fds[fd].flags.append
            || w.meta[fd].currentOffset == |FileOf(w.kernel.files, w.kernel.fds[fd].path)|)
        && (w.free > 0 || RepeatsFile(FileOf(w.kernel.files, w.kernel.fds[fd].path), w.meta[fd].currentOffset, data))
    case Lseek(fd, offset, whence) =>
      fd in w.meta && fd in w.kernel.fds && whence == SeekCur ==>
        || w.kernel.fds[fd].offset == w.meta[fd].currentOffset
        || (w.kernel.fds[fd].offset + offset < 0 && w.meta[fd].currentOffset + offset < 0)
  }

  lemma SeenRecorded(w: World, fd: int, off: nat, files: map<string, seq<byte>>, free: nat)
    requires fd in w.kernel.fds && fd in w.meta
    ensures Seen(World(w.kernel.(files := files), WithOffset(w.meta, fd, off), free))
         == MoveTo(Seen(w).(files := files), fd, off)
  {
    var next := World(w.kernel.(files := files), WithOffset(w.meta, fd, off), free);
    var moved := MoveTo(Seen(w).(files := files), fd, off);
    forall f | f in next.kernel.fds ensures SeenDescription(next, f) == moved.fds[f] {
      assert f != fd ==> moved.fds[f] == SeenDescription(w, f);
    }
    assert Seen(next).fds == moved.fds;
  }

  lemma SeenKernel(w: World, fd: int, off: nat, files: map<string, seq<byte>>)
    requires fd in w.kernel.fds && fd !in w.meta
    ensures Seen(w.(kernel := MoveTo(w.kernel.(files := files), fd, off))) == MoveTo(Seen(w).(files := files), fd, off)
  {
    var next := w.(kernel := MoveTo(w.kernel.(files := files), fd, off));
    var moved := MoveTo(Seen(w).(files := files), fd, off);
    forall f | f in next.kernel.fds ensures SeenDescription(next, f) == moved.fds[f] {
      assert f != fd ==> moved.fds[f] == SeenDescription(w, f);
    }
    assert Seen(next).fds == moved.fds;
  }

  /** A new descriptor at offset 0 looks the same with and without an entry in the table. */
  lemma SeenOpened(w: World, next: World, fd: int, d: Description)
    requires fd !in w.kernel.fds && fd !in w.meta && d.offset == 0
    requires next.kernel.fds == w.kernel.fds[fd := d]
    requires next.meta == w.meta || (next.meta.Keys == w.meta.Keys + {fd} && next.meta[fd].currentOffset == 0
                                     && forall f :: f in w.meta ==> next.meta[f] == w.meta[f])
    ensures Seen(next) == Kernel(next.kernel.files, Seen(w).fds[fd := d])
  {
    var fds := Seen(w).fds[fd := d];
    forall f | f in next.kernel.fds ensures SeenDescription(next, f) == fds[f] {
      assert f != fd ==> fds[f] == SeenDescription(w, f);
    }
    assert Seen(next).fds == fds;
  }

  lemma OpenAgrees(table: seq<PathEntry>, cwd: string, w: World, path: string, flags: Flags)
    requires Valid(table, w)
    ensures Agrees(table, cwd, w, Op.Open(path, flags))
  {
    hide FirstMatch, Absolute, FileOf, FreeFrom, IsAbsolute;
    var (next, r) := ShimOpen(w, table, cwd, path, flags);
    assert Seen(w).fds.Keys == w.kernel.fds.Keys;
    if r.ret >= 0 {
      var fd := FreeFrom(w.kernel.fds.Keys, 0);
      hide Valid;
      SeenOpened(w, next, fd, Description(Absolute(cwd, path), flags, 0));
      hide Seen;
    }
  }

  lemma CloseAgrees(table: seq<PathEntry>, cwd: string, w: World, fd: int)
    requires Valid(table, w)
    ensures Agrees(table, cwd, w, Op.Close(fd))
  {
    var (next, r) := ShimClose(w, fd);
    var (k, q) := KernelClose(Seen(w), fd);
    if fd in w.kernel.fds {
      forall f | f in next.kernel.fds ensures SeenDescription(next, f) == k.fds[f] {
        assert k.fds[f] == SeenDescription(w, f);
      }
      assert Seen(next).fds == k.fds;
    }
  }

  lemma RecordedReadAgrees(table: seq<PathEntry>, cwd: string, w: World, fd: int, stale: seq<byte>)
    requires Valid(table, w) && fd in w.meta
    ensures Agrees(table, cwd, w, Op.Read(fd, stale)) <==> Guard(w, Op.Read(fd, stale))
  {
    var info := w.meta[fd];
    var files := w.kernel.files;
    var file := files[info.absolutePath];
    assert files[info.absolutePath := file] == files;
    SeenRecorded(w, fd, info.currentOffset + |stale|, files, if w.free > 0 then w.free - 1 else 0);
    assert Seen(w).fds[fd] == SeenDescription(w, fd);
    assert Seen(w).fds[fd].offset == info.currentOffset && Seen(w).files == files;
    var data := ReadAt(file, info.currentOffset, |stale|);
    assert |data| == |stale| <==> stale == [] || info.currentOffset + |stale| <= |file|;
    hide ReadAt, FirstMatch, IsAbsolute, Valid;
    if |data| == |stale| {
      assert Overlay(data, stale) == data;
    }
  }

  lemma ReadAgrees(table: seq<PathEntry>, cwd: string, w: World, fd: int, stale: seq<byte>)
    requires Valid(table, w)
    ensures Agrees(table, cwd, w, Op.Read(fd, stale)) <==> Guard(w, Op.Read(fd, stale))
  {
    hide IsAbsolute, FirstMatch;
    if fd in w.meta {
      RecordedReadAgrees(table, cwd, w, fd, stale);
    } else if fd in w.kernel.fds {
      var d := w.kernel.fds[fd];
      SeenKernel(w, fd, d.offset + |ReadAt(FileOf(w.kernel.files, d.path), d.offset, |stale|)|, w.kernel.files);
    }
  }

  lemma WriteChanges(file: seq<byte>, off: nat, data: seq<byte>)
    ensures WriteAt(file, off, data) == file <==> RepeatsFile(file, off, data)
  {
    WriteAtBytes(file, off, data);
    var r := WriteAt(file, off, data);
    if data != [] && r == file {
      forall i | 0 <= i < |data| ensures file[off..off + |data|][i] == data[i] {
        assert r[off + i] == data[i];
      }
    }
    if RepeatsFile(file, off, data) && data != [] {
      assert forall i :: off <= i < off + |data| ==> file[i] == file[off..off + |data|][i - off];
    }
  }

  /** Where the bytes go without the layer, on a recorded descriptor. */
  function WriteOffset(w: World, fd: int, data: seq<byte>): nat
    requires fd in w.meta && fd in w.kernel.fds
  {
    if w.kernel.fds[fd].flags.append && data != [] then |FileOf(w.kernel.files, w.kernel.fds[fd].path)|
    else w.meta[fd].currentOffset
  }

  /** On a recorded descriptor that may be written, what counts is where the bytes go and whether
      they get there. */
  lemma RecordedWriteAgrees(table: seq<PathEntry>, cwd: string, w: World, fd: int, data: seq<byte>)
    requires Valid(table, w) && fd in w.meta
    ensures var file, off := FileOf(w.kernel.files, w.kernel.fds[fd].path), WriteOffset(w, fd, data);
      var mine := if w.free > 0 then WriteAt(file, w.meta[fd].currentOffset, data) else file;
      Agrees(table, cwd, w, Op.Write(fd, data)) <==>
        w.kernel.fds[fd].flags.write && mine == WriteAt(file, off, data) && off == w.meta[fd].currentOffset
  {
    hide WriteAt, FirstMatch, IsAbsolute;
    var info := w.meta[fd];
    var files := w.kernel.files;
    var file := files[info.absolutePath];
    var mine := if w.free > 0 then WriteAt(file, info.currentOffset, data) else file;
    assert files[info.absolutePath := file] == files;
    SeenRecorded(w, fd, info.currentOffset + |data|, files[info.absolutePath := mine], if w.free > 0 then w.free - 1 else 0);
    assert Seen(w).fds[fd] == SeenDescription(w, fd);
    var theirs := WriteAt(file, WriteOffset(w, fd, data), data);
    assert files[info.absolutePath := mine] == files[info.absolutePath := theirs] <==> mine == theirs by {
      assert files[info.absolutePath := mine][info.absolutePath] == mine;
    }
    var off := WriteOffset(w, fd, data);
    assert MoveTo(Seen(w), fd, info.currentOffset + |data|).fds[fd].offset == info.currentOffset + |data|;
    assert MoveTo(Seen(w), fd, off + |data|).fds[fd].offset == off + |data|;
  }

  lemma WriteAgrees(table: seq<PathEntry>, cwd: string, w: World, fd: int, data: seq<byte>)
    requires Valid(table, w)
    ensures Agrees(table, cwd, w, Op.Write(fd, data)) <==> Guard(w, Op.Write(fd, data))
  {
    hide WriteAt, FirstMatch, IsAbsolute;
    if fd in w.meta {
      RecordedWriteAgrees(table, cwd, w, fd, data);
      WriteChanges(FileOf(w.kernel.files, w.kernel.fds[fd].path), w.meta[fd].currentOffset, data);
    } else if fd in w.kernel.fds {
      var d := w.kernel.fds[fd];
      var file := FileOf(w.kernel.files, d.path);
      var off := if d.flags.append && data != [] then |file| else d.offset;
      SeenKernel(w, fd, off + |data|, w.kernel.files[d.path := WriteAt(file, off, data)]);
    }
  }

  lemma LseekAgrees(table: seq<PathEntry>, cwd: string, w: World, fd: int, offset: int, whence: Whence)
    requires Valid(table, w)
    ensures Agrees(table, cwd, w, Op.Lseek(fd, offset, whence)) <==> Guard(w, Op.Lseek(fd, offset, whence))
  {
    if fd in w.kernel.fds {
      assert Seen(w).fds[fd] == SeenDescription(w, fd);
      var to := SeekTarget(w.kernel, fd, offset, whence);
      if fd in w.meta && to >= 0 {
        SeenRecorded(w.(kernel := MoveTo(w.kernel, fd, to)), fd, to, w.kernel.files, w.free);
        SeenHidden(w, fd, to);
      } else if to >= 0 {
        SeenKernel(w, fd, to, w.kernel.files);
      }
    }
  }

  /** Where an offset is recorded the kernel's own is invisible. */
  lemma SeenHidden(w: World, fd: int, off: nat)
    requires fd in w.kernel.fds && fd in w.meta
    ensures Seen(w.(kernel := MoveTo(w.kernel, fd, off))) == Seen(w)
  {
    var next := w.(kernel := MoveTo(w.kernel, fd, off));
    forall f | f in next.kernel.fds ensures SeenDescription(next, f) == SeenDescription(w, f) {
    }
    assert Seen(next).fds == Seen(w).fds;
  }

  /** One call: the layer is invisible exactly when the guard holds. */
  lemma StepAgrees(table: seq<PathEntry>, cwd: string, w: World, op: Op)
    requires Valid(table, w)
    ensures Agrees(table, cwd, w, op) <==> Guard(w, op)
  {
    match op {
      case Open(path, flags) => OpenAgrees(table, cwd, w, path, flags);
      case Read(fd, stale) => ReadAgrees(table, cwd, w, fd, stale);
      case Write(fd, data) => WriteAgrees(table, cwd, w, fd, data);
      case Lseek(fd, offset, whence) => LseekAgrees(table, cwd, w, fd, offset, whence);
      case Close(fd) => CloseAgrees(table, cwd, w, fd);
    }
  }

  lemma OpenValid(table: seq<PathEntry>, cwd: string, w: World, path: string, flags: Flags)
    requires Valid(table, w) && IsAbsolute(cwd)
    ensures Valid(table, ShimOpen(w, table, cwd, path, flags).0)
  {
    assert IsAbsolute(Absolute(cwd, path));
    hide FirstMatch, Absolute, FileOf, FreeFrom, IsAbsolute;
  }

  lemma IoValid(table: seq<PathEntry>, w: World, fd: int, buffer: seq<byte>)
    requires Valid(table, w)
    ensures Valid(table, ShimRead(w, fd, buffer).0) && Valid(table, ShimWrite(w, fd, buffer).0)
  {
    hide FirstMatch, ReadAt, WriteAt, FileOf, IsAbsolute;
  }

  lemma SeekCloseValid(table: seq<PathEntry>, w: World, fd: int, offset: int, whence: Whence)
    requires Valid(table, w)
    ensures Valid(table, ShimLseek(w, fd, offset, whence).0) && Valid(table, ShimClose(w, fd).0)
  {
    hide FirstMatch, SeekTarget, IsAbsolute;
  }

  /** Every call keeps the table accurate. */
  lemma StepValid(table: seq<PathEntry>, cwd: string, w: World, op: Op)
    requires Valid(table, w) && IsAbsolute(cwd)
    ensures Valid(table, ShimStep(table, cwd, w, op).0)
  {
    match op {
      case Open(path, flags) => OpenValid(table, cwd, w, path, flags);
      case Read(fd, stale) => IoValid(table, w, fd, stale);
      case Write(fd, data) => IoValid(table, w, fd, data);
      case Lseek(fd, offset, whence) => SeekCloseValid(table, w, fd, offset, whence);
      case Close(fd) => SeekCloseValid(table, w, fd, 0, SeekSet);
    }
  }

  // ----- whole runs -----

  function ShimTrace(table: seq<PathEntry>, cwd: string, w: World, ops: seq<Op>): seq<(Kernel, Reply)>
    decreases |ops|
  {
    if ops == [] then []
    else
      var (next, r) := ShimStep(table, cwd, w, ops[0]);
      [(Seen(next), r)] + ShimTrace(table, cwd, next, ops[1..])
  }

  function KernelTrace(cwd: string, k: Kernel, ops: seq<Op>): seq<(Kernel, Reply)>
    decreases |ops|
  {
    if ops == [] then []
    else
      var (next, r) := KernelStep(cwd, k, ops[0]);
      [(next, r)] + KernelTrace(cwd, next, ops[1..])
  }

  predicate Guarded(table: seq<PathEntry>, cwd: string, w: World, ops: seq<Op>)
    decreases |ops|
  {
    ops == [] || (Guard(w, ops[0]) && Guarded(table, cwd, ShimStep(table, cwd, w, ops[0]).0, ops[1..]))
  }

  /** For every sequence of calls: contents, answers and offsets along the whole run are those of
      an operating system without the layer exactly when every call meets its guard. */
  lemma {:induction false} RunAgrees(table: seq<PathEntry>, cwd: string, w: World, ops: seq<Op>)
    requires Valid(table, w) && IsAbsolute(cwd)
    ensures ShimTrace(table, cwd, w, ops) == KernelTrace(cwd, Seen(w), ops) <==> Guarded(table, cwd, w, ops)
    decreases |ops|
  {
    if ops != [] {
      StepAgrees(table, cwd, w, ops[0]);
      StepValid(table, cwd, w, ops[0]);
      var next := ShimStep(table, cwd, w, ops[0]).0;
      RunAgrees(table, cwd, next, ops[1..]);
      var s, k := ShimTrace(table, cwd, w, ops), KernelTrace(cwd, Seen(w), ops);
      assert s[0] == (Seen(next), ShimStep(table, cwd, w, ops[0]).1) && k[0] == KernelStep(cwd, Seen(w), ops[0]);
      assert s[1..] == ShimTrace(table, cwd, next, ops[1..]);
      assert k[1..] == KernelTrace(cwd, k[0].0, ops[1..]);
      assert s == k ==> s[0] == k[0] && s[1..] == k[1..];
      assert s == [s[0]] + s[1..] && k == [k[0]] + k[1..];
    }
  }

  /** Is the call a request to the server? */
  predicate IsRequest(w: World, op: Op) {
    (op.Read? && op.fd in w.meta) || (op.Write? && op.fd in w.meta)
  }

  /** How many requests a run makes. */
  function Requests(table: seq<PathEntry>, cwd: string, w: World, ops: seq<Op>): nat
    decreases |ops|
  {
    if ops == [] then 0
    else (if IsRequest(w, ops[0]) then 1 else 0) + Requests(table, cwd, ShimStep(table, cwd, w, ops[0]).0, ops[1..])
  }

  function RunEnd(table: seq<PathEntry>, cwd: string, w: World, ops: seq<Op>): World
    decreases |ops|
  {
    if ops == [] then w else RunEnd(table, cwd, ShimStep(table, cwd, w, ops[0]).0, ops[1..])
  }

  /** Every request uses up one of the server's descriptors for good, and nothing gives one back. */
  lemma {:induction false} RequestsUseUp(table: seq<PathEntry>, cwd: string, w: World, ops: seq<Op>)
    ensures RunEnd(table, cwd, w, ops).free ==
      var n := Requests(table, cwd, w, ops);
      if n <= w.free then w.free - n else 0
    decreases |ops|
  {
    if ops != [] {
      RequestsUseUp(table, cwd, ShimStep(table, cwd, w, ops[0]).0, ops[1..]);
    }
  }

  /** What a program can check against the operating system it believes in: it respects the mode
      of the descriptor, reads inside the file, appends only at the end, and does not seek
      relative to the current position. */
  predicate Plain(k: Kernel, op: Op) {
    match op
    case Open(_, _) => true
    case Close(_) => true
    case Read(fd, stale) =>
      fd in k.fds ==>
        && k.fds[fd].flags.read
        && (stale == [] || k.fds[fd].offset + |stale| <= |FileOf(k.files, k.fds[fd].path)|)
    case Write(fd, data) =>
      fd in k.fds ==>
        && k.fds[fd].flags.write
        && (data == [] || !k.fds[fd].flags.append || k.fds[fd].offset == |FileOf(k.files, k.fds[fd].path)|)
    case Lseek(fd, _, whence) => whence != SeekCur
  }

  predicate PlainRun(cwd: string, k: Kernel, ops: seq<Op>)
    decreases |ops|
  {
    ops == [] || (Plain(k, ops[0]) && PlainRun(cwd, KernelStep(cwd, k, ops[0]).0, ops[1..]))
  }

  lemma PlainFirst(cwd: string, k: Kernel, op: Op, ops: seq<Op>)
    requires Plain(k, op) && PlainRun(cwd, KernelStep(cwd, k, op).0, ops)
    ensures PlainRun(cwd, k, [op] + ops)
  {
    assert ([op] + ops)[1..] == ops;
    hide Plain, KernelStep;
  }

  /** One file, open for reading and writing at an offset. */
  function OneFile(data: seq<byte>, off: nat): Kernel {
    Kernel(map["/f" := data], map[0 := Description("/f", READ_WRITE_CREATE, off)])
  }

  lemma OpenNew(cwd: string)
    ensures KernelStep(cwd, Kernel(map[], map[]), Open("/f", READ_WRITE_CREATE)).0 == OneFile([], 0)
  {
    var used: set<int> := {};
    assert FreeFrom(used, 0) == 0;
  }

  lemma WriteNew(cwd: string, data: seq<byte>)
    ensures Plain(OneFile([], 0), Op.Write(0, data))
    ensures KernelStep(cwd, OneFile([], 0), Op.Write(0, data)).0 == OneFile(data, |data|)
  {
    WriteAtBytes([], 0, data);
    assert WriteAt([], 0, data) == data;
    hide WriteAt;
  }

  lemma Rewind(cwd: string, data: seq<byte>)
    ensures KernelStep(cwd, OneFile(data, |data|), Op.Lseek(0, 0, SeekSet)).0 == OneFile(data, 0)
    ensures forall stale: seq<byte> :: |stale| == |data| ==> Plain(OneFile(data, 0), Op.Read(0, stale))
  {
  }

  /** Storing bytes in a new file and reading them back is such a program. */
  lemma StoreAndLoadIsPlain(cwd: string, data: seq<byte>, stale: seq<byte>)
    requires |stale| == |data|
    ensures PlainRun(cwd, Kernel(map[], map[]),
                     [Open("/f", READ_WRITE_CREATE)] + ([Op.Write(0, data)] +
                       ([Op.Lseek(0, 0, SeekSet)] + ([Op.Read(0, stale)] + [Op.Close(0)]))))
  {
    var close, read, seek, write := [Op.Close(0)], [Op.Read(0, stale)], [Op.Lseek(0, 0, SeekSet)], [Op.Write(0, data)];
    OpenNew(cwd);
    WriteNew(cwd, data);
    Rewind(cwd, data);
    hide KernelStep, OneFile;
    var last := KernelStep(cwd, OneFile(data, 0), Op.Read(0, stale)).0;
    PlainFirst(cwd, last, Op.Close(0), []);
    assert close + [] == close;
    PlainFirst(cwd, OneFile(data, 0), Op.Read(0, stale), close);
    PlainFirst(cwd, OneFile(data, |data|), Op.Lseek(0, 0, SeekSet), read + close);
    PlainFirst(cwd, OneFile([], 0), Op.Write(0, data), seek + (read + close));
    PlainFirst(cwd, Kernel(map[], map[]), Open("/f", READ_WRITE_CREATE), write + (seek + (read + close)));
  }

  /** A program that is plain on an ordinary system cannot tell that the layer is there, as long as
      it makes no more requests than the server has descriptors. */
  lemma {:induction false} PlainRunsAgree(table: seq<PathEntry>, cwd: string, w: World, ops: seq<Op>)
    requires Valid(table, w) && IsAbsolute(cwd) && PlainRun(cwd, Seen(w), ops)
    requires Requests(table, cwd, w, ops) <= w.free
    ensures ShimTrace(table, cwd, w, ops) == KernelTrace(cwd, Seen(w), ops)
  {
    PlainRunGuarded(table, cwd, w, ops);
    RunAgrees(table, cwd, w, ops);
  }

  lemma {:induction false} PlainRunGuarded(table: seq<PathEntry>, cwd: string, w: World, ops: seq<Op>)
    requires Valid(table, w) && IsAbsolute(cwd) && PlainRun(cwd, Seen(w), ops)
    requires Requests(table, cwd, w, ops) <= w.free
    ensures Guarded(table, cwd, w, ops)
    decreases |ops|
  {
    if ops != [] {
      PlainGuard(w, ops[0]);
      StepAgrees(table, cwd, w, ops[0]);
      StepValid(table, cwd, w, ops[0]);
      PlainRunGuarded(table, cwd, ShimStep(table, cwd, w, ops[0]).0, ops[1..]);
    }
  }

  lemma PlainGuard(w: World, op: Op)
    requires Plain(Seen(w), op) && (IsRequest(w, op) ==> w.free > 0)
    ensures Guard(w, op)
  {
    forall fd | fd in w.kernel.fds ensures Seen(w).fds[fd] == SeenDescription(w, fd) {
    }
  }
}
