/**
 The bounded write-back file cache of src/new_io.cpp.

 A handle keeps an open FatFs file and, for small files, a RAM copy of it. The
 logical file is a byte sequence with a cursor; every operation of the handle is
 proved against the operation of the logical file, whichever of the two stores
 backs it.
 */
module LogicalFile {
  import opened Bytes

  const UINT_MAX: nat := 0xFFFF_FFFF

  /** A plain byte sequence with a cursor: what a POSIX client believes it has open. */
  datatype Logical = Logical(bytes: seq<byte>, cursor: nat)

  predicate WellFormed(l: Logical) {
    l.cursor <= |l.bytes|
  }

  /** `b` with `d` stored from index `p` on, growing when it runs over the end. */
  function Splice(b: seq<byte>, p: nat, d: seq<byte>): seq<byte>
    requires p <= |b|
  {
    b[..p] + d + if p + |d| <= |b| then b[p + |d|..] else []
  }

  datatype Whence = SeekSet | SeekCur | SeekEnd | SeekOther

  datatype Op = Read(len: nat) | Write(data: seq<byte>) | Seek(offset: int, whence: Whence) | Fsync

  /** What the caller sees: bytes read, a count, a new position, success, or -1. */
  datatype Outcome = Got(bytes: seq<byte>) | Wrote(count: nat) | At(position: nat) | Synced | Failed

  function SeekTarget(l: Logical, offset: int, whence: Whence): int
    requires !whence.SeekOther?
  {
    match whence
    case SeekSet => offset
    case SeekCur => l.cursor + offset
    case SeekEnd => |l.bytes| + offset
  }

  /** The logical file before the bytes of a write are stored. */
  function Positioned(l: Logical, append: bool): Logical {
    if append then l.(cursor := |l.bytes|) else l
  }

  /** The logical file after the first `k` bytes of `d` were stored at its cursor. */
  function Stored(l: Logical, d: seq<byte>, k: nat): Logical
    requires WellFormed(l) && k <= |d|
  {
    Logical(Splice(l.bytes, l.cursor, d[..k]), l.cursor + k)
  }

  /** The logical file after `op` reported `out`. */
  function After(l: Logical, append: bool, op: Op, out: Outcome): (l': Logical)
    requires WellFormed(l)
    ensures WellFormed(l')
  {
    match (op, out)
    case (Read(n), Got(b)) => if l.cursor + |b| <= |l.bytes| then l.(cursor := l.cursor + |b|) else l
    case (Write(d), Wrote(k)) =>
      if d == [] || k > |d| then l
      else
        Stored(Positioned(l, append), d, k)
    case (Write(d), Failed) => if d == [] then l else Positioned(l, append)
    case (Seek(_, _), At(p)) => if p <= |l.bytes| then l.(cursor := p) else l
    case _ => l
  }

  /** The outcomes a plain byte sequence with a cursor allows for `op`. */
  predicate Allows(l: Logical, op: Op, out: Outcome)
    requires WellFormed(l)
  {
    match (op, out)
    case (_, Failed) => true
    case (Read(n), Got(b)) => b == l.bytes[l.cursor..Min(l.cursor + n, |l.bytes|)]
    case (Write(d), Wrote(k)) => k <= |d| && (d != [] ==> 0 < k)
    case (Seek(o, w), At(p)) => !w.SeekOther? && p == SeekTarget(l, o, w) && p <= |l.bytes|
    case (Fsync, Synced) => true
    case _ => false
  }

  function RunLogical(l: Logical, append: bool, ops: seq<Op>, outs: seq<Outcome>): (l': Logical)
    requires WellFormed(l) && |ops| == |outs|
    ensures WellFormed(l')
  {
    if ops == [] then l
    else
      var n := |ops| - 1;
      After(RunLogical(l, append, ops[..n], outs[..n]), append, ops[n], outs[n])
  }

  /** A whole run whose every outcome is one the logical file allows at that point. */
  predicate Conforms(l: Logical, append: bool, ops: seq<Op>, outs: seq<Outcome>)
    requires WellFormed(l) && |ops| == |outs|
  {
    forall i :: 0 <= i < |ops| ==>
      Allows(RunLogical(l, append, ops[..i], outs[..i]), ops[i], outs[i])
  }
}

/** FatFs's open file object, with an environment that may fail any call. */
module FatFs {
  import opened Bytes
  import opened LogicalFile

  datatype Errno = NoError | EBADF | EINVAL | EFAULT | EIO | ENOMEM | EFBIG | EACCES | ENOENT | EEXIST | ENOTDIR | ENFILE

  datatype FResult = FrOk | FrNoFile | FrNoPath | FrExist | FrDenied | FrNotEnoughCore
                   | FrTooManyOpenFiles | FrInvalidObject | FrDiskErr

  function ErrnoOf(r: FResult): Errno
    requires !r.FrOk?
  {
    match r
    case FrNoFile => ENOENT
    case FrNoPath => ENOTDIR
    case FrExist => EEXIST
    case FrNotEnoughCore => ENOMEM
    case FrTooManyOpenFiles => ENFILE
    case FrDenied => EACCES
    case FrInvalidObject => EBADF
    case FrDiskErr => EIO
  }

  /** What is at the path before an open. */
  datatype Existing = Absent | Present(bytes: seq<byte>)

  /** f_open's access byte: FA_READ, FA_WRITE and one way of opening. */
  datatype How = OpenExisting | CreateNew | CreateAlways | OpenAlways | OpenAppend
  datatype Access = Access(read: bool, write: bool, how: How)

  datatype Opened = Opened(bytes: seq<byte>, ptr: nat) | NotOpened(r: FResult)

  /** f_open, as far as the path's file decides it. */
  function FOpen(existing: Existing, a: Access): (o: Opened)
    ensures o.Opened? ==> o.ptr <= |o.bytes|
    ensures o.NotOpened? ==> !o.r.FrOk?
  {
    match (a.how, existing)
    case (OpenExisting, Absent) => NotOpened(FrNoFile)
    case (OpenExisting, Present(b)) => Opened(b, 0)
    case (CreateNew, Absent) => Opened([], 0)
    case (CreateNew, Present(_)) => NotOpened(FrExist)
    case (CreateAlways, _) => Opened([], 0)
    case (OpenAlways, Absent) => Opened([], 0)
    case (OpenAlways, Present(b)) => Opened(b, 0)
    case (OpenAppend, Absent) => Opened([], 0)
    case (OpenAppend, Present(b)) => Opened(b, |b|)
  }

  class Fil {
    /** The file as FatFs presents it, and what the medium held after the last sync. */
    var bytes: seq<byte>
    var durable: seq<byte>
    var ptr: nat
    const canRead: bool
    /** On a sound medium no call fails and no write is short. */
    const sound: bool

    constructor (bytes: seq<byte>, durable: seq<byte>, ptr: nat, canRead: bool, sound: bool)
      ensures this.bytes == bytes && this.durable == durable && this.ptr == ptr
      ensures this.canRead == canRead && this.sound == sound
    {
      this.bytes, this.durable, this.ptr, this.canRead, this.sound := bytes, durable, ptr, canRead, sound;
    }

    /** The environment's answer to a call. */
    method Answer() returns (r: FResult)
      ensures sound ==> r.FrOk?
    {
      r := *;
      if sound { r := FrOk; }
    }

    /** f_lseek to a place inside the file. A failed call leaves the pointer anywhere. */
    method Seek(offset: nat) returns (r: FResult)
      modifies this`ptr
      ensures r.FrOk? && offset <= |bytes| ==> ptr == offset
      ensures sound ==> r.FrOk?
    {
      r := Answer();
      if r.FrOk? {
        ptr := if offset <= |bytes| then offset else |bytes|;
      } else {
        ptr := *;
      }
    }

    /** f_read clips the request to the bytes that remain. */
    method Read(len: nat) returns (r: FResult, data: seq<byte>)
      modifies this`ptr
      ensures r.FrOk? && old(ptr) <= |bytes| ==>
                data == bytes[old(ptr)..Min(old(ptr) + len, |bytes|)] && ptr == old(ptr) + |data|
      ensures !canRead ==> !r.FrOk?
      ensures sound && canRead ==> r.FrOk?
    {
      r := Answer();
      data := [];
      if !canRead { r := FrDenied; }
      if r.FrOk? && ptr <= |bytes| {
        data := bytes[ptr..Min(ptr + len, |bytes|)];
        ptr := ptr + |data|;
      } else {
        ptr := *;
      }
    }

    /** f_write may store a shorter prefix; a failed call leaves any bytes behind. */
    method Write(data: seq<byte>) returns (r: FResult, written: nat)
      modifies this`bytes, this`ptr
      ensures written <= |data|
      ensures r.FrOk? && old(ptr) <= |old(bytes)| ==>
                bytes == Splice(old(bytes), old(ptr), data[..written]) && ptr == old(ptr) + written
      ensures sound ==> r.FrOk? && (old(ptr) <= |old(bytes)| ==> written == |data|)
    {
      r := Answer();
      written := 0;
      if r.FrOk? && ptr <= |bytes| {
        written := *;
        written := if sound then |data| else Min(written, |data|);
        bytes := Splice(bytes, ptr, data[..written]);
        ptr := ptr + written;
      } else {
        bytes, ptr := *, *;
      }
    }

    /** f_truncate cuts the file at the pointer. */
    method Truncate() returns (r: FResult)
      modifies this`bytes
      ensures r.FrOk? && ptr <= |old(bytes)| ==> bytes == old(bytes)[..ptr]
      ensures sound ==> r.FrOk?
    {
      r := Answer();
      if r.FrOk? && ptr <= |bytes| {
        bytes := bytes[..ptr];
      } else {
        bytes := *;
      }
    }

    /** f_sync; f_close does the same before it releases the object. */
    method Sync() returns (r: FResult)
      modifies this`durable
      ensures r.FrOk? ==> durable == bytes
      ensures sound ==> r.FrOk?
    {
      r := Answer();
      durable := *;
      if r.FrOk? { durable := bytes; }
    }
  }
}

module FileCache {
  import opened Bytes
  import opened LogicalFile
  import opened FatFs

  const CACHE_LIMIT: nat := 512 * 1024

  datatype Mode = RdOnly | WrOnly | RdWr
  datatype Flags = Flags(mode: Mode, append: bool, creat: bool, excl: bool, trunc: bool)

  /** fatfs_open_flags: append, then exclusive creation, then truncation, then creation. */
  function AccessFlags(f: Flags): Access {
    Access(f.mode != WrOnly, f.mode != RdOnly,
           if f.append then OpenAppend
           else if f.creat && f.excl then CreateNew
           else if f.trunc then CreateAlways
           else if f.creat then OpenAlways
           else OpenExisting)
  }

  /** What a POSIX client expects an open to start from; appending wins over truncation. */
  function OpenView(existing: Existing, f: Flags): Logical {
    var kept := if existing.Absent? || (f.trunc && !f.append) then [] else existing.bytes;
    Logical(kept, if f.append then |kept| else 0)
  }

  /** When a POSIX client expects the path itself to refuse an open. */
  predicate OpenRefused(existing: Existing, f: Flags) {
    if f.append then false
    else if f.creat && f.excl then existing.Present?
    else existing.Absent? && !f.trunc && !f.creat
  }

  /** f_open on the access flags opens what the client expects, or refuses when it expects that. */
  lemma FlagsMeetClient(existing: Existing, f: Flags)
    ensures var o := FOpen(existing, AccessFlags(f));
            && (o.NotOpened? <==> OpenRefused(existing, f))
            && (o.Opened? ==> Logical(o.bytes, o.ptr) == OpenView(existing, f))
            && (o.NotOpened? ==> ErrnoOf(o.r) == if existing.Present? then EEXIST else ENOENT)
  {
  }

  /** What the caller of _write points at. */
  datatype Buffer = Null | Bytes(data: seq<byte>)

  predicate Handed(buffer: Buffer, len: int) {
    len >= 0 && (len > 0 ==> buffer.Bytes?)
  }

  /** The bytes a write call hands over. */
  function Payload(buffer: Buffer, len: int): (d: seq<byte>)
    requires buffer.Bytes? ==> len <= |buffer.data|
    ensures Handed(buffer, len) ==> |d| == len
  {
    if len <= 0 || buffer.Null? then [] else buffer.data[..len]
  }

  /** The value an `int`-typed result of an `unsigned` has. */
  function AsInt(u: nat): int
    requires u <= UINT_MAX
  {
    if u < 0x8000_0000 then u else u - 0x1_0000_0000
  }

  class CircleFile {
    var fil: Fil
    var inUse: bool
    var contents: array<byte>
    var capacity: nat
    var size: nat
    var position: nat
    var flags: Flags
    var writtenTo: bool
    var cached: bool
    var errno: Errno
    /** There is memory for every buffer. */
    const roomy: bool

    constructor (roomy: bool)
      ensures !inUse && fresh(fil) && fresh(contents) && this.roomy == roomy
    {
      this.roomy := roomy;
      fil := new Fil([], [], 0, false, false);
      contents := new byte[0];
      inUse, capacity, size, position := false, 0, 0, 0;
      flags := Flags(RdOnly, false, false, false, false);
      writtenTo, cached, errno := false, false, NoError;
    }

    /** Kept by every call, failed ones included. */
    ghost predicate Valid()
      reads this, fil, contents
    {
      && contents.Length == capacity
      && size <= UINT_MAX && position <= UINT_MAX
      && (cached ==>
            && position <= size <= capacity <= CACHE_LIMIT
            && (!writtenTo ==> fil.bytes == contents[..size]))
      && (flags.mode == RdOnly ==> |fil.bytes| == size && !writtenTo)
      && (flags.mode != WrOnly ==> fil.canRead)
    }

    /** An uncached handle's FatFs pointer is its logical position. */
    ghost predicate Coherent()
      reads this, fil
    {
      !cached ==> |fil.bytes| == size && fil.ptr == position <= size
    }

    ghost function View(): (l: Logical)
      requires Valid()
      reads this, fil, contents
      ensures Coherent() ==> WellFormed(l) && |l.bytes| == size
    {
      Logical(if cached then contents[..size] else fil.bytes, position)
    }

    /** The whole state a caller can depend on is as before. */
    twostate predicate Untouched()
      reads this, fil, contents
    {
      unchanged(this`fil, this`inUse, this`contents, this`capacity, this`size, this`position,
                this`flags, this`writtenTo, this`cached) && unchanged(fil) && unchanged(contents)
    }

    /** ensure_file_capacity: doubles from 1024 up to the limit. */
    method EnsureCapacity(required: nat) returns (ok: bool)
      requires Valid() && cached
      modifies this`contents, this`capacity, this`errno
      ensures Valid() && (fresh(contents) || contents == old(contents))
      ensures View() == old(View())
      ensures ok ==> required <= capacity
      ensures !ok && required <= CACHE_LIMIT ==> errno == ENOMEM
      ensures required > CACHE_LIMIT ==> !ok && errno == EFBIG
      ensures roomy && required <= CACHE_LIMIT ==> ok
    {
      if required <= capacity { return true; }
      if required > CACHE_LIMIT {
        errno := EFBIG;
        return false;
      }
      var newAllocated := if capacity != 0 then capacity else 1024;
      while newAllocated < required
        invariant capacity <= newAllocated && 0 < newAllocated <= CACHE_LIMIT
        decreases CACHE_LIMIT - newAllocated
      {
        if newAllocated > CACHE_LIMIT / 2 {
          newAllocated := CACHE_LIMIT;
        } else {
          newAllocated := newAllocated * 2;
        }
      }
      var mallocOk := *;
      if !mallocOk && !roomy {
        errno := ENOMEM;
        return false;
      }
      var grown := new byte[newAllocated];
      forall i | 0 <= i < capacity { grown[i] := contents[i]; }
      assert grown[..size] == contents[..size];
      contents, capacity := grown, newAllocated;
      return true;
    }

    /** read_exact: fills `buffer` from the FatFs pointer. */
    method ReadExact(buffer: array<byte>) returns (ok: bool)
      requires fil.ptr <= |fil.bytes|
      requires buffer != contents
      modifies fil`ptr, buffer, this`errno
      ensures ok ==> old(fil.ptr) + buffer.Length <= |fil.bytes|
                     && buffer[..] == fil.bytes[old(fil.ptr)..old(fil.ptr) + buffer.Length]
      ensures !ok ==> errno != NoError && errno != EINVAL
      ensures buffer.Length != 0 && !fil.canRead ==> !ok
      ensures fil.sound && fil.canRead && old(fil.ptr) + buffer.Length <= |fil.bytes| ==> ok
    {
      var received := 0;
      while received < buffer.Length
        invariant received <= buffer.Length
        invariant fil.ptr == old(fil.ptr) + received <= |fil.bytes|
        invariant buffer[..received] == fil.bytes[old(fil.ptr)..fil.ptr]
        invariant !fil.canRead ==> received == 0
      {
        var r, data := fil.Read(buffer.Length - received);
        if !r.FrOk? {
          errno := ErrnoOf(r);
          return false;
        }
        if |data| == 0 {
          errno := EIO;
          return false;
        }
        SliceGrows(fil.bytes, old(fil.ptr), old(fil.ptr) + received, fil.ptr);
        Place(buffer, received, data);
        received := received + |data|;
      }
      return true;
    }

    /** The bytes FatFs delivers into the buffer at an offset. */
    method Place(buffer: array<byte>, at: nat, data: seq<byte>)
      requires at + |data| <= buffer.Length
      modifies buffer
      ensures buffer[..at + |data|] == old(buffer[..at]) + data
      ensures buffer[at + |data|..] == old(buffer[at + |data|..])
    {
      forall i | 0 <= i < |data| { buffer[at + i] := data[i]; }
    }

    /** write_exact: stores data[..n] from the FatFs pointer on. */
    method WriteExact(buffer: array<byte>, n: nat) returns (ok: bool)
      requires n <= buffer.Length && fil.ptr <= |fil.bytes|
      modifies fil`ptr, fil`bytes, this`errno
      ensures ok ==> fil.bytes == Splice(old(fil.bytes), old(fil.ptr), buffer[..n]) && fil.ptr == old(fil.ptr) + n
      ensures fil.sound ==> ok
    {
      hide Splice;
      var written := 0;
      assert buffer[..0] == [];
      SpliceNothing(fil.bytes, fil.ptr);
      while written < n
        invariant written <= n && fil.ptr == old(fil.ptr) + written
        invariant fil.bytes == Splice(old(fil.bytes), old(fil.ptr), buffer[..written])
        decreases n - written
      {
        SpliceReaches(old(fil.bytes), old(fil.ptr), buffer[..written]);
        ghost var rest := buffer[written..n];
        var r, count := fil.Write(buffer[written..n]);
        if !r.FrOk? {
          errno := ErrnoOf(r);
          return false;
        }
        if count == 0 {
          errno := EIO;
          return false;
        }
        SpliceTwice(old(fil.bytes), old(fil.ptr), buffer[..written], rest[..count]);
        PrefixAndPart(buffer[..], written, n, count);
        written := written + count;
      }
      return true;
    }

    /** cache_file: one allocation, filled from the start of the file. */
    method CacheFile() returns (ok: bool)
      requires Valid() && !cached && |fil.bytes| == size && !writtenTo
      modifies this`contents, this`capacity, this`cached, this`errno, fil`ptr
      ensures ok ==> cached && fresh(contents) && contents.Length == size == capacity <= CACHE_LIMIT
      ensures ok ==> contents[..size] == fil.bytes
      ensures !ok && errno == EINVAL ==> old(errno) == EINVAL
      ensures !ok ==> unchanged(this`contents, this`capacity, this`cached)
      ensures size > CACHE_LIMIT ==> !ok
      ensures !fil.canRead && size != 0 ==> !ok
      ensures fil.sound && fil.canRead && size <= CACHE_LIMIT ==> ok || (errno == ENOMEM && !roomy)
      ensures size == 0 ==> ok
    {
      if size > CACHE_LIMIT { return false; }
      var buffer := new byte[size];
      if size != 0 {
        var mallocOk := *;
        if !mallocOk && !roomy {
          errno := ENOMEM;
          return false;
        }
        var r := fil.Seek(0);
        if !r.FrOk? {
          if errno == NoError { errno := EIO; }
          return false;
        }
        var filled := ReadExact(buffer);
        if !filled { return false; }
      }
      contents, capacity, cached := buffer, size, true;
      assert contents[..size] == contents[..];
      return true;
    }

    /** flush_cached_file: rewrites the whole file, cuts it and syncs it. */
    method FlushCachedFile() returns (ok: bool)
      requires Valid() && (cached && writtenTo ==> flags.mode != RdOnly)
      modifies fil, this`errno
      ensures cached && ok ==> fil.bytes == contents[..size]
      ensures cached && ok && writtenTo ==> fil.durable == fil.bytes
      ensures !cached || !writtenTo ==> ok && unchanged(fil)
      ensures fil.sound ==> ok
    {
      if !cached || !writtenTo { return true; }
      var r := fil.Seek(0);
      if !r.FrOk? {
        errno := EIO;
        return false;
      }
      if size != 0 {
        var stored := WriteExact(contents, size);
        if !stored { return false; }
        assert fil.bytes[..size] == contents[..size];
      }
      r := fil.Seek(size);
      if !r.FrOk? {
        errno := EIO;
        return false;
      }
      r := fil.Truncate();
      if !r.FrOk? {
        errno := ErrnoOf(r);
        return false;
      }
      ok := SyncFile();
    }

    method SyncFile() returns (ok: bool)
      modifies fil`durable, this`errno
      ensures ok ==> fil.durable == fil.bytes
      ensures fil.sound ==> ok
    {
      var r := fil.Sync();
      ok := r.FrOk?;
      if !ok { errno := ErrnoOf(r); }
    }

    /** spill_cache: from here on FatFs backs the handle. */
    method SpillCache() returns (ok: bool)
      requires Valid() && cached && flags.mode != RdOnly
      modifies fil, this`errno, this`contents, this`capacity, this`cached
      ensures Valid() && (fresh(contents) || contents == old(contents))
      ensures ok ==> !cached && Coherent() && View() == old(View())
      ensures !ok && cached ==> View() == old(View())
      ensures fil.sound ==> ok
    {
      ghost var was := View();
      var flushed := FlushCachedFile();
      if !flushed { return false; }
      contents := new byte[0];
      capacity := 0;
      cached := false;
      var r := fil.Seek(position);
      if !r.FrOk? {
        errno := EIO;
        return false;
      }
      return true;
    }

    /** The first half of _open: reset the slot and call f_open. */
    method OpenFatFs(existing: Existing, f: Flags, sound: bool) returns (ok: bool)
      requires !inUse
      modifies this
      ensures !inUse && fresh(fil) && fresh(contents) && flags == f
      ensures ok ==> Valid() && !cached && !writtenTo && Coherent() && View() == OpenView(existing, f)
      ensures ok ==> fil.canRead == (f.mode != WrOnly)
      ensures OpenRefused(existing, f) ==> !ok && errno == if existing.Present? then EEXIST else ENOENT
      ensures fil.sound == sound
      ensures sound && !OpenRefused(existing, f) && |OpenView(existing, f).bytes| <= UINT_MAX ==> ok
    {
      contents := new byte[0];
      position, size, capacity := 0, 0, 0;
      flags, writtenTo, cached := f, false, false;
      FlagsMeetClient(existing, f);
      var access := AccessFlags(f);
      var start := FOpen(existing, access);
      if start.NotOpened? {
        fil := new Fil([], [], 0, access.read, sound);
        errno := ErrnoOf(start.r);
        return false;
      }
      fil := new Fil(start.bytes, if existing.Present? then existing.bytes else [], start.ptr, access.read, sound);
      var r := fil.Answer();
      if !r.FrOk? {
        errno := ErrnoOf(r);
        return false;
      }
      if |fil.bytes| > UINT_MAX {
        errno := EFBIG;
        return false;
      }
      size := |fil.bytes|;
      if f.append { position := size; }
      return true;
    }

    /** _open on a free slot, after the path checks. */
    method Open(existing: Existing, f: Flags, sound: bool) returns (ok: bool)
      requires !inUse
      modifies this
      ensures fresh(fil) && fresh(contents) && inUse == ok
      ensures ok ==> Valid() && Coherent() && View() == OpenView(existing, f) && flags == f && !writtenTo
      ensures ok ==> cached == ((f.mode == RdWr && size <= CACHE_LIMIT) || (f.mode == WrOnly && f.trunc))
      ensures OpenRefused(existing, f) ==> !ok
      ensures fil.sound == sound
      ensures sound && roomy && !(f.trunc && f.append) && !OpenRefused(existing, f) && |OpenView(existing, f).bytes| <= UINT_MAX ==> ok
    {
      ok := OpenFatFs(existing, f, sound);
      if !ok { return false; }
      var cacheReadWrite := f.mode == RdWr && size <= CACHE_LIMIT;
      var cacheTruncatedWrite := f.mode == WrOnly && f.trunc;
      if cacheReadWrite || cacheTruncatedWrite {
        ok := CacheFile();
        if !ok {
          contents := new byte[0];
          capacity := 0;
          return false;
        }
      }
      inUse := true;
    }

    /** _read into a buffer of `len` bytes. */
    method Read(len: int, nullBuffer: bool) returns (r: int, data: seq<byte>)
      requires Valid()
      modifies this`position, this`errno, fil`ptr
      ensures Valid()
      ensures r == -1 || r == |data|
      ensures r >= 0 ==> inUse && len >= 0 && flags.mode != WrOnly
      ensures r >= 0 && old(Coherent()) ==>
                Coherent() && Allows(old(View()), Op.Read(len), Got(data))
                && View() == After(old(View()), flags.append, Op.Read(len), Got(data))
      ensures r == -1 && cached ==> View() == old(View())
      ensures !inUse || flags.mode == WrOnly || len < 0 || (len > 0 && nullBuffer) ==> r == -1 && Untouched()
      ensures fil.sound && inUse && flags.mode != WrOnly && len >= 0 && !nullBuffer ==> r >= 0
    {
      data := [];
      if len < 0 {
        errno := EINVAL;
        return -1, [];
      }
      if len > 0 && nullBuffer {
        errno := EFAULT;
        return -1, [];
      }
      if !inUse || flags.mode == WrOnly {
        errno := EBADF;
        return -1, [];
      }
      if cached {
        data := ReadCached(len);
        return |data|, data;
      }
      r, data := ReadDirect(len);
    }

    /** The direct half of _read. */
    method ReadDirect(len: nat) returns (r: int, data: seq<byte>)
      requires Valid() && !cached && inUse
      modifies this`position, this`errno, fil`ptr
      ensures Valid() && (r == -1 || r == |data|)
      ensures r != -1 && old(Coherent()) ==>
                Coherent() && data == fil.bytes[old(position)..Min(old(position) + len, size)] && position == old(position) + |data|
      ensures fil.sound && flags.mode != WrOnly ==> r != -1
    {
      var res, got := fil.Read(len);
      if !res.FrOk? {
        errno := ErrnoOf(res);
        return -1, [];
      }
      position := (position + |got|) % (UINT_MAX + 1);
      return |got|, got;
    }

    /** The cached half of _read: copy out of the buffer. */
    method ReadCached(len: nat) returns (data: seq<byte>)
      requires Valid() && cached
      modifies this`position
      ensures Valid() && position == old(position) + |data|
      ensures data == old(View()).bytes[old(position)..Min(old(position) + len, size)]
    {
      var max := len;
      var remain := if position <= size then size - position else 0;
      if max > remain { max := remain; }
      data := [];
      if max > 0 {
        data := contents[..size][position..position + max];
        position := position + max;
      }
    }

    /** _write of `len` bytes from the caller's buffer. */
    method Write(buffer: Buffer, len: int) returns (r: int)
      requires Valid() && len < 0x8000_0000 && (buffer.Bytes? ==> len <= |buffer.data|)
      modifies this, fil, contents
      ensures Valid() && fil == old(fil) && flags == old(flags) && inUse == old(inUse)
      ensures fresh(contents) || contents == old(contents)
      ensures -1 <= r && (len >= 0 ==> r <= len)
      ensures r >= 0 ==> len >= 0 && inUse && flags.mode != RdOnly && (len > 0 ==> buffer.Bytes?)
      ensures r >= 0 && old(Coherent()) ==>
                Coherent() && Allows(old(View()), Op.Write(Payload(buffer, len)), Wrote(r))
                && View() == After(old(View()), flags.append, Op.Write(Payload(buffer, len)), Wrote(r))
      ensures r >= 0 && cached ==> r == len
      ensures r > 0 ==> writtenTo
      ensures r == -1 && cached ==> old(cached)
      ensures len < 0 || (len > 0 && buffer.Null?) || !inUse || flags.mode == RdOnly ==> r == -1 && Untouched()
      ensures len < 0 ==> errno == EINVAL
      ensures len > 0 && buffer.Null? ==> errno == EFAULT
      ensures len == 0 && inUse && flags.mode != RdOnly ==> r == 0
      ensures r == -1 && cached && buffer.Bytes? && len > 0 && inUse && flags.mode != RdOnly ==>
                View() == Positioned(old(View()), flags.append)
      ensures Handed(buffer, len) && inUse && flags.mode != RdOnly && fil.sound && roomy && old(Coherent() && size + len <= UINT_MAX) ==>
                r == len
    {
      if len < 0 {
        errno := EINVAL;
        return -1;
      }
      if len > 0 && buffer.Null? {
        errno := EFAULT;
        return -1;
      }
      r := WriteData(Payload(buffer, len));
    }

    /** _write of the bytes themselves; append mode moves to the end first. */
    method WriteData(data: seq<byte>) returns (r: int)
      requires Valid() && |data| < 0x8000_0000
      modifies this, fil, contents
      ensures Valid() && fil == old(fil) && flags == old(flags) && inUse == old(inUse)
      ensures fresh(contents) || contents == old(contents)
      ensures -1 <= r <= |data|
      ensures r >= 0 && old(Coherent()) ==>
                Coherent() && Allows(old(View()), Op.Write(data), Wrote(r))
                && View() == After(old(View()), flags.append, Op.Write(data), Wrote(r))
      ensures r >= 0 && cached ==> r == |data|
      ensures r >= 0 && data != [] ==> writtenTo
      ensures r == -1 && cached ==>
                old(cached) && (inUse && flags.mode != RdOnly ==>
                                  View() == After(old(View()), flags.append, Op.Write(data), Failed))
      ensures !inUse || flags.mode == RdOnly ==> r == -1 && Untouched()
      ensures inUse && flags.mode != RdOnly && data == [] ==> r == 0
      ensures inUse && flags.mode != RdOnly && fil.sound && roomy && old(Coherent() && size + |data| <= UINT_MAX) ==> r == |data|
    {
      if !inUse || flags.mode == RdOnly {
        errno := EBADF;
        return -1;
      }
      if data == [] { return 0; }
      if flags.append {
        var moved := MoveToEnd();
        if !moved { return -1; }
      }
      ghost var from := View();
      assert old(Coherent()) ==> Coherent() && from == Positioned(old(View()), flags.append);
      r := WriteHere(data);
    }

    /** _write at the current position: spill a cache that would outgrow the limit, then store. */
    method WriteHere(data: seq<byte>) returns (r: int)
      requires Valid() && inUse && flags.mode != RdOnly && data != [] && |data| < 0x8000_0000
      modifies this, fil, contents
      ensures Valid() && fil == old(fil) && flags == old(flags) && inUse == old(inUse)
      ensures fresh(contents) || contents == old(contents)
      ensures -1 <= r <= |data| && r != 0
      ensures r > 0 && old(Coherent()) ==> Coherent() && View() == Stored(old(View()), data, r)
      ensures r > 0 && cached ==> r == |data|
      ensures r > 0 ==> writtenTo
      ensures r == -1 && cached ==> old(cached) && View() == old(View())
      ensures fil.sound && roomy && old(Coherent()) && old(position) + |data| <= UINT_MAX ==> r == |data|
    {
      if |data| > UINT_MAX - position {
        errno := EFBIG;
        return -1;
      }
      var required := position + |data|;
      ghost var from := View();
      if cached && required > CACHE_LIMIT {
        var spilled := SpillCache();
        if !spilled { return -1; }
      }
      assert old(Coherent()) ==> Coherent() && View() == from;
      if cached { r := StoreCached(data); } else { r := StoreDirect(data); }
    }

    method MoveToEnd() returns (ok: bool)
      requires Valid() && flags.mode != RdOnly
      modifies this`position, this`errno, fil`ptr
      ensures Valid() && position == size
      ensures cached ==> ok
      ensures ok && old(Coherent()) ==> Coherent()
      ensures fil.sound ==> ok
    {
      position := size;
      if !cached {
        var res := fil.Seek(position);
        if !res.FrOk? {
          errno := EIO;
          return false;
        }
      }
      return true;
    }

    /** The cached half of _write: grow the buffer and copy into it. */
    method StoreCached(data: seq<byte>) returns (r: int)
      requires Valid() && cached && flags.mode != RdOnly && data != [] && position + |data| <= UINT_MAX
      modifies this`contents, this`capacity, this`errno, this`position, this`size, this`writtenTo, contents
      ensures Valid() && (fresh(contents) || contents == old(contents))
      ensures r == -1 || r == |data|
      ensures r == -1 ==> View() == old(View())
      ensures r != -1 ==> writtenTo && View() == Stored(old(View()), data, r)
      ensures roomy && old(position) + |data| <= CACHE_LIMIT ==> r == |data|
    {
      var required := position + |data|;
      ghost var was := View().bytes;
      var grown := EnsureCapacity(required);
      if !grown { return -1; }
      ghost var before := contents[..];
      Place(contents, position, data);
      SplicedBuffer(before, contents[..], size, position, data);
      if required > size { size := required; }
      assert data == data[..|data|];
      position := required;
      writtenTo := true;
      return |data|;
    }

    /** The direct half of _write: FatFs may take a shorter prefix. */
    method StoreDirect(data: seq<byte>) returns (r: int)
      requires Valid() && !cached && flags.mode != RdOnly && data != [] && position + |data| <= UINT_MAX
      modifies this`errno, this`position, this`size, this`writtenTo, fil`bytes, fil`ptr
      ensures Valid() && -1 <= r <= |data| && r != 0
      ensures r != -1 ==> writtenTo
      ensures r != -1 && old(Coherent()) ==>
                Coherent() && View() == Stored(old(View()), data, r)
      ensures fil.sound && old(Coherent()) ==> r == |data|
    {
      var res, written := fil.Write(data);
      if !res.FrOk? {
        errno := ErrnoOf(res);
        return -1;
      }
      position := position + written;
      if written == 0 {
        errno := EIO;
        return -1;
      }
      if position > size { size := position; }
      writtenTo := true;
      return written;
    }

    /** fsync */
    method Fsync() returns (r: int)
      requires Valid()
      modifies fil, this`errno, this`writtenTo
      ensures Valid() && (r == 0 || r == -1)
      ensures r == 0 ==> inUse && flags.mode != RdOnly && !writtenTo && fil.bytes == View().bytes
      ensures r == 0 && old(Coherent()) ==> Coherent() && View() == old(View())
      ensures r == 0 && (!cached || old(writtenTo)) ==> fil.durable == View().bytes
      ensures r == -1 && cached ==> View() == old(View()) && writtenTo == old(writtenTo)
      ensures !inUse || flags.mode == RdOnly ==> r == -1 && Untouched()
      ensures fil.sound && inUse && flags.mode != RdOnly ==> r == 0
    {
      if !inUse || flags.mode == RdOnly {
        errno := EBADF;
        return -1;
      }
      var ok;
      if cached { ok := FlushCachedFile(); } else { ok := SyncFile(); }
      if !ok { return -1; }
      writtenTo := false;
      return 0;
    }

    /** _lseek; a small read-only file is loaded into RAM on its first seek. */
    method Lseek(offset: int, whence: Whence) returns (r: int)
      requires Valid()
      modifies this`contents, this`capacity, this`cached, this`position, this`errno, fil`ptr
      ensures Valid() && (fresh(contents) || contents == old(contents))
      ensures r != -1 ==> inUse && !whence.SeekOther? && r == AsInt(position)
      ensures r != -1 && (old(cached) || |fil.bytes| == size) ==> Coherent() && View().bytes == old(View()).bytes
      ensures r != -1 && old(Coherent()) ==>
                Allows(old(View()), Op.Seek(offset, whence), At(position))
                && View() == After(old(View()), flags.append, Op.Seek(offset, whence), At(position))
      ensures r == -1 && old(cached) ==> View() == old(View())
      ensures r == -1 && errno == EINVAL && old(errno) != EINVAL ==> Untouched()
      ensures old(cached) ==> cached
      ensures r == -1 ==> cached == old(cached)
      ensures inUse && old(Coherent()) && (whence.SeekOther? || !(0 <= SeekTarget(old(View()), offset, whence) <= size)) ==>
                r == -1 && errno == EINVAL
      ensures fil.sound && inUse && old(Coherent()) && !whence.SeekOther? && 0 <= SeekTarget(old(View()), offset, whence) <= size ==>
                r == AsInt(SeekTarget(old(View()), offset, whence))
    {
      if !inUse {
        errno := EBADF;
        return -1;
      }
      var next;
      match whence {
        case SeekSet => next := offset;
        case SeekCur => next := position + offset;
        case SeekEnd => next := size + offset;
        case SeekOther =>
          errno := EINVAL;
          return -1;
      }
      if next < 0 || next > size {
        errno := EINVAL;
        return -1;
      }
      var ok := SeekTo(next);
      return if ok then AsInt(position) else -1;
    }

    /** _lseek to a place inside the file. */
    method SeekTo(next: nat) returns (ok: bool)
      requires Valid() && inUse && next <= size
      modifies this`contents, this`capacity, this`cached, this`position, this`errno, fil`ptr
      ensures Valid() && (fresh(contents) || contents == old(contents))
      ensures ok ==> position == next
      ensures ok && (old(cached) || |fil.bytes| == size) ==> Coherent() && View().bytes == old(View()).bytes
      ensures !ok ==> cached == old(cached) && !cached
      ensures !cached && errno == EINVAL ==> old(errno) == EINVAL
      ensures old(cached) ==> ok && cached
      ensures fil.sound ==> ok
    {
      if flags.mode == RdOnly && !cached && size <= CACHE_LIMIT {
        var done := CacheFile();
        if !done && errno != ENOMEM { return false; }
        if !cached { errno := NoError; }
      }
      if !cached {
        var res := fil.Seek(next);
        if !res.FrOk? {
          errno := EIO;
          return false;
        }
      }
      position := next;
      return true;
    }

    /** _close: the slot is free afterwards whatever the result. */
    method Close() returns (r: int)
      requires Valid()
      modifies this, fil
      ensures r == 0 || r == -1
      ensures old(inUse) ==> !inUse && !cached && !writtenTo && capacity == size == position == 0
      ensures old(inUse) ==> fil == old(fil) && fresh(contents)
      ensures r == 0 ==> old(inUse) && fil.bytes == old(View().bytes) && fil.durable == fil.bytes
      ensures !old(inUse) ==> r == -1
      ensures old(inUse && fil.sound) ==> r == 0
    {
      if !inUse {
        errno := EBADF;
        return -1;
      }
      var ok := true;
      if cached { ok := FlushCachedFile(); }
      else if writtenTo { ok := SyncFile(); }
      var res := fil.Sync();
      if !res.FrOk? {
        if ok { errno := ErrnoOf(res); }
        ok := false;
      }
      contents := new byte[0];
      capacity, size, position := 0, 0, 0;
      inUse, writtenTo, cached := false, false, false;
      r := if ok then 0 else -1;
    }
  }

  /** A buffer whose first n bytes are the file, after `d` was placed at p. */
  lemma SplicedBuffer(before: seq<byte>, after: seq<byte>, n: nat, p: nat, d: seq<byte>)
    requires p <= n <= |before| == |after| && p + |d| <= |before|
    requires after[..p + |d|] == before[..p] + d && after[p + |d|..] == before[p + |d|..]
    ensures after[..if p + |d| > n then p + |d| else n] == Splice(before[..n], p, d)
  {
    assert before[..n][..p] == before[..p];
    if p + |d| <= n {
      assert after[..n] == after[..p + |d|] + after[p + |d|..][..n - p - |d|];
      assert before[..n][p + |d|..] == before[p + |d|..][..n - p - |d|];
    }
  }

  lemma SliceGrows(s: seq<byte>, a: nat, b: nat, c: nat)
    requires a <= b <= c <= |s|
    ensures s[a..c] == s[a..b] + s[b..c]
  {
  }

  lemma SpliceNothing(b: seq<byte>, p: nat)
    requires p <= |b|
    ensures Splice(b, p, []) == b
  {
  }

  lemma SpliceReaches(b: seq<byte>, p: nat, d: seq<byte>)
    requires p <= |b|
    ensures p + |d| <= |Splice(b, p, d)|
  {
  }

  lemma PrefixAndPart(s: seq<byte>, a: nat, n: nat, k: nat)
    requires a <= n <= |s| && k <= n - a
    ensures s[..a] + s[a..n][..k] == s[..a + k]
  {
  }

  lemma SpliceTwice(b: seq<byte>, p: nat, d: seq<byte>, e: seq<byte>)
    requires p <= |b|
    ensures p + |d| <= |Splice(b, p, d)|
    ensures Splice(Splice(b, p, d), p + |d|, e) == Splice(b, p, d + e)
  {
  }

  /** Append mode has no effect on a handle that cannot write. */
  function EffectiveAppend(f: Flags): bool {
    f.append && f.mode != RdOnly
  }

  lemma RunExtends(l: Logical, append: bool, ops: seq<Op>, outs: seq<Outcome>, op: Op, out: Outcome)
    requires WellFormed(l) && |ops| == |outs| && Conforms(l, append, ops, outs)
    requires Allows(RunLogical(l, append, ops, outs), op, out)
    ensures Conforms(l, append, ops + [op], outs + [out])
    ensures RunLogical(l, append, ops + [op], outs + [out])
         == After(RunLogical(l, append, ops, outs), append, op, out)
  {
    var ops', outs' := ops + [op], outs + [out];
    assert ops'[..|ops|] == ops && outs'[..|ops|] == outs;
    forall i | 0 <= i < |ops'|
      ensures Allows(RunLogical(l, append, ops'[..i], outs'[..i]), ops'[i], outs'[i])
    {
      if i < |ops| {
        assert ops'[..i] == ops[..i] && outs'[..i] == outs[..i];
      }
    }
  }

  /** What a plain byte sequence with a cursor answers. */
  function Answer(l: Logical, mode: Mode, op: Op): Outcome
    requires WellFormed(l)
  {
    match op
    case Read(n) => if mode == WrOnly then Failed else Got(l.bytes[l.cursor..Min(l.cursor + n, |l.bytes|)])
    case Write(d) => if mode == RdOnly then Failed else Wrote(|d|)
    case Seek(o, w) => if w.SeekOther? || !(0 <= SeekTarget(l, o, w) <= |l.bytes|) then Failed else At(SeekTarget(l, o, w))
    case Fsync => if mode == RdOnly then Failed else Synced
  }

  /** The answers of the plain byte sequence to a whole run. */
  function Answers(l: Logical, f: Flags, ops: seq<Op>): (outs: seq<Outcome>)
    requires WellFormed(l)
    ensures |outs| == |ops|
  {
    if ops == [] then []
    else
      var n := |ops| - 1;
      var front := Answers(l, f, ops[..n]);
      front + [Answer(RunLogical(l, EffectiveAppend(f), ops[..n], front), f.mode, ops[n])]
  }

  function OpSize(op: Op): nat { if op.Write? then |op.data| else 0 }

  function DataSize(ops: seq<Op>): nat {
    if ops == [] then 0 else DataSize(ops[..|ops| - 1]) + OpSize(ops[|ops| - 1])
  }

  lemma GrowsByData(l: Logical, append: bool, op: Op, out: Outcome)
    requires WellFormed(l)
    ensures |After(l, append, op, out).bytes| <= |l.bytes| + OpSize(op)
  {
  }

  lemma {:induction false} RunGrowsByData(l: Logical, append: bool, ops: seq<Op>, outs: seq<Outcome>)
    requires WellFormed(l) && |ops| == |outs|
    ensures |RunLogical(l, append, ops, outs).bytes| <= |l.bytes| + DataSize(ops)
  {
    hide After;
    if ops != [] {
      var n := |ops| - 1;
      RunGrowsByData(l, append, ops[..n], outs[..n]);
      GrowsByData(RunLogical(l, append, ops[..n], outs[..n]), append, ops[n], outs[n]);
    }
  }

  lemma {:induction false} DataSizePrefix(ops: seq<Op>, k: nat)
    requires k <= |ops|
    ensures DataSize(ops[..k]) <= DataSize(ops)
    decreases |ops| - k
  {
    if k < |ops| {
      DataSizePrefix(ops, k + 1);
      assert ops[..k + 1][..k] == ops[..k];
    } else {
      assert ops[..k] == ops;
    }
  }

  /** One operation of a client that clears errno first; `live` says the handle is still trusted. */
  method Step(h: CircleFile, op: Op) returns (out: Outcome, live: bool)
    requires h.Valid() && h.Coherent() && h.inUse
    requires op.Write? ==> |op.data| < 0x8000_0000
    modifies h, h.fil, h.contents
    ensures h.Valid() && h.inUse && h.fil == old(h.fil) && h.flags == old(h.flags)
    ensures fresh(h.contents) || h.contents == old(h.contents)
    ensures Allows(old(h.View()), op, out)
    ensures live ==> h.Coherent() && h.View() == After(old(h.View()), EffectiveAppend(h.flags), op, out)
    ensures !out.Failed? || h.cached ==> live
    ensures h.fil.sound && h.roomy && old(h.size) + OpSize(op) < 0x8000_0000 ==>
              live && out == Answer(old(h.View()), h.flags.mode, op)
  {
    hide After, Allows;
    h.errno := NoError;
    match op {
      case Read(n) => out, live := StepRead(h, n);
      case Write(data) => out, live := StepWrite(h, data);
      case Seek(offset, whence) => out, live := StepSeek(h, offset, whence);
      case Fsync => out, live := StepFsync(h);
    }
  }

  method StepRead(h: CircleFile, n: nat) returns (out: Outcome, live: bool)
    requires h.Valid() && h.Coherent() && h.inUse
    modifies h, h.fil`ptr
    ensures h.Valid() && h.inUse && h.fil == old(h.fil) && h.flags == old(h.flags) && h.contents == old(h.contents)
    ensures Allows(old(h.View()), Op.Read(n), out)
    ensures live ==> h.Coherent() && h.View() == After(old(h.View()), EffectiveAppend(h.flags), Op.Read(n), out)
    ensures !out.Failed? || h.cached ==> live
    ensures h.fil.sound ==> live && out == Answer(old(h.View()), h.flags.mode, Op.Read(n))
  {
    var r, data := h.Read(n, false);
    out := if r >= 0 then Got(data) else Failed;
    live := r >= 0 || h.cached || h.flags.mode == WrOnly;
  }

  method StepWrite(h: CircleFile, data: seq<byte>) returns (out: Outcome, live: bool)
    requires h.Valid() && h.Coherent() && h.inUse && |data| < 0x8000_0000
    modifies h, h.fil, h.contents
    ensures h.Valid() && h.inUse && h.fil == old(h.fil) && h.flags == old(h.flags)
    ensures fresh(h.contents) || h.contents == old(h.contents)
    ensures Allows(old(h.View()), Op.Write(data), out)
    ensures live ==> h.Coherent() && h.View() == After(old(h.View()), EffectiveAppend(h.flags), Op.Write(data), out)
    ensures !out.Failed? || h.cached ==> live
    ensures h.fil.sound && h.roomy && old(h.size) + |data| < 0x8000_0000 ==>
              live && out == Answer(old(h.View()), h.flags.mode, Op.Write(data))
  {
    hide Stored, Splice;
    assert data[..|data|] == data;
    var r := h.Write(Bytes(data), |data|);
    out := if r >= 0 then Wrote(r) else Failed;
    live := r >= 0 || h.cached || h.flags.mode == RdOnly;
  }

  method StepSeek(h: CircleFile, offset: int, whence: Whence) returns (out: Outcome, live: bool)
    requires h.Valid() && h.Coherent() && h.inUse && h.errno == NoError
    modifies h, h.fil`ptr
    ensures h.Valid() && h.inUse && h.fil == old(h.fil) && h.flags == old(h.flags)
    ensures fresh(h.contents) || h.contents == old(h.contents)
    ensures Allows(old(h.View()), Op.Seek(offset, whence), out)
    ensures live ==> h.Coherent() && h.View() == After(old(h.View()), EffectiveAppend(h.flags), Op.Seek(offset, whence), out)
    ensures !out.Failed? || h.cached ==> live
    ensures h.fil.sound && old(h.size) < 0x8000_0000 ==> live && out == Answer(old(h.View()), h.flags.mode, Op.Seek(offset, whence))
  {
    var r := h.Lseek(offset, whence);
    out := if r != -1 then At(h.position) else Failed;
    live := r != -1 || h.cached || h.errno == EINVAL;
  }

  method StepFsync(h: CircleFile) returns (out: Outcome, live: bool)
    requires h.Valid() && h.Coherent() && h.inUse
    modifies h, h.fil
    ensures h.Valid() && h.inUse && h.fil == old(h.fil) && h.flags == old(h.flags) && h.contents == old(h.contents)
    ensures Allows(old(h.View()), Op.Fsync, out)
    ensures live ==> h.Coherent() && h.View() == After(old(h.View()), EffectiveAppend(h.flags), Op.Fsync, out)
    ensures !out.Failed? || h.cached ==> live
    ensures h.fil.sound ==> live && out == Answer(old(h.View()), h.flags.mode, Op.Fsync)
  {
    var r := h.Fsync();
    out := if r == 0 then Synced else Failed;
    live := r == 0 || h.cached || h.flags.mode == RdOnly;
  }

  /** Medium, memory and file size leave the handle no reason to fail. */
  ghost predicate Healthy(h: CircleFile, ops: seq<Op>)
    reads h, h.fil
  {
    h.fil.sound && h.roomy && h.size + DataSize(ops) < 0x8000_0000
  }

  /** One more operation of a healthy run. */
  lemma AnswersGrow(start: Logical, f: Flags, ops: seq<Op>, i: nat, outs: seq<Outcome>, out: Outcome)
    requires WellFormed(start) && i < |ops| && outs == Answers(start, f, ops[..i])
    requires out == Answer(RunLogical(start, EffectiveAppend(f), ops[..i], outs), f.mode, ops[i])
    ensures outs + [out] == Answers(start, f, ops[..i + 1])
  {
    hide Answer, RunLogical;
    assert ops[..i + 1][..i] == ops[..i];
  }

  lemma RoomForNext(start: Logical, append: bool, ops: seq<Op>, i: nat, outs: seq<Outcome>)
    requires WellFormed(start) && i < |ops| && |outs| == i && |start.bytes| + DataSize(ops) < 0x8000_0000
    ensures |RunLogical(start, append, ops[..i], outs).bytes| + OpSize(ops[i]) < 0x8000_0000
  {
    hide RunLogical;
    RunGrowsByData(start, append, ops[..i], outs);
    DataSizePrefix(ops, i + 1);
    assert ops[..i + 1][..i] == ops[..i];
  }

  /** Runs the operations in order until one of them loses the handle. */
  method RunOps(h: CircleFile, ops: seq<Op>) returns (outs: seq<Outcome>, live: bool)
    requires h.Valid() && h.Coherent() && h.inUse
    requires forall op :: op in ops && op.Write? ==> |op.data| < 0x8000_0000
    modifies h, h.fil, h.contents
    ensures h.Valid() && h.inUse && h.fil == old(h.fil)
    ensures fresh(h.contents) || h.contents == old(h.contents)
    ensures |outs| <= |ops|
    ensures Conforms(old(h.View()), EffectiveAppend(old(h.flags)), ops[..|outs|], outs)
    ensures Failed !in outs ==> live
    ensures live ==> |outs| == |ops| && h.Coherent()
    ensures live ==> h.View() == RunLogical(old(h.View()), EffectiveAppend(old(h.flags)), ops, outs)
    ensures old(Healthy(h, ops)) ==> live && outs == Answers(old(h.View()), old(h.flags), ops)
  {
    hide Conforms, RunLogical, Allows, After, Answer, Answers, DataSize, OpSize;
    outs, live := [], true;
    ghost var start, append := h.View(), EffectiveAppend(h.flags);
    ghost var healthy := Healthy(h, ops);
    NothingRun(start, append, h.flags, ops);
    var i := 0;
    while i < |ops| && live
      invariant 0 <= i <= |ops| && i == |outs|
      invariant h.Valid() && h.inUse && h.fil == old(h.fil) && h.flags == old(h.flags)
      invariant fresh(h.contents) || h.contents == old(h.contents)
      invariant Conforms(start, append, ops[..i], outs)
      invariant live ==> h.Coherent() && h.View() == RunLogical(start, append, ops[..i], outs)
      invariant Failed !in outs ==> live
      invariant healthy ==> live && outs == Answers(start, old(h.flags), ops[..i])
      decreases |ops| - i
    {
      if healthy {
        RoomForNext(start, append, ops, i, outs);
      }
      var out;
      assert ops[i] in ops;
      out, live := Step(h, ops[i]);
      RunExtends(start, append, ops[..i], outs, ops[i], out);
      assert ops[..i] + [ops[i]] == ops[..i + 1];
      if healthy {
        AnswersGrow(start, old(h.flags), ops, i, outs, out);
      }
      outs := outs + [out];
      i := i + 1;
    }
    assert live ==> ops[..i] == ops;
  }

  lemma NothingRun(l: Logical, append: bool, f: Flags, ops: seq<Op>)
    requires WellFormed(l)
    ensures ops[..0] == [] && Conforms(l, append, [], []) && RunLogical(l, append, [], []) == l && Answers(l, f, []) == []
  {
  }

  /** An open that nothing but the medium can refuse. */
  predicate Openable(existing: Existing, f: Flags) {
    !OpenRefused(existing, f) && !(f.trunc && f.append)
  }

  /**
   A whole session on one handle: open, any operations, close. The run ends early
   only when a direct FatFs call failed. Every outcome is the logical file's, and a
   close that reports success leaves the logical bytes on the medium, whether the
   handle was direct, cached at open, cached by a seek or spilled on the way. With a
   sound medium, memory and a file below 2 GiB, the session gives exactly the answers
   of the plain byte sequence and ends with its bytes on the medium.
   */
  method Session(existing: Existing, f: Flags, ops: seq<Op>, sound: bool, roomy: bool)
    returns (isOpen: bool, outs: seq<Outcome>, live: bool, closed: bool, disk: seq<byte>)
    requires forall op :: op in ops && op.Write? ==> |op.data| < 0x8000_0000
    ensures |outs| <= |ops|
    ensures OpenRefused(existing, f) ==> !isOpen
    ensures isOpen ==> Conforms(OpenView(existing, f), EffectiveAppend(f), ops[..|outs|], outs)
    ensures isOpen && Failed !in outs ==> live
    ensures isOpen && live ==> |outs| == |ops|
    ensures isOpen && live && closed ==>
              disk == RunLogical(OpenView(existing, f), EffectiveAppend(f), ops, outs).bytes
    ensures sound && roomy && Openable(existing, f) && |OpenView(existing, f).bytes| + DataSize(ops) < 0x8000_0000 ==>
              isOpen && live && closed && outs == Answers(OpenView(existing, f), f, ops)
  {
    hide Conforms, RunLogical, Answers, DataSize, OpenView, OpenRefused;
    outs, live, closed, disk := [], true, false, [];
    var h := new CircleFile(roomy);
    isOpen := h.Open(existing, f, sound);
    if isOpen {
      outs, live := RunOps(h, ops);
      if live {
        var r := h.Close();
        closed := r == 0;
        disk := h.fil.durable;
      }
    }
  }

  // ---------------------------------------------------------------- sessions, byte by byte

  lemma OneAnswer(l: Logical, f: Flags, op: Op)
    requires WellFormed(l)
    ensures Answers(l, f, [op]) == [Answer(l, f.mode, op)]
    ensures RunLogical(l, EffectiveAppend(f), [op], [Answer(l, f.mode, op)])
         == After(l, EffectiveAppend(f), op, Answer(l, f.mode, op))
    ensures DataSize([op]) == OpSize(op)
  {
    assert [op][..0] == [] && [Answer(l, f.mode, op)][..0] == [];
  }

  /** One operation on the plain byte sequence: its answer and the bytes it leaves. */
  lemma OneRun(l: Logical, f: Flags, op: Op, out: Outcome, bytes: seq<byte>)
    requires WellFormed(l) && Answer(l, f.mode, op) == out && After(l, EffectiveAppend(f), op, out).bytes == bytes
    ensures Answers(l, f, [op]) == [out] && RunLogical(l, EffectiveAppend(f), [op], [out]).bytes == bytes
    ensures DataSize([op]) == OpSize(op)
  {
    OneAnswer(l, f, op);
  }

  lemma ReadRun(bytes: seq<byte>, f: Flags)
    requires !f.trunc && !f.append && f.mode != WrOnly
    ensures var l, op := OpenView(Present(bytes), f), Op.Read(|bytes|);
            Answers(l, f, [op]) == [Got(bytes)] && RunLogical(l, EffectiveAppend(f), [op], [Got(bytes)]).bytes == bytes
            && DataSize([op]) == 0 && l.bytes == bytes
  {
    assert bytes[0..|bytes|] == bytes;
    OneRun(Logical(bytes, 0), f, Op.Read(|bytes|), Got(bytes), bytes);
  }

  lemma OverwriteRun(existing: Existing, f: Flags, data: seq<byte>)
    requires f.trunc && !f.append && f.mode != RdOnly
    ensures var l, op, out := OpenView(existing, f), Op.Write(data), Wrote(|data|);
            Answers(l, f, [op]) == [out] && RunLogical(l, EffectiveAppend(f), [op], [out]).bytes == data
            && DataSize([op]) == |data| && l.bytes == []
  {
    assert data[..|data|] == data && [] + data + [] == data;
    OneRun(Logical([], 0), f, Op.Write(data), Wrote(|data|), data);
  }

  lemma AppendRun(was: seq<byte>, f: Flags, data: seq<byte>)
    requires f.append && f.mode != RdOnly
    ensures var l, op, out := Logical(was, |was|), Op.Write(data), Wrote(|data|);
            Answers(l, f, [op]) == [out] && RunLogical(l, EffectiveAppend(f), [op], [out]).bytes == was + data
            && DataSize([op]) == |data|
  {
    assert data[..|data|] == data && was[..|was|] == was && was + data + [] == was + data;
    OneRun(Logical(was, |was|), f, Op.Write(data), Wrote(|data|), was + data);
  }

  lemma CursorRun(bytes: seq<byte>, f: Flags)
    requires !f.trunc
    ensures var l, op := OpenView(Present(bytes), f), Op.Seek(0, SeekCur);
            Answers(l, f, [op]) == [At(if f.append then |bytes| else 0)] && DataSize([op]) == 0 && l.bytes == bytes
  {
    OneAnswer(Logical(bytes, if f.append then |bytes| else 0), f, Op.Seek(0, SeekCur));
  }

  /**
   An open that does not truncate leaves the file alone: reading it whole and closing
   gives exactly its bytes, and the medium still has them.
   */
  method ReadBack(bytes: seq<byte>, f: Flags, roomy: bool) returns (outs: seq<Outcome>, closed: bool, disk: seq<byte>)
    requires !f.trunc && !f.append && !(f.creat && f.excl) && f.mode != WrOnly && |bytes| < 0x8000_0000
    ensures roomy ==> outs == [Got(bytes)] && closed && disk == bytes
  {
    hide Conforms, RunLogical, Answers, DataSize, OpenView;
    var isOpen, live;
    ReadRun(bytes, f);
    isOpen, outs, live, closed, disk := Session(Present(bytes), f, [Op.Read(|bytes|)], true, roomy);
  }

  /** Truncation starts from nothing: what is written is then the whole file. */
  method Overwrite(existing: Existing, f: Flags, data: seq<byte>, roomy: bool) returns (outs: seq<Outcome>, closed: bool, disk: seq<byte>)
    requires f.trunc && !f.append && !(f.creat && f.excl) && f.mode != RdOnly && |data| < 0x8000_0000
    ensures roomy ==> outs == [Wrote(|data|)] && closed && disk == data
  {
    hide Conforms, RunLogical, Answers, DataSize, OpenView;
    var isOpen, live;
    OverwriteRun(existing, f, data);
    isOpen, outs, live, closed, disk := Session(existing, f, [Op.Write(data)], true, roomy);
  }

  /** Appending starts at the end: what is written follows the file's bytes. */
  method AppendTo(existing: Existing, f: Flags, data: seq<byte>, roomy: bool) returns (outs: seq<Outcome>, closed: bool, disk: seq<byte>)
    requires f.append && !f.trunc && f.mode != RdOnly
    requires (if existing.Present? then |existing.bytes| else 0) + |data| < 0x8000_0000
    ensures roomy ==> outs == [Wrote(|data|)] && closed && disk == (if existing.Present? then existing.bytes else []) + data
  {
    var isOpen, live;
    ghost var was := if existing.Present? then existing.bytes else [];
    assert OpenView(existing, f) == Logical(was, |was|);
    hide Conforms, RunLogical, Answers, DataSize, OpenView;
    AppendRun(was, f, data);
    isOpen, outs, live, closed, disk := Session(existing, f, [Op.Write(data)], true, roomy);
  }

  /** The cursor of a fresh handle: the end when appending, the start otherwise. */
  method FreshCursor(bytes: seq<byte>, f: Flags, roomy: bool) returns (outs: seq<Outcome>)
    requires !f.trunc && !(f.creat && f.excl && !f.append) && |bytes| < 0x8000_0000
    ensures roomy ==> outs == [At(if f.append then |bytes| else 0)]
  {
    hide Conforms, RunLogical, Answers, DataSize, OpenView;
    var isOpen, live, closed, disk;
    CursorRun(bytes, f);
    isOpen, outs, live, closed, disk := Session(Present(bytes), f, [Op.Seek(0, SeekCur)], true, roomy);
  }
}
