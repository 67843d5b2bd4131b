/**
 File transfer of packages/diag-efs/src/diag_efs.c: chunked reads and writes against a server that
 may answer short, and `put` with its backup and its verification by read-back.

 The modem is a map of committed files and a map of open handles.  A request may be lost on the way,
 and so may the reply to a request that was carried out; a read or write may cover fewer bytes than
 asked for.  Written data is committed when the handle is closed.  The local disk has room for so many
 more bytes; what does not fit is lost without a word, because nobody looks at the results of fwrite and
 fclose.
 */
module EfsTransfer {
  import opened Words

  const CHUNK := 1024
  const O_CREAT := 0x40
  const O_TRUNC := 0x200
  const O_APPEND := 0x400

  type Bytes = seq<byte>

  predicate HasFlag(oflag: nat, flag: nat)
    requires flag > 0
  {
    (oflag / flag) % 2 == 1
  }

  /** The content after d has been written at an offset; a gap before the offset reads as zero. */
  function Overwrite(content: Bytes, offset: nat, d: Bytes): Bytes {
    if offset > |content| then content + Zeros(offset - |content|) + d
    else content[..offset] + d + From(content, offset + |d|)
  }

  function Zeros(n: nat): Bytes {
    if n == 0 then [] else [0] + Zeros(n - 1)
  }

  function From(content: Bytes, n: nat): Bytes {
    if n < |content| then content[n..] else []
  }

  datatype Handle = Handle(path: string, content: Bytes, append: bool, written: bool)

  // ----- the modem -----

  class Modem {
    var files: map<string, Bytes>
    var handles: map<u32, Handle>
    ghost var opens: seq<(string, nat)>    // path and flags of every open, in order
    const reliable: bool                   // nothing is lost, and counts are short but positive
    const silent: set<string>              // files whose stat is never answered, or refused
    ghost var faulty: bool                 // a request or reply was lost, refused or answered with no bytes

    constructor (files: map<string, Bytes>, reliable: bool, silent: set<string>)
      ensures this.files == files && this.reliable == reliable && this.silent == silent
      ensures handles == map[] && opens == [] && !faulty
    {
      this.silent := silent;
      this.files, this.reliable, handles, opens, faulty := files, reliable, map[], [], false;
    }

    /** Nothing is wrong and nothing open. */
    ghost predicate Clean()
      reads this
    {
      reliable && !faulty && handles == map[]
    }

    /** efs_open: an error reply, or no reply, leaves the caller without a handle. */
    method Open(path: string, oflag: nat) returns (h: Option<u32>)
      modifies this
      ensures opens == old(opens) + [(path, oflag)]
      ensures files == old(files)
              || (files == old(files)[path := []]
                  && if path in old(files) then HasFlag(oflag, O_TRUNC) else HasFlag(oflag, O_CREAT))
      ensures old(faulty) ==> faulty
      ensures old(Clean()) ==> !faulty && (h.None? ==> handles == map[])
      ensures h.None? && !faulty ==> files == old(files) && path !in files && !HasFlag(oflag, O_CREAT)
      ensures h.Some? ==>
                && h.value !in old(handles) && path in files
                && handles == old(handles)[h.value := Handle(path, files[path], HasFlag(oflag, O_APPEND), false)]
                && (oflag == 0 ==> path in old(files))
                && (HasFlag(oflag, O_TRUNC) ==> files[path] == [])
    {
      opens := opens + [(path, oflag)];
      var arrives: bool :| reliable ==> arrives;
      var answered: bool :| reliable ==> answered;
      h := None;
      faulty := faulty || !arrives || ((path in files || HasFlag(oflag, O_CREAT)) && !answered);
      if arrives && (path in files || HasFlag(oflag, O_CREAT)) {
        if path !in files || HasFlag(oflag, O_TRUNC) {
          files := files[path := []];
        }
        var k: u32 := *;
        if k !in handles {
          handles := handles[k := Handle(path, files[path], HasFlag(oflag, O_APPEND), false)];
          h := if answered then Some(k) else None;
        } else {
          faulty := true;
        }
      }
    }

    /** efs_fstat */
    method Fstat(h: u32) returns (size: Option<nat>)
      modifies this`faulty
      ensures (old(faulty) ==> faulty) && (size.None? && h in handles ==> faulty) && (reliable ==> faulty == old(faulty))
      ensures size.Some? ==> h in handles && size.value == |handles[h].content|
    {
      var answered: bool :| reliable ==> answered;
      faulty := faulty || !answered;
      size := if answered && h in handles then Some(|handles[h].content|) else None;
    }

    /** efs_stat */
    method Stat(path: string) returns (size: Option<nat>)
      modifies this`faulty
      ensures (old(faulty) ==> faulty) && (reliable ==> faulty == old(faulty))
      ensures size.None? && path in files && path !in silent ==> faulty
      ensures size.Some? ==> path in files && path !in silent && size.value == |files[path]|
    {
      var answered: bool :| reliable ==> answered;
      faulty := faulty || !answered;
      size := if answered && path in files && path !in silent then Some(|files[path]|) else None;
    }

    /** efs_read: any number of bytes up to the number asked for. */
    method Read(h: u32, nbytes: nat, offset: nat) returns (data: Option<Bytes>)
      modifies this`faulty
      ensures old(faulty) ==> faulty
      ensures h in handles && nbytes > 0 && offset < |handles[h].content| && (data.None? || data.value == []) ==> faulty
      ensures reliable && h in handles && nbytes > 0 && offset < |handles[h].content| ==> faulty == old(faulty)
      ensures data.Some? ==>
                && h in handles && |data.value| <= nbytes && offset + |data.value| <= |handles[h].content|
                && data.value == handles[h].content[offset..offset + |data.value|]
    {
      var answered: bool :| reliable ==> answered;
      data := None;
      if answered && h in handles && offset <= |handles[h].content| {
        var most := Min(nbytes, |handles[h].content| - offset);
        var n: nat :| n <= most && (reliable && most > 0 ==> n > 0);
        data := Some(handles[h].content[offset..offset + n]);
        faulty := faulty || n == 0;
      } else {
        faulty := true;
      }
    }

    /** efs_write: any number of bytes up to all of them is stored, and reported if the reply arrives. */
    method Write(h: u32, data: Bytes, offset: nat) returns (count: Option<nat>)
      modifies this`handles, this`faulty
      ensures (old(faulty) ==> faulty) && (data != [] && (count.None? || count.value == 0) ==> faulty)
      ensures reliable && h in handles && data != [] ==> faulty == old(faulty)
      ensures handles.Keys == old(handles).Keys
      ensures forall k :: k in handles && k != h ==> handles[k] == old(handles)[k]
      ensures count.Some? ==>
                && h in handles && count.value <= |data|
                && handles[h] == Stored(old(handles)[h], data[..count.value], offset)
      ensures count.None? && h in handles ==>
                exists n :: 0 <= n <= |data| && handles[h] == Stored(old(handles)[h], data[..n], offset)
    {
      count := None;
      if h in handles {
        var n: nat :| n <= |data| && (reliable && data != [] ==> n > 0);
        handles := handles[h := Stored(handles[h], data[..n], offset)];
        var answered: bool :| reliable ==> answered;
        count := if answered then Some(n) else None;
        faulty := faulty || !answered || n == 0;
        assert handles[h] == Stored(old(handles)[h], data[..n], offset);
      } else {
        faulty := true;
      }
    }

    /** efs_close: data written through the handle reaches the file, unless the request is lost. */
    method Close(h: u32)
      modifies this`files, this`handles, this`faulty
      ensures old(faulty) ==> faulty
      ensures !faulty && h in old(handles) && old(handles)[h].written ==>
                files == old(files)[old(handles)[h].path := old(handles)[h].content]
      ensures reliable && h in old(handles) ==> faulty == old(faulty) && handles == old(handles) - {h}
      ensures files == old(files) || (h in old(handles) && old(handles)[h].written
                                      && files == old(files)[old(handles)[h].path := old(handles)[h].content])
    {
      var arrives: bool :| reliable ==> arrives;
      faulty := faulty || !arrives;
      if arrives && h in handles {
        if handles[h].written {
          files := files[handles[h].path := handles[h].content];
        }
        handles := handles - {h};
      }
    }
  }

  function Stored(h: Handle, d: Bytes, offset: nat): Handle {
    h.(content := Overwrite(h.content, if h.append then |h.content| else offset, d), written := true)
  }

  // ----- the local disk -----

  class LocalDisk {
    var files: map<string, Bytes>
    var room: nat
    const writable: bool

    constructor (files: map<string, Bytes>, room: nat, writable: bool)
      ensures this.files == files && this.room == room && this.writable == writable
    {
      this.files, this.room, this.writable := files, room, writable;
    }

    /** How long a file of this name may become: what it occupies now is freed first. */
    function RoomFor(path: string): nat
      reads this
    {
      room + if path in files then |files[path]| else 0
    }

    /** fopen(path, "wb") */
    method Create(path: string) returns (ok: bool)
      modifies this
      ensures ok == writable
      ensures files == (if ok then old(files)[path := []] else old(files)) && room == if ok then old(RoomFor(path)) else old(room)
    {
      if writable {
        room := RoomFor(path);
        files := files[path := []];
      }
      return writable;
    }

    /** fwrite to the end of the file; a full disk takes only a part. */
    method Append(path: string, data: Bytes)
      requires path in files
      modifies this
      ensures files == old(files)[path := old(files)[path] + data[..Min(|data|, old(room))]]
      ensures room == old(room) - Min(|data|, old(room))
    {
      var n := Min(|data|, room);
      files := files[path := files[path] + data[..n]];
      room := room - n;
    }
  }

  // ----- the tool -----

  /** One efs_read into a buffer of room bytes from index at on; 0 or -1 ends the caller's loop. */
  method ReadChunk(modem: Modem, h: u32, nbytes: nat, offset: nat, out: array<byte>, at: nat, room: nat) returns (n: int)
    requires at + room <= out.Length && nbytes <= room
    modifies out, modem`faulty
    ensures -1 <= n <= nbytes
    ensures old(modem.faulty) ==> modem.faulty
    ensures nbytes > 0 && h in modem.handles && offset < |modem.handles[h].content| ==>
              (n <= 0 ==> modem.faulty) && (modem.reliable ==> modem.faulty == old(modem.faulty))
    ensures n > 0 ==> h in modem.handles && offset + n <= |modem.handles[h].content|
    ensures n > 0 ==> out[at..at + n] == modem.handles[h].content[offset..offset + n]
    ensures forall k :: 0 <= k < out.Length && !(at <= k < at + n) ==> out[k] == old(out[k])
  {
    var reply := modem.Read(h, nbytes, offset);
    if reply.None? {
      return -1;
    }
    var data := reply.value;
    forall k | 0 <= k < |data| {
      out[at + k] := data[k];
    }
    n := |data|;
  }

  lemma JoinChunk(read: Bytes, content: Bytes, off: nat, n: nat)
    requires |read| == off + n <= |content|
    requires read[..off] == content[..off] && read[off..] == content[off..off + n]
    ensures read == content[..off + n]
  {
    assert content[..off + n] == content[..off] + content[off..off + n];
    assert read == read[..off] + read[off..];
  }

  /** `efs_read_all`: the whole file, or failure after closing the handle. */
  method ReadAll(modem: Modem, path: string) returns (r: int, out: array<byte>, len: nat)
    modifies modem
    ensures fresh(out) && len <= out.Length && modem.files == old(modem.files) && modem.opens == old(modem.opens) + [(path, 0)]
    ensures r == 0 || r == -1
    ensures r == 0 ==> path in modem.files && out[..len] == modem.files[path]
    ensures (old(modem.faulty) ==> modem.faulty) && (old(modem.Clean()) ==> modem.Clean())
    ensures r == -1 ==> modem.faulty || path !in modem.files
  {
    out, len := new byte[1], 0;
    var h := modem.Open(path, 0);
    if h.None? {
      return -1, out, 0;
    }
    var size := modem.Fstat(h.value);
    if size.None? {
      modem.Close(h.value);
      return -1, out, 0;
    }
    ghost var content := modem.files[path];
    out := new byte[Max(size.value, 1)];
    len := ReadInto(modem, h.value, size.value, out);
    modem.Close(h.value);
    assert content[..|content|] == content;
    return if len == size.value then 0 else -1, out, len;
  }

  /** The loop of `efs_read_all`. */
  method ReadInto(modem: Modem, h: u32, size: nat, out: array<byte>) returns (off: nat)
    requires h in modem.handles && size == |modem.handles[h].content| <= out.Length
    modifies out, modem`faulty
    ensures off <= size && out[..off] == modem.handles[h].content[..off]
    ensures (old(modem.faulty) ==> modem.faulty) && (off < size ==> modem.faulty)
    ensures modem.reliable ==> modem.faulty == old(modem.faulty)
  {
    ghost var content := modem.handles[h].content;
    off := 0;
    while off < size
      invariant off <= size && out[..off] == content[..off]
      invariant (old(modem.faulty) ==> modem.faulty) && (modem.reliable ==> modem.faulty == old(modem.faulty))
    {
      var want := size - off;
      if want > CHUNK {
        want := CHUNK;
      }
      ghost var done := out[..off];
      var n := ReadChunk(modem, h, want, off, out, off, size - off);
      if n <= 0 {
        break;
      }
      assert out[..off] == done;
      JoinChunk(out[..off + n], content, off, n);
      off := off + n;
    }
  }

  /**
   `cmd_read` into a local file.  It returns 0 as soon as every byte has been read; the local file then has as many
   of them as the disk had room for.
   */
  method CmdRead(modem: Modem, disk: LocalDisk, path: string, local: string) returns (rc: int)
    modifies modem, disk
    ensures modem.files == old(modem.files) && modem.opens == old(modem.opens) + [(path, 0)]
    ensures forall p :: p in old(disk.files) && p != local ==> p in disk.files && disk.files[p] == old(disk.files)[p]
    ensures disk.files.Keys <= old(disk.files).Keys + {local}
    ensures (old(modem.faulty) ==> modem.faulty) && (old(modem.Clean()) ==> modem.Clean()) && (rc == 0 || rc == 1)
    ensures rc == 1 ==> modem.faulty || !disk.writable || path !in modem.files
    ensures rc == 0 ==>
              && path in modem.files && local in disk.files
              && disk.files[local] == Fitting(modem.files[path], old(disk.RoomFor(local)))
  {
    var h := modem.Open(path, 0);
    if h.None? {
      return 1;
    }
    var size := modem.Fstat(h.value);
    if size.None? {
      modem.Close(h.value);
      return 1;
    }
    var created := disk.Create(local);
    if !created {
      modem.Close(h.value);
      return 1;
    }
    var off := CopyToDisk(modem, disk, h.value, size.value, local);
    modem.Close(h.value);
    return if off == size.value then 0 else 1;
  }

  /** What a disk takes of some content. */
  function Fitting(content: Bytes, room: nat): (r: Bytes)
    ensures r <= content && (r == content <==> |content| <= room)
  {
    content[..Min(|content|, room)]
  }

  lemma NothingFits(content: Bytes, room: nat)
    ensures Fitting(content[..0], room) == []
  {
  }

  lemma FittingGrows(content: Bytes, room: nat, off: nat, n: nat, chunk: Bytes)
    requires off + n <= |content| && chunk == content[off..off + n]
    ensures var taken := Min(off, room);
            Fitting(content[..off], room) + chunk[..Min(n, room - taken)] == Fitting(content[..off + n], room)
  {
    if room > off {
      assert content[..off] + chunk[..Min(n, room - off)] == content[..off + Min(n, room - off)];
    }
  }

  /** The loop of `cmd_read`: chunks of at most 1024 bytes until the file's size is reached or a read fails. */
  method CopyToDisk(modem: Modem, disk: LocalDisk, h: u32, size: nat, local: string) returns (off: nat)
    requires h in modem.handles && size == |modem.handles[h].content|
    requires local in disk.files && disk.files[local] == []
    modifies modem`faulty, disk
    ensures off <= size && (old(modem.faulty) ==> modem.faulty) && (off < size ==> modem.faulty)
    ensures modem.reliable ==> modem.faulty == old(modem.faulty)
    ensures disk.files.Keys == old(disk.files).Keys
    ensures forall p :: p in disk.files && p != local ==> disk.files[p] == old(disk.files)[p]
    ensures off == size ==> disk.files[local] == Fitting(modem.handles[h].content, old(disk.room))
  {
    hide Fitting;
    ghost var content, room := modem.handles[h].content, disk.room;
    NothingFits(content, room);
    var buf := new byte[2048];
    off := 0;
    while off < size
      invariant 0 <= off <= size && (old(modem.faulty) ==> modem.faulty) && (modem.reliable ==> modem.faulty == old(modem.faulty))
      invariant disk.files.Keys == old(disk.files).Keys
      invariant forall p :: p in disk.files && p != local ==> disk.files[p] == old(disk.files)[p]
      invariant disk.files[local] == Fitting(content[..off], room) && disk.room == room - Min(off, room)
    {
      var want := size - off;
      if want > CHUNK {
        want := CHUNK;
      }
      var n := ReadChunk(modem, h, want, off, buf, 0, buf.Length);
      if n <= 0 {
        break;
      }
      FittingGrows(content, room, off, n, buf[..n]);
      disk.Append(local, buf[..n]);
      off := off + n;
    }
    assert content[..|content|] == content;
  }

  /** One more chunk behind those already written continues a single write from the start of the file. */
  lemma OverwriteContinues(content: Bytes, data: Bytes, off: nat, n: nat)
    requires off + n <= |data|
    ensures Overwrite(Overwrite(content, 0, data[..off]), off, data[off..off + n]) == Overwrite(content, 0, data[..off + n])
  {
    hide Overwrite;
    assert data[..off] + data[off..off + n] == data[..off + n];
    OverwriteTwice(content, data[..off], data[off..off + n]);
  }

  lemma OverwriteTwice(content: Bytes, a: Bytes, b: Bytes)
    ensures Overwrite(Overwrite(content, 0, a), |a|, b) == Overwrite(content, 0, a + b)
  {
    hide Overwrite, From;
    var rest := From(content, |a|);
    OverwriteAt([], content, a);
    OverwriteAt(a, rest, b);
    OverwriteAt([], content, a + b);
    FromTwice(content, |a|, |b|);
    assert [] + a + rest == a + rest && a + b + From(rest, |b|) == [] + (a + b) + From(rest, |b|);
  }

  lemma OverwriteAt(front: Bytes, rest: Bytes, d: Bytes)
    ensures Overwrite(front + rest, |front|, d) == front + d + From(rest, |d|)
    ensures front == [] ==> front + rest == rest
  {
    assert (front + rest)[..|front|] == front;
    FromBehind(front, rest, |d|);
  }

  lemma FromBehind(front: Bytes, rest: Bytes, n: nat)
    ensures From(front + rest, |front| + n) == From(rest, n)
  {
  }

  lemma FromTwice(content: Bytes, m: nat, n: nat)
    ensures From(From(content, m), n) == From(content, m + n)
  {
  }

  lemma AppendTwice(content: Bytes, a: Bytes, b: Bytes)
    ensures var first := Overwrite(content, |content|, a);
            Overwrite(first, |first|, b) == Overwrite(content, |content|, a + b)
  {
    assert Overwrite(content, |content|, a) == content + a;
    assert content + a + b == content + (a + b);
  }

  /** What a handle holds when the first n bytes of data went through it. */
  ghost predicate HoldsPrefix(h: Handle, before: Handle, data: Bytes, n: nat) {
    n <= |data| && h.path == before.path && h.append == before.append && (n > 0 ==> h.written)
    && h.content == Stored(before, data[..n], 0).content
  }

  /** The write loop of `cmd_put`: every byte in order, by as many requests as the short counts make necessary. */
  method WriteAll(modem: Modem, h: u32, data: Bytes) returns (rc: int, ghost sent: nat)
    requires h in modem.handles
    modifies modem`handles, modem`faulty
    ensures (rc == 0 || rc == 1) && h in modem.handles
    ensures (old(modem.faulty) ==> modem.faulty) && (rc == 1 ==> modem.faulty)
    ensures modem.handles.Keys == old(modem.handles).Keys && (modem.reliable ==> modem.faulty == old(modem.faulty))
    ensures HoldsPrefix(modem.handles[h], old(modem.handles)[h], data, sent)
    ensures rc == 0 ==> sent == |data|
  {
    hide HoldsPrefix, Stored;
    ghost var before := modem.handles[h];
    var off := 0;
    rc, sent := 0, 0;
    PrefixStart(before, data);
    while off < |data|
      invariant 0 <= off == sent <= |data| && rc == 0 && h in modem.handles
      invariant HoldsPrefix(modem.handles[h], before, data, off) && (old(modem.faulty) ==> modem.faulty)
      invariant modem.handles.Keys == old(modem.handles).Keys && (modem.reliable ==> modem.faulty == old(modem.faulty))
    {
      var want := |data| - off;
      if want > CHUNK {
        want := CHUNK;
      }
      ghost var now := modem.handles[h];
      var nw := modem.Write(h, data[off..off + want], off);
      ghost var n: nat :| n <= want && (nw.Some? ==> n == nw.value)
                          && modem.handles[h] == Stored(now, data[off..off + want][..n], off);
      PrefixGrows(before, now, modem.handles[h], data, off, want, n);
      sent := off + n;
      if nw.None? || nw.value == 0 {
        rc := 1;
        break;
      }
      off := off + nw.value;
    }
  }

  lemma PrefixStart(h: Handle, data: Bytes)
    ensures HoldsPrefix(h, h, data, 0)
  {
  }

  lemma PrefixGrows(before: Handle, now: Handle, after: Handle, data: Bytes, off: nat, want: nat, n: nat)
    requires off + want <= |data| && n <= want
    requires HoldsPrefix(now, before, data, off)
    requires after == Stored(now, data[off..off + want][..n], off)
    ensures HoldsPrefix(after, before, data, off + n)
  {
    hide Overwrite;
    assert data[off..off + want][..n] == data[off..off + n];
    assert data[..off] + data[off..off + n] == data[..off + n];
    if before.append {
      AppendTwice(before.content, data[..off], data[off..off + n]);
    } else {
      OverwriteContinues(before.content, data, off, n);
    }
  }

  /** Through a truncated handle, what has been sent is exactly what the file will hold. */
  lemma TruncatedHoldsPrefix(h: Handle, before: Handle, data: Bytes, n: nat)
    requires before.content == [] && HoldsPrefix(h, before, data, n)
    ensures h.content == data[..n] && h.content <= data
  {
  }

  lemma PrefixKeepsPath(h: Handle, before: Handle, data: Bytes, n: nat)
    requires HoldsPrefix(h, before, data, n)
    ensures h.path == before.path && n <= |data| && (n > 0 ==> h.written) && (n == 0 ==> h.content == before.content)
  {
    hide Overwrite;
    if n == 0 {
      PrefixStart(before, data);
    }
  }

  /** The middle of `cmd_put`: open, write everything, close. */
  method WriteFile(modem: Modem, path: string, data: Bytes, oflag: nat) returns (rc: int)
    modifies modem
    ensures (rc == 0 || rc == 1) && modem.opens == old(modem.opens) + [(path, oflag)]
    ensures forall p :: p != path ==> (p in modem.files <==> p in old(modem.files))
                                      && (p in modem.files ==> modem.files[p] == old(modem.files)[p])
    ensures HasFlag(oflag, O_TRUNC) ==>
              modem.files == old(modem.files) || (path in modem.files && modem.files[path] <= data)
    ensures (old(modem.faulty) ==> modem.faulty) && (rc == 1 ==> modem.faulty || !HasFlag(oflag, O_CREAT))
    ensures old(modem.Clean()) ==> modem.Clean()
    ensures rc == 0 && !modem.faulty && HasFlag(oflag, O_TRUNC) ==> path in modem.files && modem.files[path] == data
  {
    hide HoldsPrefix, HasFlag;
    var h := modem.Open(path, oflag);
    if h.None? {
      return 1;
    }
    ghost var before := modem.handles[h.value];
    ghost var sent;
    rc, sent := WriteAll(modem, h.value, data);
    ghost var after := modem.handles[h.value];
    PrefixKeepsPath(after, before, data, sent);
    modem.Close(h.value);
    if HasFlag(oflag, O_TRUNC) {
      TruncatedHoldsPrefix(after, before, data, sent);
      assert data[..|data|] == data;
    }
  }

  predicate OccursAt(s: string, t: string, i: nat) {
    i + |t| <= |s| && s[i..i + |t|] == t
  }

  predicate Contains(s: string, t: string) {
    exists i :: 0 <= i <= |s| && OccursAt(s, t, i)
  }

  predicate PathIsCal(path: string) {
    Contains(path, "/rfnv/") || Contains(path, "/mcs/")
  }

  /** Calibration paths are those with /rfnv/ or /mcs/ somewhere in them. */
  lemma CalibrationPaths(path: string)
    ensures PathIsCal(path) <==> exists front, back :: path == front + "/rfnv/" + back || path == front + "/mcs/" + back
  {
    OccursMeans(path, "/rfnv/");
    OccursMeans(path, "/mcs/");
    if PathIsCal(path) {
      if Contains(path, "/rfnv/") {
        var front, back :| path == front + "/rfnv/" + back;
      } else {
        var front, back :| path == front + "/mcs/" + back;
      }
    }
  }

  lemma OccursMeans(s: string, t: string)
    ensures Contains(s, t) <==> exists front, back :: s == front + t + back
  {
    if Contains(s, t) {
      var i :| 0 <= i <= |s| && OccursAt(s, t, i);
      assert s == s[..i] + t + s[i + |t|..];
    }
    if exists front, back :: s == front + t + back {
      var front, back :| s == front + t + back;
      assert OccursAt(s, t, |front|);
    }
  }

  /** `sanitize_path` into a buffer of 1024 bytes: a name without a directory part. */
  function SafeName(path: string): (name: string)
    ensures 0 < |name| < 1024 && '/' !in name
  {
    if path == [] then "x" else Flat(path[..Min(|path|, 1023)])
  }

  function Flat(s: string): (r: string)
    ensures |r| == |s| && '/' !in r
    ensures forall i :: 0 <= i < |s| ==> r[i] == if s[i] == '/' then '_' else s[i]
  {
    if s == [] then [] else [if s[0] == '/' then '_' else s[0]] + Flat(s[1..])
  }

  function BackupName(path: string, stamp: string): string {
    SafeName(path) + ".bak." + stamp
  }

  /**
   `cmd_put`.  A zero result means the modem's file is the local file.  Once stat has reported a target, its old
   content is copied to the local disk before the target is opened with the write flags; but as a short local write
   goes unnoticed, that copy is the old content exactly if the disk has room for it.  The payload is read before the
   backup is made.  With flags that create and truncate, nothing but a failed request, an unreadable payload, a
   backup that cannot be created or a calibration path makes it return anything else.
   */
  method Put(modem: Modem, disk: LocalDisk, local: string, path: string, force: bool, oflag: nat, stamp: string,
             readable: bool)
    returns (rc: int, existed: bool)
    requires local in disk.files ==> |disk.files[local]| < 0x1_0000_0000
    modifies modem, disk
    ensures (rc == 0 || rc == 1) && (old(modem.Clean()) ==> modem.Clean())
    ensures PathIsCal(path) && !force ==>
              rc == 1 && !existed && modem.files == old(modem.files) && modem.opens == old(modem.opens)
    ensures rc == 0 ==>
              local in old(disk.files) && path in modem.files && modem.files[path] == old(disk.files)[local]
    ensures rc == 1 ==>
              || modem.faulty || !disk.writable || !readable || local !in old(disk.files) || (PathIsCal(path) && !force)
              || !HasFlag(oflag, O_CREAT) || !HasFlag(oflag, O_TRUNC)
    ensures existed ==> path in old(modem.files)
    ensures existed ==> path !in modem.silent
    ensures rc == 0 && !modem.faulty && path in old(modem.files) && path !in modem.silent ==> existed
    ensures !existed && rc == 0 ==> modem.opens == old(modem.opens) + [(path, oflag), (path, 0)]
    ensures existed ==>
              || (modem.opens == old(modem.opens) + [(path, 0)] && modem.files == old(modem.files) && rc == 1)
              || (old(modem.opens) + [(path, 0), (path, oflag)] <= modem.opens
                  && HoldsBackup(disk.files, BackupName(path, stamp), old(modem.files)[path],
                                 old(disk.RoomFor(BackupName(path, stamp)))))
    ensures forall p :: p != path ==> (p in modem.files <==> p in old(modem.files))
                                      && (p in modem.files ==> modem.files[p] == old(modem.files)[p])
    ensures HasFlag(oflag, O_TRUNC) ==>
              modem.files == old(modem.files)
              || (local in old(disk.files) && path in modem.files && modem.files[path] <= old(disk.files)[local])
    ensures !existed ==> disk.files == old(disk.files)
    ensures disk.files.Keys <= old(disk.files).Keys + {BackupName(path, stamp)}
    ensures forall p :: p in old(disk.files) && p != BackupName(path, stamp) ==>
                          p in disk.files && disk.files[p] == old(disk.files)[p]
  {
    existed := false;
    if PathIsCal(path) && !force {
      return 1, existed;
    }
    if !readable || local !in disk.files {
      return 1, existed;
    }
    var data := disk.files[local];
    var size := modem.Stat(path);
    if size.Some? {
      existed := true;
      var saved := CmdRead(modem, disk, path, BackupName(path, stamp));
      if saved != 0 {
        return 1, existed;
      }
    }
    var written := WriteFile(modem, path, data, oflag);
    if written != 0 {
      return 1, existed;
    }
    var r, back, len := ReadAll(modem, path);
    if r != 0 {
      return 1, existed;
    }
    return if back[..len] == data then 0 else 1, existed;
  }

  /** The backup has what fits of the old content, and is the old content exactly if all of it fits. */
  predicate HoldsBackup(files: map<string, Bytes>, name: string, content: Bytes, room: nat) {
    name in files && files[name] <= content && (files[name] == content <==> |content| <= room)
    && |files[name]| == Min(|content|, room)
  }

  /** A stat that is not answered looks like a missing file: the target is overwritten, and no backup was even tried. */
  method SilentStatLosesTarget() returns (modem: Modem, disk: LocalDisk, rc: int, existed: bool)
    ensures fresh(modem) && fresh(disk) && rc == 0 && !existed && !modem.faulty
    ensures modem.files == map["/a" := [9]] && disk.files == map["new" := [9]]
    ensures modem.opens == [("/a", 0x241), ("/a", 0)]
  {
    modem := new Modem(map["/a" := [1, 2, 3]], true, {"/a"});
    disk := new LocalDisk(map["new" := [9]], 1000, true);
    assert !PathIsCal("/a");
    assert HasFlag(0x241, O_CREAT) && HasFlag(0x241, O_TRUNC);
    rc, existed := Put(modem, disk, "new", "/a", false, 0x241, "0", true);
    assert modem.files.Keys == {"/a"};
  }

  /**
   A disk that is too full: everything works, `put` reports success, and the three bytes that were on the modem are
   nowhere any more.
   */
  method FullDiskLosesTarget() returns (modem: Modem, disk: LocalDisk, rc: int)
    ensures fresh(modem) && fresh(disk) && rc == 0 && !modem.faulty && modem.files == map["/a" := [9]]
    ensures forall p :: p in disk.files ==> disk.files[p] != [1, 2, 3]
  {
    modem := new Modem(map["/a" := [1, 2, 3]], true, {});
    disk := new LocalDisk(map["new" := [9]], 2, true);
    var existed;
    assert !PathIsCal("/a");
    assert HasFlag(0x241, O_CREAT) && HasFlag(0x241, O_TRUNC);
    rc, existed := Put(modem, disk, "new", "/a", false, 0x241, "0", true);
    assert |BackupName("/a", "0")| > 3;
    assert modem.files.Keys == {"/a"};
  }
}
