/**
  The read-only block file system (filesystem.c). The image is a value, since nothing writes it;
  what changes is the directory cursor and the descriptors' positions.
*/
module FileSystem {
  import opened Common
  import opened Bytes

  const FILENAME_LEN := 32
  const BLOCK_SIZE_IN_BYTES := 4096
  const NUM_DENTRY_IN_BOOT := 63
  const BLOCKS_IN_INODE := 1024

  datatype Dentry = Dentry(fileName: seq<Byte>, fileType: nat, inodeNum: nat)

  datatype Inode = Inode(length: nat, blocks: seq<nat>)

  datatype Image = Image(dentries: seq<Dentry>, inodes: seq<Inode>, data: seq<seq<Byte>>)

  datatype FileDesc = FileDesc(kind: nat, inode: nat, pos: nat, inUse: bool)

  // ---- what an image means ----

  function UsedBlocks(n: Inode): nat {
    (n.length + (BLOCK_SIZE_IN_BYTES - 1)) / BLOCK_SIZE_IN_BYTES
  }

  predicate WellFormedInode(img: Image, n: Inode) {
    && UsedBlocks(n) <= |n.blocks| < BLOCKS_IN_INODE
    && forall i :: 0 <= i < UsedBlocks(n) ==> n.blocks[i] < |img.data|
  }

  predicate WellFormed(img: Image) {
    && |img.dentries| <= NUM_DENTRY_IN_BOOT
    && (forall i :: 0 <= i < |img.dentries| ==>
          |img.dentries[i].fileName| == FILENAME_LEN && img.dentries[i].fileType <= 2)
    && (forall i :: 0 <= i < |img.inodes| ==> WellFormedInode(img, img.inodes[i]))
    && forall b :: 0 <= b < |img.data| ==> |img.data[b]| == BLOCK_SIZE_IN_BYTES
  }

  /** The bytes of the blocks listed, one block after the other. */
  function Blocks(data: seq<seq<Byte>>, nums: seq<nat>): (r: seq<Byte>)
    requires forall i :: 0 <= i < |nums| ==> nums[i] < |data|
    requires forall b :: 0 <= b < |data| ==> |data[b]| == BLOCK_SIZE_IN_BYTES
    ensures |r| == |nums| * BLOCK_SIZE_IN_BYTES
  {
    if nums == [] then [] else data[nums[0]] + Blocks(data, nums[1..])
  }

  /** The flat file an inode describes. */
  function Flat(img: Image, inode: nat): (r: seq<Byte>)
    requires WellFormed(img) && inode < |img.inodes|
    ensures |r| == img.inodes[inode].length
  {
    var n := img.inodes[inode];
    Blocks(img.data, n.blocks[..UsedBlocks(n)])[..n.length]
  }

  /** The part of s from `from` on that a read of `count` bytes can see. */
  function Window<T>(s: seq<T>, from: nat, count: nat): (r: seq<T>)
    ensures |r| == if from >= |s| then 0 else if from + count <= |s| then count else |s| - from
  {
    if from >= |s| then [] else if from + count <= |s| then s[from..from + count] else s[from..]
  }

  /** Byte i of the concatenated blocks is byte i % 4096 of block number i / 4096. */
  lemma {:induction false} BlockByte(data: seq<seq<Byte>>, nums: seq<nat>, i: nat)
    requires forall k :: 0 <= k < |nums| ==> nums[k] < |data|
    requires forall b :: 0 <= b < |data| ==> |data[b]| == BLOCK_SIZE_IN_BYTES
    requires i < |nums| * BLOCK_SIZE_IN_BYTES
    ensures i / BLOCK_SIZE_IN_BYTES < |nums|
    ensures Blocks(data, nums)[i] == data[nums[i / BLOCK_SIZE_IN_BYTES]][i % BLOCK_SIZE_IN_BYTES]
  {
    if i >= BLOCK_SIZE_IN_BYTES {
      BlockByte(data, nums[1..], i - BLOCK_SIZE_IN_BYTES);
      assert (i - BLOCK_SIZE_IN_BYTES) / BLOCK_SIZE_IN_BYTES == i / BLOCK_SIZE_IN_BYTES - 1;
    }
  }

  // ---- reading files ----

  /** What a read of `count` bytes at `offset` of inode `inode` copies; None is the -1 of a bad inode. */
  function DataAt(img: Image, inode: nat, offset: nat, count: nat): Option<seq<Byte>>
    requires WellFormed(img)
  {
    if inode >= |img.inodes| then None else Some(Window(Flat(img, inode), offset, count))
  }

  lemma FlatByte(img: Image, inode: nat, i: nat)
    requires WellFormed(img) && inode < |img.inodes| && i < img.inodes[inode].length
    ensures var n, k := img.inodes[inode], i / BLOCK_SIZE_IN_BYTES;
      && k < |n.blocks| && n.blocks[k] < |img.data| && |img.data[n.blocks[k]]| == BLOCK_SIZE_IN_BYTES
      && Flat(img, inode)[i] == img.data[n.blocks[k]][i % BLOCK_SIZE_IN_BYTES]
  {
    var n := img.inodes[inode];
    assert WellFormedInode(img, n);
    BlockByte(img.data, n.blocks[..UsedBlocks(n)], i);
  }

  lemma DataIs(img: Image, inode: nat, offset: nat, count: nat) returns (bytes: seq<Byte>)
    requires WellFormed(img) && inode < |img.inodes|
    ensures DataAt(img, inode, offset, count) == Some(bytes)
    ensures var left := img.inodes[inode].length - offset;
      |bytes| == if left <= 0 then 0 else if left < count then left else count
    ensures forall k :: 0 <= k < |bytes| ==> bytes[k] == Flat(img, inode)[offset + k]
  {
    bytes := Window(Flat(img, inode), offset, count);
  }

  /** The byte loop of read_data. */
  method CopyBlocks(img: Image, inode: nat, offset: nat, buf: array<Byte>, at: nat, n: nat)
    requires WellFormed(img) && inode < |img.inodes| && offset + n <= img.inodes[inode].length && at + n <= buf.Length
    modifies buf
    ensures forall k :: at <= k < at + n ==> buf[k] == Flat(img, inode)[offset + (k - at)]
    ensures forall k :: 0 <= k < at || at + n <= k < buf.Length ==> buf[k] == old(buf[k])
  {
    ghost var file := Flat(img, inode);
    for r := 0 to n
      invariant forall k :: at <= k < at + r ==> buf[k] == file[offset + (k - at)]
      invariant forall k :: 0 <= k < at || at + r <= k < buf.Length ==> buf[k] == old(buf[k])
    {
      FlatByte(img, inode, offset + r);
      var index := (offset + r) / BLOCK_SIZE_IN_BYTES;
      var block := img.data[img.inodes[inode].blocks[index]];
      buf[at + r] := block[(offset + r) % BLOCK_SIZE_IN_BYTES];
    }
  }

  lemma Placed(was: seq<Byte>, now: seq<Byte>, at: nat, bytes: seq<Byte>)
    requires |was| == |now| && at + |bytes| <= |was|
    requires forall k :: at <= k < at + |bytes| ==> now[k] == bytes[k - at]
    requires forall k :: 0 <= k < at || at + |bytes| <= k < |was| ==> now[k] == was[k]
    ensures now == was[..at] + bytes + was[at + |bytes|..]
  {
  }

  method ReadData(img: Image, inode: nat, offset: nat, buf: array<Byte>, at: nat, length: nat) returns (r: int)
    requires WellFormed(img) && at + length <= buf.Length
    modifies buf
    ensures DataAt(img, inode, offset, length).None? ==> r == -1 && buf[..] == old(buf[..])
    ensures DataAt(img, inode, offset, length).Some? ==>
      var bytes := DataAt(img, inode, offset, length).value;
      r == |bytes| && buf[..] == old(buf[..at]) + bytes + old(buf[at + |bytes|..])
  {
    if inode >= |img.inodes| {
      return -1;
    }
    ghost var bytes := DataIs(img, inode, offset, length);
    var n := img.inodes[inode];
    if offset >= n.length {
      Placed(old(buf[..]), buf[..], at, bytes);
      return 0;
    }
    var copyLength := if n.length - offset < length then n.length - offset else length;
    CopyBlocks(img, inode, offset, buf, at, copyLength);
    Placed(old(buf[..]), buf[..], at, bytes);
    return copyLength;
  }

  /** The descriptor after a read that copied r bytes (or failed, r == -1): the position is a 32-bit word. */
  function Advance(d: FileDesc, r: int): FileDesc {
    d.(pos := (d.pos + r) % UINT32)
  }

  method FileRead(img: Image, fds: array<FileDesc>, fd: nat, buf: array<Byte>, at: nat, nbytes: nat) returns (r: int)
    requires WellFormed(img) && fd < fds.Length && at + nbytes <= buf.Length
    modifies fds, buf
    ensures fds[..] == old(fds[..])[fd := Advance(old(fds[fd]), r)]
    ensures fds[fd] == old(fds[fd]).(pos := (old(fds[fd]).pos + r) % UINT32)
    ensures DataAt(img, old(fds[fd]).inode, old(fds[fd]).pos, nbytes).None? ==> r == -1 && buf[..] == old(buf[..])
    ensures DataAt(img, old(fds[fd]).inode, old(fds[fd]).pos, nbytes).Some? ==>
      var bytes := DataAt(img, old(fds[fd]).inode, old(fds[fd]).pos, nbytes).value;
      r == |bytes| && buf[..] == old(buf[..at]) + bytes + old(buf[at + |bytes|..])
  {
    var d := fds[fd];
    r := ReadData(img, d.inode, d.pos, buf, at, nbytes);
    fds[fd] := fds[fd].(pos := (fds[fd].pos + r) % UINT32);
  }

  // ---- a run of reads on several descriptors ----

  datatype Request = Request(fd: nat, count: nat)

  predicate Readable(img: Image, fds: seq<FileDesc>) {
    && WellFormed(img)
    && forall f :: 0 <= f < |fds| ==> fds[f].inode < |img.inodes| && fds[f].pos <= img.inodes[fds[f].inode].length
  }

  /** The bytes one request returns. */
  function Returned(img: Image, fds: seq<FileDesc>, q: Request): seq<Byte>
    requires Readable(img, fds) && q.fd < |fds|
  {
    DataAt(img, fds[q.fd].inode, fds[q.fd].pos, q.count).value
  }

  lemma LengthFits(img: Image, inode: nat)
    requires WellFormed(img) && inode < |img.inodes|
    ensures img.inodes[inode].length < UINT32
  {
    assert WellFormedInode(img, img.inodes[inode]);
  }

  /** The descriptors after one request. */
  function AfterRead(img: Image, fds: seq<FileDesc>, q: Request): (r: seq<FileDesc>)
    requires Readable(img, fds) && q.fd < |fds|
    ensures |r| == |fds| && Readable(img, r)
    ensures r[q.fd].pos == fds[q.fd].pos + |Returned(img, fds, q)|
  {
    LengthFits(img, fds[q.fd].inode);
    fds[q.fd := Advance(fds[q.fd], |Returned(img, fds, q)|)]
  }

  /** All the bytes a run of requests returns on descriptor f. */
  function Delivered(img: Image, fds: seq<FileDesc>, qs: seq<Request>, f: nat): seq<Byte>
    requires Readable(img, fds) && forall i :: 0 <= i < |qs| ==> qs[i].fd < |fds|
    decreases |qs|
  {
    if qs == [] then [] else
      var rest := Delivered(img, AfterRead(img, fds, qs[0]), qs[1..], f);
      if qs[0].fd == f then Returned(img, fds, qs[0]) + rest else rest
  }

  /** How many bytes a run of requests asks for on descriptor f. */
  function Asked(qs: seq<Request>, f: nat): nat {
    if qs == [] then 0 else (if qs[0].fd == f then qs[0].count else 0) + Asked(qs[1..], f)
  }

  lemma WindowSplit<T>(s: seq<T>, from: nat, a: nat, b: nat)
    requires from <= |s|
    ensures Window(s, from, a) + Window(s, from + |Window(s, from, a)|, b) == Window(s, from, a + b)
  {
  }

  lemma ReadFirst(img: Image, fds: seq<FileDesc>, q: Request, f: nat, later: seq<Byte>, asked: nat)
    requires Readable(img, fds) && q.fd < |fds| && f < |fds|
    requires var next := AfterRead(img, fds, q)[f]; later == Window(Flat(img, fds[f].inode), next.pos, asked)
    ensures var file, pos := Flat(img, fds[f].inode), fds[f].pos;
      if q.fd == f then Returned(img, fds, q) + later == Window(file, pos, q.count + asked)
        else later == Window(file, pos, asked)
  {
    WindowSplit(Flat(img, fds[f].inode), fds[f].pos, q.count, asked);
  }

  /**
    However the reads of several descriptors interleave and whatever their sizes, the bytes returned
    on f, put together, are the next stretch of f's file and nothing else: as many as were asked for,
    up to the end of the file, after which every read returns nothing.
  */
  lemma {:induction false} ReadsAreConsecutive(img: Image, fds: seq<FileDesc>, qs: seq<Request>, f: nat)
    requires Readable(img, fds) && f < |fds|
    requires forall i :: 0 <= i < |qs| ==> qs[i].fd < |fds|
    ensures Delivered(img, fds, qs, f) == Window(Flat(img, fds[f].inode), fds[f].pos, Asked(qs, f))
    decreases |qs|
  {
    if qs != [] {
      var next, rest := AfterRead(img, fds, qs[0]), qs[1..];
      assert forall i :: 0 <= i < |rest| ==> rest[i] == qs[i + 1];
      ReadsAreConsecutive(img, next, rest, f);
      ReadFirst(img, fds, qs[0], f, Delivered(img, next, rest, f), Asked(rest, f));
    }
  }

  // ---- names ----

  function EntryName(img: Image, i: nat): seq<Byte>
    requires i < |img.dentries|
  {
    CString(img.dentries[i].fileName)
  }

  /** The index of the first entry, from i on, that is called fname. */
  function FirstNamed(img: Image, fname: seq<Byte>, i: nat): (r: Option<nat>)
    requires i <= |img.dentries|
    ensures r.Some? ==> i <= r.value < |img.dentries| && EntryName(img, r.value) == fname
    ensures r.Some? ==> forall k :: i <= k < r.value ==> EntryName(img, k) != fname
    ensures r.None? ==> forall k :: i <= k < |img.dentries| ==> EntryName(img, k) != fname
    decreases |img.dentries| - i
  {
    if i == |img.dentries| then None
    else if EntryName(img, i) == fname then Some(i)
    else FirstNamed(img, fname, i + 1)
  }

  /** The entry a name stands for; the empty name stands for none. */
  function Lookup(img: Image, fname: seq<Byte>): Option<Dentry> {
    if fname == [] then None
    else match FirstNamed(img, fname, 0)
      case None => None
      case Some(i) => Some(img.dentries[i])
  }

  /** Entry i is called fname and no earlier entry is. */
  predicate IsFirst(img: Image, fname: seq<Byte>, i: nat) {
    i < |img.dentries| && EntryName(img, i) == fname && forall j :: 0 <= j < i ==> EntryName(img, j) != fname
  }

  /** Lookup fails for the empty name and for names no entry has, and else finds the first entry of the name. */
  lemma LookupExactly(img: Image, fname: seq<Byte>)
    ensures Lookup(img, fname).None?
       <==> fname == [] || forall i :: 0 <= i < |img.dentries| ==> EntryName(img, i) != fname
    ensures Lookup(img, fname).Some? ==>
      exists i: nat :: IsFirst(img, fname, i) && Lookup(img, fname) == Some(img.dentries[i])
  {
    var found := FirstNamed(img, fname, 0);
    if fname != [] && found.Some? { assert IsFirst(img, fname, found.value); }
  }

  /** The memory of a directory entry from its name on: strlen runs into the file type of a full name. */
  function EntryMemory(d: Dentry): seq<Byte>
    requires d.fileType <= 2
  {
    d.fileName + [d.fileType, 0, 0, 0]
  }

  method StrLen(memory: seq<Byte>) returns (len: nat)
    requires NUL in memory
    ensures len == |CString(memory)|
  {
    ghost var end :| 0 <= end < |memory| && memory[end] == NUL;
    len := 0;
    while memory[len] != NUL
      invariant len <= end && NulFree(memory[..len])
      decreases end - len
    {
      len := len + 1;
    }
    CStringIs(memory, len);
  }

  /** strncpy of the n leading characters of a string at least that long. */
  method StrNCpy(dest: array<Byte>, src: seq<Byte>, n: nat)
    requires n <= |src| && NulFree(src[..n]) && n <= dest.Length
    modifies dest
    ensures dest[..] == src[..n] + old(dest[n..])
  {
    for i := 0 to n
      invariant dest[..i] == src[..i]
      invariant dest[i..] == old(dest[i..])
    {
      dest[i] := src[i];
      assert dest[..i + 1] == dest[..i] + [src[i]];
    }
    assert dest[..] == dest[..n] + dest[n..];
  }

  /** strncmp(s1, s2, n) == 0, s1 being the C string with content s1. */
  method SameStart(s1: seq<Byte>, s2: seq<Byte>, n: nat) returns (same: bool)
    requires NulFree(s1) && n <= |s1| && n <= |s2|
    ensures same <==> s1[..n] == s2[..n]
  {
    for i := 0 to n
      invariant s1[..i] == s2[..i]
    {
      if s1[i] != s2[i] || s1[i] == NUL {
        assert s1[..n][i] != s2[..n][i];
        return false;
      }
    }
    return true;
  }

  /** strlen of an entry's name is the name's length, or more than 32 for some names that fill the field. */
  lemma MemoryName(d: Dentry)
    requires |d.fileName| == FILENAME_LEN && d.fileType <= 2
    ensures var len := |CString(EntryMemory(d))|;
      if |CString(d.fileName)| < FILENAME_LEN then len == |CString(d.fileName)| else len >= FILENAME_LEN
  {
    var m := EntryMemory(d);
    var stored := CString(d.fileName);
    var end := if |stored| < FILENAME_LEN then |stored| else if d.fileType == 0 then 32 else 33;
    assert forall i :: 0 <= i < |stored| ==> m[i] == stored[i];
    CStringIs(m, end);
  }

  /** The test of read_dentry_by_name is name equality, also for names that fill all 32 bytes. */
  lemma NameTest(d: Dentry, fname: seq<Byte>, storedLength: nat)
    requires |d.fileName| == FILENAME_LEN && d.fileType <= 2
    requires storedLength == |CString(EntryMemory(d))|
    requires NulFree(fname) && 0 < |fname| <= FILENAME_LEN
    ensures d.fileName[..|fname|] == fname && (|fname| == storedLength || |fname| == FILENAME_LEN)
         <==> CString(d.fileName) == fname
  {
    MemoryName(d);
  }

  method ReadDentryByName(img: Image, fname: seq<Byte>) returns (r: int, dentry: Option<Dentry>)
    requires WellFormed(img) && NulFree(fname)
    ensures dentry == Lookup(img, fname) && r == if dentry.Some? then 0 else -1
    ensures r == -1 <==> fname == [] || forall i :: 0 <= i < |img.dentries| ==> EntryName(img, i) != fname
    ensures r != -1 ==> r == 0 && exists i: nat :: IsFirst(img, fname, i) && dentry == Some(img.dentries[i])
  {
    LookupExactly(img, fname);
    var fnameLength := |fname|;
    if fnameLength <= 0 || fnameLength > FILENAME_LEN {
      return -1, None;
    }
    for i := 0 to |img.dentries|
      invariant FirstNamed(img, fname, 0) == FirstNamed(img, fname, i)
    {
      var cur := img.dentries[i];
      assert EntryMemory(cur)[FILENAME_LEN + 1] == NUL;
      var curLength := StrLen(EntryMemory(cur));
      var same := SameStart(fname, cur.fileName, fnameLength);
      NameTest(cur, fname, curLength);
      if same && (fnameLength == curLength || fnameLength == FILENAME_LEN) {
        return 0, Some(cur);
      }
    }
    return -1, None;
  }

  // ---- listing ----

  /** What one read of the directory puts into a buffer of n bytes, the cursor standing at entry i. */
  function Listed(img: Image, i: nat, n: nat): seq<Byte> {
    if i >= |img.dentries| then [] else Window(EntryName(img, i), 0, n)
  }

  function Cursor(img: Image, i: nat): nat {
    if i >= |img.dentries| then i else i + 1
  }

  /** strlen of an entry's name, but no more than the field holds. */
  method NameLength(d: Dentry) returns (len: nat)
    requires |d.fileName| == FILENAME_LEN && d.fileType <= 2
    ensures len == |CString(d.fileName)|
  {
    assert EntryMemory(d)[FILENAME_LEN + 1] == NUL;
    len := StrLen(EntryMemory(d));
    MemoryName(d);
    len := if len < FILENAME_LEN then len else FILENAME_LEN;
  }

  lemma ListedPart(img: Image, i: nat, n: nat, len: nat)
    requires WellFormed(img) && i < |img.dentries|
    requires len == if |EntryName(img, i)| < n then |EntryName(img, i)| else n
    ensures len <= FILENAME_LEN && img.dentries[i].fileName[..len] == Listed(img, i, n)
    ensures |Listed(img, i, n)| == len && NulFree(img.dentries[i].fileName[..len])
  {
    var name := EntryName(img, i);
    assert name[..len] == img.dentries[i].fileName[..len];
  }

  class Directory {
    const img: Image
    var dirIndex: nat

    constructor (img: Image)
      ensures this.img == img && dirIndex == 0
    {
      this.img := img;
      dirIndex := 0;
    }

    /** dir_open: every descriptor shares the one cursor. */
    method Open()
      modifies this
      ensures dirIndex == 0
    {
      dirIndex := 0;
    }

    method Read(buf: array<Byte>, nbytes: nat) returns (r: int)
      requires WellFormed(img) && nbytes <= buf.Length
      modifies this, buf
      ensures r == |Listed(img, old(dirIndex), nbytes)|
      ensures buf[..] == Listed(img, old(dirIndex), nbytes) + old(buf[r..])
      ensures dirIndex == Cursor(img, old(dirIndex))
    {
      if dirIndex >= |img.dentries| {
        assert buf[..] == [] + old(buf[..]);
        return 0;
      }
      var cur := img.dentries[dirIndex];
      var curLength := NameLength(cur);
      curLength := if curLength < nbytes then curLength else nbytes;
      ListedPart(img, dirIndex, nbytes, curLength);
      StrNCpy(buf, cur.fileName, curLength);
      dirIndex := dirIndex + 1;
      return curLength;
    }
  }

  /** The results of successive reads of sizes ns, the cursor standing at entry i. */
  function Listing(img: Image, i: nat, ns: seq<nat>): seq<seq<Byte>>
    decreases |ns|
  {
    if ns == [] then [] else [Listed(img, i, ns[0])] + Listing(img, Cursor(img, i), ns[1..])
  }

  lemma ListedWhole(img: Image, i: nat, n: nat)
    requires WellFormed(img) && n >= FILENAME_LEN
    ensures Listed(img, i, n) == if i < |img.dentries| then EntryName(img, i) else []
  {
  }

  lemma {:induction false} ListingAt(img: Image, i: nat, ns: seq<nat>, k: nat)
    requires k < |ns|
    ensures |Listing(img, i, ns)| == |ns| && Listing(img, i, ns)[k] == Listed(img, i + k, ns[k])
    decreases |ns|
  {
    var rest := ns[1..];
    if rest != [] { ListingAt(img, Cursor(img, i), rest, if k == 0 then 0 else k - 1); }
  }

  /** Successive reads of at least 32 bytes give every entry's name, once and in order, then nothing. */
  lemma ListingNames(img: Image, i: nat, ns: seq<nat>, k: nat)
    requires WellFormed(img) && k < |ns|
    requires forall j :: 0 <= j < |ns| ==> ns[j] >= FILENAME_LEN
    ensures |Listing(img, i, ns)| == |ns|
    ensures Listing(img, i, ns)[k] == if i + k < |img.dentries| then EntryName(img, i + k) else []
  {
    ListingAt(img, i, ns, k);
    ListedWhole(img, i + k, ns[k]);
  }

  lemma NamedEntryIsFound(img: Image, k: nat) returns (i: nat)
    requires WellFormed(img) && k < |img.dentries| && EntryName(img, k) != []
    ensures i <= k && IsFirst(img, EntryName(img, k), i) && Lookup(img, EntryName(img, k)) == Some(img.dentries[i])
  {
    i := FirstNamed(img, EntryName(img, k), 0).value;
  }

  /**
    Listing and lookup are inverse: looking up what the k-th read listed finds entry i, which has
    exactly that name, is the first of that name, and stands no later than entry k.
  */
  lemma ListedNamesResolve(img: Image, ns: seq<nat>, k: nat) returns (i: nat)
    requires WellFormed(img) && k < |ns| && k < |img.dentries|
    requires forall j :: 0 <= j < |ns| ==> ns[j] >= FILENAME_LEN
    requires EntryName(img, k) != []
    ensures |Listing(img, 0, ns)| == |ns|
    ensures i <= k && IsFirst(img, Listing(img, 0, ns)[k], i)
    ensures Lookup(img, Listing(img, 0, ns)[k]) == Some(img.dentries[i])
  {
    ListingNames(img, 0, ns, k);
    i := NamedEntryIsFound(img, k);
  }
}
