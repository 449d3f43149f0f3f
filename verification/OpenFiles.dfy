/** open and read together: what a program reads from a file it has opened by name. */
module OpenFiles {
  import opened Common
  import opened Bytes
  import opened FileSystem
  import opened Machine
  import Runs

  lemma OpenedReadable(img: Image, fds: seq<FileDesc>, entry: Dentry)
    requires |fds| == FD_N && Readable(img, fds) && OpenResult(fds, Some(entry)) != -1
    requires entry.fileType == FILE_TYPE_FILE && entry.inodeNum < |img.inodes|
    ensures Readable(img, OpenFds(fds, Some(entry)))
  {
    Runs.OpenIsLeast(fds, Some(entry));
  }

  lemma WindowFromStart<T>(s: seq<T>, n: nat)
    ensures Window(s, 0, n) == s[..if n < |s| then n else |s|]
  {
  }

  /**
    A successful open of a regular file by name, and then any reads on any descriptors: the bytes returned
    on the new one are the beginning of the file of the first entry of that name, as many as were asked
    for or as there are.
  */
  lemma OpenThenRead(img: Image, fds: seq<FileDesc>, name: seq<Byte>, qs: seq<Request>) returns (fd: nat, i: nat)
    requires |fds| == FD_N && Readable(img, fds) && OpenResult(fds, Lookup(img, name)) != -1
    requires Lookup(img, name).value.fileType == FILE_TYPE_FILE && Lookup(img, name).value.inodeNum < |img.inodes|
    requires forall k :: 0 <= k < |qs| ==> qs[k].fd < FD_N
    ensures fd == OpenResult(fds, Lookup(img, name)) && 2 <= fd < FD_N && !fds[fd].inUse
    ensures IsFirst(img, name, i) && img.dentries[i].inodeNum < |img.inodes|
    ensures Readable(img, OpenFds(fds, Lookup(img, name)))
    ensures var file, n := Flat(img, img.dentries[i].inodeNum), Asked(qs, fd);
      Delivered(img, OpenFds(fds, Lookup(img, name)), qs, fd) == file[..if n < |file| then n else |file|]
  {
    var entry := Lookup(img, name);
    LookupExactly(img, name);
    i :| IsFirst(img, name, i) && entry == Some(img.dentries[i]);
    Runs.OpenIsLeast(fds, entry);
    OpenedReadable(img, fds, entry.value);
    fd := OpenResult(fds, entry);
    ReadsAreConsecutive(img, OpenFds(fds, entry), qs, fd);
    WindowFromStart(Flat(img, img.dentries[i].inodeNum), Asked(qs, fd));
  }
}
