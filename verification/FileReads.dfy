/** read_call on the descriptors of two processes: the running one, and the one curr_pid
    names. They are the same process exactly while curr_pid is fresh. */
module FileReads {
  import opened Files
  import Descriptors

  /** The read can be carried out by read_data. */
  ghost predicate Readable(d: Disk, desc: Descriptors.Desc, n: int)
    requires DiskOk(d)
  {
    && desc.inode >= 0 && 0 <= desc.position < TWO32 && Addressed(d, desc.inode)
    && (desc.position < InodeAt(d, desc.inode).length ==> desc.position + n <= BLOCK * MAX_BLOCKS)
  }

  /** read_call on a file. `own` is the running process's table, `served` that of the process
      curr_pid names: inode and position come from the latter, the position that moves is the
      former's. */
  method ReadCall(fs: FileSystem, own: array<Descriptors.Desc>, served: array<Descriptors.Desc>, fd: int,
                  buf: array<Byte>, n: int)
    returns (r: int)
    requires DiskOk(fs.d) && own.Length == served.Length == Descriptors.FILES && n < 0x8000_0000 && n <= buf.Length
    requires 0 <= fd < Descriptors.FILES && n > 0 && own[fd].engaged ==>
      own[fd].kind.File? && Readable(fs.d, served[fd], n)
    modifies fs, buf, own
    ensures var valid := 0 <= fd < Descriptors.FILES && n > 0 && old(own[..])[fd].engaged;
      && (!valid ==> r == -1 && own[..] == old(own[..]) && buf[..] == old(buf[..]))
      && (valid ==>
            var desc := old(served[..])[fd];
            var node := InodeAt(fs.d, desc.inode);
            && own[..] == Descriptors.Apply(old(own[..]), Descriptors.Advance(fd, r))
            && own[fd] == old(own[..])[fd].(position := (old(own[..])[fd].position + r) % 0x1_0000_0000)
            && (forall i :: 0 <= i < 8 && i != fd ==> own[i] == old(own[..])[i])
            && fs.count == Counted(fs.d, desc.inode, old(fs.count))
            && (desc.position >= node.length ==> r == 0)
            && (desc.position < node.length && !Spans(fs.d, node, desc.position, n) ==> r == -1)
            && (desc.position < node.length && Spans(fs.d, node, desc.position, n) ==>
                  Holds(fs.d, node, desc.position, buf[..n]) && r == Returned(node.length, fs.special, fs.count, n)))
    ensures own != served ==> served[..] == old(served[..])
  {
    if fd < 0 || fd >= 8 || n <= 0 {
      return -1;
    }
    if !own[fd].engaged {
      return -1;
    }
    ghost var before := own[..];
    var desc := served[fd];
    r := fs.ReadData(desc.inode, desc.position, buf, n);
    own[fd] := own[fd].(position := (own[fd].position + r) % 0x1_0000_0000);
    assert own[..] == Descriptors.Apply(before, Descriptors.Advance(fd, r));
  }

  /** A program's open and first read of a file, while curr_pid is fresh: the bytes are those
      the file starts with, and the descriptor stands behind them. */
  method OpenAndRead(fs: FileSystem, process: Descriptors.ProcessFiles, inode: nat, buf: array<Byte>, n: int)
    returns (fd: int, r: int)
    requires DiskOk(fs.d) && process.table.Length == 8 && Addressed(fs.d, inode)
    requires 0 < n <= buf.Length && n <= BLOCK * MAX_BLOCKS
    requires Backed(fs.d, InodeAt(fs.d, inode), n)
    modifies fs, process.table, buf
    ensures fd == -1 <==> forall i :: 2 <= i < 8 ==> old(process.table[..])[i].engaged
    ensures fd != -1 && InodeAt(fs.d, inode).length > 0 ==> buf[..n] == Bytes(fs.d, InodeAt(fs.d, inode), n)
    ensures fd != -1 && inode != fs.d.large ==>
      && r == (if n <= InodeAt(fs.d, inode).length then n else InodeAt(fs.d, inode).length)
      && 0 <= fd < 8 && process.table[fd] == Descriptors.Desc(Descriptors.File, inode, r, true)
  {
    r := 0;
    fd := process.OpenCall(Descriptors.File, inode);
    if fd != -1 {
      r := ReadCall(fs, process.table, process.table, fd, buf, n);
      if InodeAt(fs.d, inode).length > 0 {
        GatheredIsSlice(fs.d, InodeAt(fs.d, inode), 0, buf[..n], n);
      }
    }
  }
}
