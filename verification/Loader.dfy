/** How execute_call reads a file: what its blocks make of it as a program, what ends up in
    user memory, and what that does to the process tree. */
module Loader {
  import opened Files
  import opened Processes
  import opened Kernel

  const MAGIC: seq<Byte> := [0x7F, 0x45, 0x4C, 0x46]

  /** What the four-byte buffer holds after the first read; an empty file leaves it as it was. */
  function Header(d: Disk, inode: nat, stale: seq<Byte>): seq<Byte>
    requires DiskOk(d) && Addressed(d, inode)
    requires InodeAt(d, inode).length > 0 ==> Spans(d, InodeAt(d, inode), 0, 4)
  {
    var node := InodeAt(d, inode);
    if node.length == 0 then stale
    else [ByteAt(d, node, 0), ByteAt(d, node, 1), ByteAt(d, node, 2), ByteAt(d, node, 3)]
  }

  predicate HasMagic(d: Disk, inode: nat, stale: seq<Byte>)
    requires DiskOk(d)
  {
    && Addressed(d, inode)
    && (InodeAt(d, inode).length > 0 ==> Spans(d, InodeAt(d, inode), 0, 4))
    && Header(d, inode, stale) == MAGIC
  }

  /** Every block of the file exists. */
  predicate Whole(d: Disk, inode: nat)
    requires DiskOk(d) && Addressed(d, inode)
  {
    Spans(d, InodeAt(d, inode), 0, InodeAt(d, inode).length)
  }

  function Classify(d: Disk, inode: nat, stale: seq<Byte>): Image
    requires DiskOk(d)
  {
    if !HasMagic(d, inode, stale) then NotProgram
    else if Whole(d, inode) then Program
    else Unloadable
  }

  /** A file that is not empty is a program exactly when its first four bytes are there and
      are 7F 45 4C 46 and all its blocks exist; with that header and a missing block it is
      one that cannot be loaded; anything else is no program. */
  lemma ProgramIff(d: Disk, inode: nat, stale: seq<Byte>)
    requires DiskOk(d) && Addressed(d, inode) && InodeAt(d, inode).length > 0
    ensures var node := InodeAt(d, inode);
      var elf := Spans(d, node, 0, 4) && ByteAt(d, node, 0) == 0x7F && ByteAt(d, node, 1) == 0x45
                 && ByteAt(d, node, 2) == 0x4C && ByteAt(d, node, 3) == 0x46;
      Classify(d, inode, stale) ==
      if elf && Spans(d, node, 0, node.length) then Program
      else if elf then Unloadable
      else NotProgram
  {
  }

  /** An empty file is taken for a program exactly when the buffer happened to hold the
      magic; an inode number beyond the count never is. */
  lemma EmptyFileIff(d: Disk, inode: nat, stale: seq<Byte>)
    requires DiskOk(d)
    ensures Addressed(d, inode) && InodeAt(d, inode).length == 0 ==>
      Classify(d, inode, stale) == if stale == [0x7F, 0x45, 0x4C, 0x46] then Program else NotProgram
    ensures !Addressed(d, inode) ==> Classify(d, inode, stale) == NotProgram
  {
  }

  /** The file part of execute_call: the header is checked, then the image is read. The
      image in memory is the whole file. The special file, whose reads report other
      lengths, is known not to be a program. */
  method LoadImage(fs: FileSystem, inode: nat, buf: array<Byte>, memory: array<Byte>) returns (image: Image)
    requires DiskOk(fs.d) && (inode == |fs.d.inodes| ==> 0 < fs.d.blockCount)
    requires buf.Length == 4 && buf != memory
    requires Addressed(fs.d, inode) ==>
      InodeAt(fs.d, inode).length <= BLOCK * MAX_BLOCKS && InodeAt(fs.d, inode).length <= memory.Length
    requires inode == fs.d.large ==> !HasMagic(fs.d, inode, buf[..])
    modifies fs, buf, memory
    ensures image == Classify(fs.d, inode, old(buf[..]))
    ensures Addressed(fs.d, inode) && InodeAt(fs.d, inode).length > 0 ==>
      var d, node := fs.d, InodeAt(fs.d, inode);
      var elf := Spans(d, node, 0, 4) && ByteAt(d, node, 0) == 0x7F && ByteAt(d, node, 1) == 0x45
                 && ByteAt(d, node, 2) == 0x4C && ByteAt(d, node, 3) == 0x46;
      && (image.Program? <==> elf && Spans(d, node, 0, node.length))
      && (image.Unloadable? <==> elf && !Spans(d, node, 0, node.length))
      && (image.NotProgram? <==> !elf)
    ensures Addressed(fs.d, inode) && InodeAt(fs.d, inode).length == 0 ==>
      image == if old(buf[..]) == [0x7F, 0x45, 0x4C, 0x46] then Program else NotProgram
    ensures !Addressed(fs.d, inode) ==> image.NotProgram?
    ensures image.Program? ==>
      var node := InodeAt(fs.d, inode);
      Backed(fs.d, node, node.length) && memory[..node.length] == Bytes(fs.d, node, node.length)
    ensures image.NotProgram? ==> memory[..] == old(memory[..])
  {
    ghost var stale := buf[..];
    EmptyFileIff(fs.d, inode, stale);
    if Addressed(fs.d, inode) && InodeAt(fs.d, inode).length > 0 {
      ProgramIff(fs.d, inode, stale);
    }
    var valid := fs.ReadData(inode, 0, buf, 4);
    if valid == -1 {
      return NotProgram;
    }
    assert buf[..] == Header(fs.d, inode, stale);
    if buf[0] != 0x7F || buf[1] != 0x45 || buf[2] != 0x4C || buf[3] != 0x46 {
      assert buf[..] != MAGIC;
      return NotProgram;
    }
    assert buf[..] == MAGIC;
    var length := InodeAt(fs.d, inode).length;
    valid := fs.ReadData(inode, 0, memory, length);
    if valid == -1 {
      return Unloadable;
    }
    GatheredIsSlice(fs.d, InodeAt(fs.d, inode), 0, memory[..length], length);
    return Program;
  }

  /** Executing a file from a running process leaves data that stand for three stacks of
      processes exactly when the file is no program, all its blocks exist, or there was no
      pid to take. */
  lemma ExecutedFileIff(k: Data, s: System, c: Ctx, d: Disk, inode: nat, stale: seq<Byte>)
    requires Agrees(k, s) && Stack(s, s.active) != [] && DiskOk(d)
    ensures Ready(k)
    ensures (exists s' :: Agrees(ExecData(k, Classify(d, inode, stale), c), s')) <==>
            !HasMagic(d, inode, stale) || Whole(d, inode) || FreePid(s) == PROCESSES
  {
    var image := Classify(d, inode, stale);
    if image.Unloadable? {
      UnloadableImageIff(k, s, c);
    } else {
      ExecAgrees(k, s, image, c);
    }
  }

  /** A file of 5000 bytes whose first block is there, with the magic, and whose second is
      not: what ExecutedFileIff has fail when a pid is free. */
  lemma MissingBlockExample(stale: seq<Byte>)
    ensures var node := Inode(5000, [0, 7] + seq(MAX_BLOCKS - 2, _ => 0));
      var d := Disk([Inode(0, seq(MAX_BLOCKS, _ => 0)), node], MAGIC + seq(BLOCK - 4, _ => 0), 1, 0);
      DiskOk(d) && HasMagic(d, 1, stale) && !Whole(d, 1) && Classify(d, 1, stale).Unloadable?
  {
    var node := Inode(5000, [0, 7] + seq(MAX_BLOCKS - 2, _ => 0));
    var d := Disk([Inode(0, seq(MAX_BLOCKS, _ => 0)), node], MAGIC + seq(BLOCK - 4, _ => 0), 1, 0);
    assert node.blocks[0] == 0 && node.blocks[1] == 7;
    assert !ValidAt(d, node, 4096);
  }
}
