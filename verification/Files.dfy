/** The read-only file system: an inode's bytes scattered over 4 KB data blocks, the read
    that gathers them, and what repeated reads return for an ordinary file and for the one
    file whose name is special-cased. */
module Files {
  import opened Arithmetic

  type Byte = b: int | 0 <= b < 256

  const BLOCK := 4096
  const MAX_BLOCKS := 1023
  const TWO32 := 0x1_0000_0000

  datatype Inode = Inode(length: nat, blocks: seq<int>)

  /** The inodes, and behind them in memory the data blocks; `large` is the inode of the
      special file. */
  datatype Disk = Disk(inodes: seq<Inode>, data: seq<Byte>, blockCount: nat, large: nat)

  ghost predicate DiskOk(d: Disk) {
    && d.large < |d.inodes| && |d.data| == BLOCK * d.blockCount
    && forall i :: 0 <= i < |d.inodes| ==> |d.inodes[i].blocks| == MAX_BLOCKS && d.inodes[i].length < TWO32
  }

  /** The i-th 32-bit word of a block, low byte first. */
  function Word(block: seq<Byte>, i: nat): (r: nat)
    requires 4 * i + 4 <= |block|
    ensures r < TWO32
  {
    var b0: int, b1: int, b2: int, b3: int := block[4 * i], block[4 * i + 1], block[4 * i + 2], block[4 * i + 3];
    b0 + 0x100 * b1 + 0x1_0000 * b2 + 0x100_0000 * b3
  }

  /** Its bytes, by repeated division, are the four of the block, the lowest first. */
  lemma WordBytes(block: seq<Byte>, i: nat)
    requires 4 * i + 4 <= |block|
    ensures Word(block, i) % 256 == block[4 * i] && Word(block, i) / 256 % 256 == block[4 * i + 1]
    ensures Word(block, i) / 256 / 256 % 256 == block[4 * i + 2]
    ensures Word(block, i) / 256 / 256 / 256 == block[4 * i + 3]
  {
    var b0: int, b1: int, b2: int, b3: int := block[4 * i], block[4 * i + 1], block[4 * i + 2], block[4 * i + 3];
    var w := Word(block, i);
    var v := b1 + 256 * (b2 + 256 * b3);
    assert w == b0 + 256 * v;
    LowByte(w, b0, v);
    LowByte(v, b1, b2 + 256 * b3);
    LowByte(b2 + 256 * b3, b2, b3);
  }

  lemma LowByte(w: int, low: int, high: int)
    requires 0 <= low < 256 && w == low + 256 * high
    ensures w % 256 == low && w / 256 == high
  {
  }

  /** A block taken for an inode: the length, then the block numbers. */
  function Decoded(block: seq<Byte>): (r: Inode)
    requires |block| == BLOCK
    ensures |r.blocks| == MAX_BLOCKS && r.length < TWO32
  {
    Inode(Word(block, 0), seq(MAX_BLOCKS, i requires 0 <= i < MAX_BLOCKS => Word(block, i + 1)))
  }

  /** An inode number that names a block of this disk: an inode, or the first data block. */
  predicate Addressed(d: Disk, inode: nat) { inode < |d.inodes| || (inode == |d.inodes| && 0 < d.blockCount) }

  /** What is found there. */
  function InodeAt(d: Disk, inode: nat): (r: Inode)
    requires |d.data| == BLOCK * d.blockCount && Addressed(d, inode)
    ensures DiskOk(d) ==> |r.blocks| == MAX_BLOCKS && r.length < TWO32
  {
    if inode < |d.inodes| then d.inodes[inode] else Decoded(d.data[..BLOCK])
  }

  /** Byte i of the inode lies in a block that exists. */
  predicate ValidAt(d: Disk, inode: Inode, i: nat)
    requires |inode.blocks| == MAX_BLOCKS
  {
    i / BLOCK < MAX_BLOCKS && 0 <= inode.blocks[i / BLOCK] < d.blockCount
  }

  /** So do all n bytes from `offset`. */
  predicate Spans(d: Disk, inode: Inode, offset: nat, n: nat)
    requires |inode.blocks| == MAX_BLOCKS
  {
    forall j :: offset <= j < offset + n ==> ValidAt(d, inode, j)
  }

  /** The buffer holds the inode's bytes from `offset`. */
  ghost predicate Holds(d: Disk, inode: Inode, offset: nat, buf: seq<Byte>)
    requires |d.data| == BLOCK * d.blockCount && |inode.blocks| == MAX_BLOCKS
  {
    forall i :: 0 <= i < |buf| ==> ValidAt(d, inode, offset + i) && buf[i] == ByteAt(d, inode, offset + i)
  }

  /** So do all of the first n bytes. */
  ghost predicate Backed(d: Disk, inode: Inode, n: nat)
    requires |inode.blocks| == MAX_BLOCKS
  {
    forall i :: 0 <= i < n ==> ValidAt(d, inode, i)
  }

  function Block(d: Disk, b: int): (r: seq<Byte>)
    requires |d.data| == BLOCK * d.blockCount && 0 <= b < d.blockCount
    ensures |r| == BLOCK
  {
    d.data[BLOCK * b..BLOCK * (b + 1)]
  }

  // ----- the logical file

  /** The first n blocks of the inode, one after the other. */
  function Blocks(d: Disk, blocks: seq<int>): (r: seq<Byte>)
    requires |d.data| == BLOCK * d.blockCount
    requires forall i :: 0 <= i < |blocks| ==> 0 <= blocks[i] < d.blockCount
    ensures |r| == BLOCK * |blocks|
  {
    if blocks == [] then [] else Blocks(d, blocks[..|blocks| - 1]) + Block(d, blocks[|blocks| - 1])
  }

  /** How many blocks the first n bytes take. */
  function BlocksFor(n: nat): (r: nat)
    ensures BLOCK * r >= n && (n > 0 ==> BLOCK * (r - 1) < n) && (n == 0 ==> r == 0)
  {
    (n + BLOCK - 1) / BLOCK
  }

  lemma BackedBlocks(d: Disk, inode: Inode, n: nat)
    requires |inode.blocks| == MAX_BLOCKS && Backed(d, inode, n)
    ensures BlocksFor(n) <= MAX_BLOCKS
    ensures forall b :: 0 <= b < BlocksFor(n) ==> 0 <= inode.blocks[b] < d.blockCount
  {
    if n > 0 {
      assert ValidAt(d, inode, n - 1);
    }
    forall b | 0 <= b < BlocksFor(n)
      ensures b < MAX_BLOCKS && 0 <= inode.blocks[b] < d.blockCount
    {
      assert ValidAt(d, inode, BLOCK * b);
    }
  }

  /** The first n bytes behind the inode: its data blocks concatenated. */
  function Bytes(d: Disk, inode: Inode, n: nat): (r: seq<Byte>)
    requires |d.data| == BLOCK * d.blockCount && |inode.blocks| == MAX_BLOCKS && Backed(d, inode, n)
    ensures |r| == n
  {
    BackedBlocks(d, inode, n);
    Blocks(d, inode.blocks[..BlocksFor(n)])[..n]
  }

  /** Byte i as read_data finds it. */
  function ByteAt(d: Disk, inode: Inode, i: nat): Byte
    requires |d.data| == BLOCK * d.blockCount && |inode.blocks| == MAX_BLOCKS && ValidAt(d, inode, i)
  {
    d.data[BLOCK * inode.blocks[i / BLOCK] + i % BLOCK]
  }

  lemma {:induction false} BlocksAt(d: Disk, blocks: seq<int>, i: nat)
    requires |d.data| == BLOCK * d.blockCount && i < BLOCK * |blocks|
    requires forall j :: 0 <= j < |blocks| ==> 0 <= blocks[j] < d.blockCount
    ensures Blocks(d, blocks)[i] == d.data[BLOCK * blocks[i / BLOCK] + i % BLOCK]
    decreases |blocks|
  {
    var front := blocks[..|blocks| - 1];
    if i < BLOCK * |front| {
      BlocksAt(d, front, i);
    } else {
      assert i / BLOCK == |front|;
    }
  }

  lemma BytesAt(d: Disk, inode: Inode, n: nat, i: nat)
    requires |d.data| == BLOCK * d.blockCount && |inode.blocks| == MAX_BLOCKS
    requires Backed(d, inode, n) && i < n
    ensures ValidAt(d, inode, i) && Bytes(d, inode, n)[i] == ByteAt(d, inode, i)
  {
    BackedBlocks(d, inode, n);
    var blocks := inode.blocks[..BlocksFor(n)];
    BlocksAt(d, blocks, i);
    assert blocks[i / BLOCK] == inode.blocks[i / BLOCK];
  }

  /** What read_data gathers is that slice of the concatenated blocks, and of any longer
      stretch of them; with offset 0 and the file's length, the whole file. */
  lemma GatheredIsSlice(d: Disk, inode: Inode, offset: nat, buf: seq<Byte>, n: nat)
    requires |d.data| == BLOCK * d.blockCount && |inode.blocks| == MAX_BLOCKS
    requires Backed(d, inode, n) && offset + |buf| <= n
    requires Holds(d, inode, offset, buf)
    ensures buf == Bytes(d, inode, n)[offset..offset + |buf|]
  {
    forall i | 0 <= i < |buf|
      ensures buf[i] == Bytes(d, inode, n)[offset + i]
    {
      BytesAt(d, inode, n, offset + i);
    }
  }

  // ----- what a read returns

  /** 32-bit wrap-around, unsigned and signed. */
  function U32(x: int): (r: int)
    ensures 0 <= r < TWO32
    ensures 0 <= x < TWO32 ==> r == x
  {
    if 0 <= x < TWO32 then x else x % TWO32
  }

  function S32(x: int): int { if U32(x) < 0x8000_0000 then U32(x) else U32(x) - TWO32 }

  /** n * k, as k additions. */
  function Times(n: nat, k: nat): nat { if k == 0 then 0 else Times(n, k - 1) + n }

  lemma {:induction false} TimesIs(n: nat, k: nat)
    ensures Times(n, k) == n * k
  {
    if k > 0 {
      TimesIs(n, k - 1);
      assert n * k == n * (k - 1) + n;
    }
  }

  /** The value read_data returns after copying, `count` being the reads of the special
      file so far and `special` whether any has happened. */
  function Returned(length: nat, special: bool, count: nat, n: nat): int {
    if special && length < U32(Times(n, count)) then S32(length - Times(n, count) + n)
    else if length >= n then n
    else length
  }

  /** The counter after a read of the inode. */
  function Counted(d: Disk, inode: nat, count: nat): nat {
    if inode == d.large then count + 1 else 0
  }

  class FileSystem {
    const d: Disk
    var count: nat     // large_text_blk_count
    var special: bool  // shared_btw_terminal_fs_drivers

    constructor (d: Disk)
      requires DiskOk(d)
      ensures this.d == d && count == 0 && !special
    {
      this.d := d;
      count, special := 0, false;
    }

    /** Gathers `length` bytes from `offset`, across any number of block boundaries, or
        fails at the first block number out of range. An inode number that does not exist
        gets past the check exactly when it is the inode count, and then the first data
        block is read as an inode. */
    method ReadData(inode: nat, offset: nat, buf: array<Byte>, length: nat) returns (r: int)
      requires DiskOk(d) && length <= buf.Length && (inode == |d.inodes| ==> 0 < d.blockCount)
      requires Addressed(d, inode) && offset < InodeAt(d, inode).length ==>
        1 <= length && offset + length <= BLOCK * MAX_BLOCKS
      modifies this, buf
      ensures buf[length..] == old(buf[length..])
      ensures inode > |d.inodes| ==>
        r == -1 && count == old(count) && special == old(special) && buf[..] == old(buf[..])
      ensures inode >= |d.inodes| ==>
        (r != -1 <==>
          && inode == |d.inodes|
          && (offset >= InodeAt(d, inode).length || Spans(d, InodeAt(d, inode), offset, length)))
      ensures inode <= |d.inodes| ==>
        && count == Counted(d, inode, old(count)) && count == (if inode == d.large then old(count) + 1 else 0)
        && special == (old(special) || inode == d.large)
      ensures inode <= |d.inodes| && offset >= InodeAt(d, inode).length ==> r == 0 && buf[..] == old(buf[..])
      ensures inode <= |d.inodes| && offset < InodeAt(d, inode).length ==>
        var node := InodeAt(d, inode);
        if Spans(d, node, offset, length) then
          Holds(d, node, offset, buf[..length]) && r == Returned(node.length, special, count, length)
        else r == -1
    {
      if inode > |d.inodes| {
        return -1;
      }
      if inode == d.large {
        count := count + 1;
        special := true;
      } else {
        count := 0;
      }
      var node := InodeAt(d, inode);
      if offset >= node.length {
        return 0;
      }
      var copied := Gather(node, offset, buf, length);
      if !copied {
        return -1;
      }
      r := FinalLength(node.length, length);
    }

    /** The length that read_data reports. */
    method FinalLength(fileLength: nat, length: nat) returns (r: int)
      ensures r == Returned(fileLength, special, count, length)
    {
      TimesIs(length, count);
      assert length * count == length * (count - 1) + length;
      if special && fileLength < U32(length * count) {
        return S32(fileLength - length * (count - 1));
      }
      if fileLength >= length {
        return length;
      }
      return fileLength;
    }

    /** The copying loop of read_data. */
    method Gather(node: Inode, offset: nat, buf: array<Byte>, length: nat) returns (ok: bool)
      requires |d.data| == BLOCK * d.blockCount && |node.blocks| == MAX_BLOCKS
      requires 1 <= length <= buf.Length && offset + length <= BLOCK * MAX_BLOCKS
      modifies buf
      ensures buf[length..] == old(buf[length..])
      ensures ok <==> Spans(d, node, offset, length)
      ensures ok ==> Holds(d, node, offset, buf[..length])
    {
      var block, at := offset / BLOCK, offset % BLOCK;
      var i := 0;
      while i <= length - 1
        invariant 0 <= i <= length && 0 <= at < BLOCK && BLOCK * block + at == offset + i
        invariant Spans(d, node, offset, i) && Holds(d, node, offset, buf[..i])
        invariant buf[length..] == old(buf[length..])
      {
        assert block == (offset + i) / BLOCK && at == (offset + i) % BLOCK;
        var number := node.blocks[block];
        if number >= 0 && number < d.blockCount {
          buf[i] := d.data[BLOCK * number + at];
          i := i + 1;
          at := at + 1;
          if at >= BLOCK {
            block := block + 1;
            at := 0;
          }
        } else {
          assert !ValidAt(d, node, offset + i);
          return false;
        }
      }
      return true;
    }

    /** read_call on an open file. A read that meets a missing block returns -1 and adds
        that to the position. Any other is one step of the reader machine below, over
        whatever first stretch of the inode's bytes is there, if it covers the read. */
    method ReadCall(f: OpenFile, buf: array<Byte>, n: int, ghost all: nat) returns (r: int)
      requires DiskOk(d) && n <= buf.Length && Addressed(d, f.inode)
      requires n < 0x8000_0000 && f.position < TWO32
      requires Backed(d, InodeAt(d, f.inode), all)
      requires n > 0 && f.position < InodeAt(d, f.inode).length ==> f.position + n <= BLOCK * MAX_BLOCKS
      modifies this, buf, f`position
      ensures n <= 0 ==> r == -1 && f.position == old(f.position) && count == old(count)
      ensures n > 0 ==>
        var node, pos := InodeAt(d, f.inode), old(f.position);
        && count == Counted(d, f.inode, old(count)) && f.position == U32(pos + r)
        && (pos < node.length && !Spans(d, node, pos, n) ==> r == -1)
        && (pos < node.length && Spans(d, node, pos, n) ==> Holds(d, node, pos, buf[..n]))
        && (pos >= node.length || pos + n <= all ==>
              var after := ReadNext(Bytes(d, node, all), node.length, f.inode == d.large, old(special),
                                    Cursor(pos, old(count), []), n);
              after.Cursor? ==> r == |after.out| && buf[..r] == after.out && f.position == after.pos)
    {
      if n <= 0 {
        return -1;
      }
      ghost var node, pos, count0, special0 := InodeAt(d, f.inode), f.position, count, special;
      r := ReadData(f.inode, f.position, buf, n);
      if pos < node.length && pos + n <= all {
        assert Spans(d, node, pos, n);
        GatheredIsSlice(d, node, pos, buf[..n], all);
      }
      if pos >= node.length || pos + n <= all {
        ReadDelivers(Bytes(d, node, all), node.length, f.inode == d.large, special0, pos, count0, n, buf[..], r);
      }
      f.position := U32(f.position + r);
    }
  }

  /** A disk with one empty file and one block that starts with 1: inode 1, which does not
      exist, reads as a file of one byte. */
  lemma PhantomInode()
    ensures var d := Disk([Inode(0, seq(MAX_BLOCKS, _ => 0))], [1] + seq(BLOCK - 1, _ => 0), 1, 0);
      && DiskOk(d) && Addressed(d, 1) && InodeAt(d, 1).length == 1
      && Spans(d, InodeAt(d, 1), 0, 1) && ByteAt(d, InodeAt(d, 1), 0) == 1
  {
    var d := Disk([Inode(0, seq(MAX_BLOCKS, _ => 0))], [1] + seq(BLOCK - 1, _ => 0), 1, 0);
    assert d.data[..BLOCK] == d.data;
    assert Decoded(d.data).blocks[0] == 0;
  }

  class OpenFile {
    const inode: nat
    var position: nat

    constructor (inode: nat)
      ensures this.inode == inode && position == 0
    {
      this.inode := inode;
      position := 0;
    }
  }

  // ----- repeated reads of one open file

  /** An open file with the bytes handed out so far; Lost when a read reports a length that
      is negative or more than it copied. */
  datatype Reader =
    | Cursor(pos: nat, count: nat, out: seq<Byte>)
    | Lost(count: nat)

  /** One read_call of n bytes; `content` are the bytes behind the inode, the first `length`
      of them the file. */
  function ReadNext(content: seq<Byte>, length: nat, large: bool, special: bool, c: Reader, n: nat): Reader
    requires c.Cursor? && c.pos < length ==> c.pos + n <= |content|
  {
    var count := if large then c.count + 1 else 0;
    if c.Lost? then Lost(count)
    else if c.pos >= length then c.(count := count)
    else
      var r := Returned(length, special || large, count, n);
      if 0 <= r <= n then Cursor(c.pos + r, count, c.out + content[c.pos..c.pos + r]) else Lost(count)
  }

  /** What one read_data hands back is what the reader is handed. */
  lemma ReadDelivers(content: seq<Byte>, length: nat, large: bool, special: bool, pos: nat, count: nat,
                     n: nat, buf: seq<Byte>, r: int)
    requires pos < length ==> pos + n <= |content|
    requires n <= |buf|
    requires pos >= length ==> r == 0
    requires pos < length ==> buf[..n] == content[pos..pos + n]
    requires pos < length ==> r == Returned(length, special || large, if large then count + 1 else 0, n)
    ensures var after := ReadNext(content, length, large, special, Cursor(pos, count, []), n);
      && after.count == (if large then count + 1 else 0)
      && (after.Cursor? ==> 0 <= r <= n && r == |after.out| && buf[..r] == after.out && after.pos == pos + r)
  {
    if pos < length && 0 <= r <= n {
      assert buf[..r] == buf[..n][..r] && content[pos..pos + r] == content[pos..pos + n][..r];
    }
  }

  /** A read appends to the bytes handed out before and is not affected by them, so a run of
      read_calls strings together the pieces that each one puts in its buffer. */
  lemma ReadAppends(content: seq<Byte>, length: nat, large: bool, special: bool, pos: nat, count: nat,
                    out: seq<Byte>, n: nat)
    requires pos < length ==> pos + n <= |content|
    ensures var before := ReadNext(content, length, large, special, Cursor(pos, count, []), n);
      var after := ReadNext(content, length, large, special, Cursor(pos, count, out), n);
      && after.count == before.count && (after.Cursor? <==> before.Cursor?)
      && (after.Cursor? ==> after.pos == before.pos && after.out == out + before.out)
  {
    var r := Returned(length, special || large, if large then count + 1 else 0, n);
    if pos < length && 0 <= r <= n {
      Appended(out, content[pos..pos + r]);
    } else {
      Appended(out, []);
    }
  }

  lemma Appended(out: seq<Byte>, piece: seq<Byte>)
    ensures out + ([] + piece) == out + piece && out + [] == out
  {
    assert [] + piece == piece;
  }

  /** The reader after k reads of n bytes each, from the start of the file. */
  function Reads(content: seq<Byte>, length: nat, large: bool, special: bool, n: nat, k: nat): Reader
    requires 0 < n && RoundUp(length, n) <= |content|
  {
    if k == 0 then Cursor(0, 0, [])
    else
      var c := Reads(content, length, large, special, n, k - 1);
      if c.Cursor? && c.pos < length && c.pos + n > |content| then Lost(c.count)
      else ReadNext(content, length, large, special, c, n)
  }

  lemma ReadsNext(content: seq<Byte>, length: nat, large: bool, special: bool, n: nat, k: nat)
    requires 0 < n && RoundUp(length, n) <= |content| && 0 < k
    ensures var c := Reads(content, length, large, special, n, k - 1);
      (c.Cursor? && c.pos < length ==> c.pos + n <= |content|) ==>
      Reads(content, length, large, special, n, k) == ReadNext(content, length, large, special, c, n)
  {
  }

  /** The least multiple of n that covers `length` bytes. */
  function RoundUp(length: nat, n: nat): (r: nat)
    requires 0 < n
    ensures length <= r < length + n
  {
    if length == 0 then 0 else if length <= n then n else n + RoundUp(length - n, n)
  }

  lemma {:induction false} RoundUpIs(length: nat, n: nat)
    requires 0 < n
    ensures RoundUp(length, n) % n == 0
    ensures RoundUp(length, n) == length <==> length % n == 0
    decreases length
  {
    if length > n {
      RoundUpIs(length - n, n);
      AddMod(length - n, n);
      AddMod(RoundUp(length - n, n), n);
    } else {
      assert n % n == 0;
      assert 0 < length < n ==> length % n == length;
    }
  }

  /** A run of whole reads that has not reached the end has room for one more. */
  lemma {:induction false} WholeReads(length: nat, n: nat, k: nat)
    requires 0 < n && Times(n, k) < length
    ensures Times(n, k) + n <= RoundUp(length, n)
    decreases k
  {
    if k > 0 {
      assert length > n;
      WholeReads(length - n, n, k - 1);
    }
  }

  /** Once the whole reads reach the end they reach the rounded-up end. */
  lemma {:induction false} Covered(length: nat, n: nat, k: nat)
    requires 0 < n && length <= Times(n, k)
    ensures RoundUp(length, n) <= Times(n, k)
    decreases k
  {
    if length > n {
      Covered(length - n, n, k - 1);
    }
  }

  lemma SpecialReturned(length: nat, n: nat, k: nat)
    requires 0 < n < 0x8000_0000 && 0 < k && Times(n, k - 1) < length <= BLOCK * MAX_BLOCKS
    ensures Returned(length, true, k, n) == if Times(n, k) <= length then n else length - Times(n, k - 1)
  {
  }

  lemma SpecialStep(content: seq<Byte>, length: nat, special: bool, n: nat, k: nat)
    requires 0 < n < 0x8000_0000 && 0 < k && Times(n, k - 1) < length <= BLOCK * MAX_BLOCKS
    requires Times(n, k - 1) + n <= |content|
    ensures var pos, pos' := Times(n, k - 1), if Times(n, k) <= length then Times(n, k) else length;
      ReadNext(content, length, true, special, Cursor(pos, k - 1, content[..pos]), n) ==
      Cursor(pos', k, content[..pos'])
  {
    SpecialReturned(length, n, k);
    var pos, pos' := Times(n, k - 1), if Times(n, k) <= length then Times(n, k) else length;
    assert content[..pos] + content[pos..pos'] == content[..pos'];
  }

  /** The special file: every read returns min(n, what is left), so the pieces concatenate
      to exactly the file and later reads return nothing. */
  lemma {:induction false} SpecialFileRebuilt(content: seq<Byte>, length: nat, special: bool, n: nat, k: nat)
    requires 0 < n < 0x8000_0000 && length <= BLOCK * MAX_BLOCKS && RoundUp(length, n) <= |content|
    ensures var pos := if Times(n, k) <= length then Times(n, k) else length;
      Reads(content, length, true, special, n, k) == Cursor(pos, k, content[..pos])
  {
    if k > 0 {
      SpecialFileRebuilt(content, length, special, n, k - 1);
      var c := Reads(content, length, true, special, n, k - 1);
      assert c.pos < length ==> c.pos + n <= |content| by {
        if Times(n, k - 1) < length {
          WholeReads(length, n, k - 1);
        }
      }
      ReadsNext(content, length, true, special, n, k);
      SpecialTurn(content, length, special, n, k, c);
    }
  }

  lemma SpecialTurn(content: seq<Byte>, length: nat, special: bool, n: nat, k: nat, c: Reader)
    requires 0 < n < 0x8000_0000 && 0 < k && length <= BLOCK * MAX_BLOCKS && length <= |content|
    requires var pos := if Times(n, k - 1) <= length then Times(n, k - 1) else length;
      c == Cursor(pos, k - 1, content[..pos]) && (pos < length ==> pos + n <= |content|)
    ensures var pos := if Times(n, k) <= length then Times(n, k) else length;
      ReadNext(content, length, true, special, c, n) == Cursor(pos, k, content[..pos])
  {
    if Times(n, k - 1) < length {
      SpecialStep(content, length, special, n, k);
    }
  }

  /** One read of the special file, at any position and with any count, reports the bytes
      that were left exactly when the count has it that this read reaches past the end and
      starts where it does, or it does not and the read starts at the beginning or stays
      inside the file. */
  lemma SpecialReadExactIff(content: seq<Byte>, length: nat, pos: nat, count: nat, special: bool, n: nat)
    requires 0 < n < 0x8000_0000 && length < 0x8000_0000
    requires (pos < length ==> pos + n <= |content|) && length <= |content|
    ensures var c := ReadNext(content, length, true, special, Cursor(pos, count, []), n);
      var left := if pos >= length then 0 else if n <= length - pos then n else length - pos;
      var reach := U32(Times(n, count + 1));
      c == Cursor(pos + left, count + 1, if left == 0 then [] else content[pos..pos + left]) <==>
      pos >= length || (if length < reach then pos + n == reach else pos == 0 || pos + n <= length)
  {
    if pos < length {
      var left := if n <= length - pos then n else length - pos;
      SpecialReportIff(length, pos, Times(n, count + 1), n, left);
      ReadNextInside(content, length, special, pos, count, n);
    }
  }

  lemma ReadNextInside(content: seq<Byte>, length: nat, special: bool, pos: nat, count: nat, n: nat)
    requires pos < length && pos + n <= |content|
    ensures var r := Returned(length, true, count + 1, n);
      ReadNext(content, length, true, special, Cursor(pos, count, []), n) ==
      if 0 <= r <= n then Cursor(pos + r, count + 1, content[pos..pos + r]) else Lost(count + 1)
  {
    var r := Returned(length, true, count + 1, n);
    if 0 <= r <= n {
      Appended([], content[pos..pos + r]);
    }
  }

  lemma SpecialReportIff(length: nat, pos: nat, total: nat, n: nat, left: nat)
    requires 0 < n < 0x8000_0000 && pos < length < 0x8000_0000
    requires left == if n <= length - pos then n else length - pos
    ensures (if length < U32(total) then S32(length - total + n) else if length >= n then n else length) == left <==>
            if length < U32(total) then pos + n == U32(total) else pos == 0 || pos + n <= length
  {
    var q := total / TWO32;
    assert total == q * TWO32 + U32(total);
    SameLowBits(length - U32(total) + n, length - total + n, q);
  }

  /** Numbers a multiple of 2^32 apart are the same 32-bit value. */
  lemma SameLowBits(a: int, b: int, q: nat)
    requires b == a - q * TWO32
    ensures U32(a) == U32(b) && S32(a) == S32(b)
  {
    assert U32(a) == a % TWO32 && U32(b) == b % TWO32;
    assert (a - q * TWO32) % TWO32 == a % TWO32;
  }

  lemma OrdinaryStep(content: seq<Byte>, length: nat, special: bool, n: nat, pos: nat)
    requires 0 < n && pos < length && pos + n <= |content| && (n >= length ==> pos == 0)
    ensures var pos' := if n >= length then length else pos + n;
      ReadNext(content, length, false, special, Cursor(pos, 0, content[..pos]), n) ==
      Cursor(pos', 0, content[..pos'])
  {
    var pos' := if n >= length then length else pos + n;
    assert content[..pos] + content[pos..pos'] == content[..pos'];
  }

  /** An ordinary file: every read inside it returns min(n, file length), whatever the
      position, so a run of reads ends on a whole number of reads. */
  lemma {:induction false} OrdinaryReads(content: seq<Byte>, length: nat, special: bool, n: nat, k: nat)
    requires 0 < n && RoundUp(length, n) <= |content|
    ensures var end := if n >= length then length else RoundUp(length, n);
      var pos := if Times(n, k) <= end then Times(n, k) else end;
      Reads(content, length, false, special, n, k) == Cursor(pos, 0, content[..pos])
  {
    if k > 0 {
      OrdinaryReads(content, length, special, n, k - 1);
      var c := Reads(content, length, false, special, n, k - 1);
      if Times(n, k - 1) < length {
        WholeReads(length, n, k - 1);
      } else {
        Covered(length, n, k - 1);
      }
      ReadsNext(content, length, false, special, n, k);
      OrdinaryTurn(content, length, special, n, k, c);
    }
  }

  lemma OrdinaryTurn(content: seq<Byte>, length: nat, special: bool, n: nat, k: nat, c: Reader)
    requires 0 < n && 0 < k && RoundUp(length, n) <= |content|
    requires if Times(n, k - 1) < length then Times(n, k - 1) + n <= RoundUp(length, n)
      else RoundUp(length, n) <= Times(n, k - 1)
    requires var end := if n >= length then length else RoundUp(length, n);
      var pos := if Times(n, k - 1) <= end then Times(n, k - 1) else end;
      c == Cursor(pos, 0, content[..pos])
    ensures var end := if n >= length then length else RoundUp(length, n);
      var pos := if Times(n, k) <= end then Times(n, k) else end;
      && (c.pos < length ==> c.pos + n <= |content|)
      && ReadNext(content, length, false, special, c, n) == Cursor(pos, 0, content[..pos])
  {
    if Times(n, k - 1) < length {
      if n >= length {
        assert k == 1;
      }
      OrdinaryStep(content, length, special, n, Times(n, k - 1));
    }
  }

  /** Reading an ordinary file to its end in steps of n gives back the file exactly when
      one read covers it or n divides its length. */
  lemma OrdinaryFileRebuiltIff(content: seq<Byte>, length: nat, special: bool, n: nat, k: nat)
    requires 0 < n && RoundUp(length, n) <= |content| && RoundUp(length, n) <= Times(n, k)
    ensures var c := Reads(content, length, false, special, n, k);
      c.Cursor? && (c.out == content[..length] <==> n >= length || length % n == 0)
  {
    RoundUpIs(length, n);
    OrdinaryReads(content, length, special, n, k);
  }

  /** One read of an ordinary file reports the bytes that were left exactly when it starts
      at the beginning, stays inside the file, or starts at or past its end. */
  lemma OrdinaryReadExactIff(content: seq<Byte>, length: nat, pos: nat, special: bool, n: nat)
    requires 0 < n && (pos < length ==> pos + n <= |content|) && length <= |content|
    ensures var c := ReadNext(content, length, false, special, Cursor(pos, 0, []), n);
      var left := if pos >= length then 0 else if n <= length - pos then n else length - pos;
      c == Cursor(pos + left, 0, if left == 0 then [] else content[pos..pos + left]) <==>
      pos >= length || pos == 0 || pos + n <= length
  {
  }

  // ----- looking a name up

  const NAME_LENGTH := 32
  const SLOTS := 64

  datatype Dentry = Dentry(filename: seq<Byte>, filetype: int, inode: nat)

  datatype Lookup = Missing | Found(dentry: Dentry)

  /** A name as a C string: the bytes before the first NUL. */
  function CString(s: seq<Byte>): seq<Byte> {
    if s == [] || s[0] == 0 then [] else [s[0]] + CString(s[1..])
  }

  /** The first n bytes, or all there are. */
  function Take(s: seq<Byte>, n: nat): seq<Byte> { if |s| <= n then s else s[..n] }

  /** Enough bytes for a comparison of n: that many, or a NUL before. */
  predicate Readable(s: seq<Byte>, n: nat) { |s| >= n || 0 in s }

  lemma CStringStep(s: seq<Byte>, n: nat)
    requires 0 < n && s != []
    ensures CString(Take(s, n)) == if s[0] == 0 then [] else [s[0]] + CString(Take(s[1..], n - 1))
  {
    var t := Take(s, n);
    assert t != [] && t[0] == s[0];
    assert t[1..] == Take(s[1..], n - 1);
  }

  lemma ReadableStep(s: seq<Byte>, n: nat)
    requires 0 < n && Readable(s, n)
    ensures s != [] && (s[0] != 0 ==> Readable(s[1..], n - 1))
  {
    assert s == [] || s == [s[0]] + s[1..];
  }

  lemma SameHeads(a: Byte, x: seq<Byte>, b: Byte, y: seq<Byte>)
    ensures [a] + x == [b] + y <==> a == b && x == y
  {
    assert ([a] + x)[1..] == x && ([b] + y)[1..] == y;
    assert ([a] + x)[0] == a && ([b] + y)[0] == b;
  }

  /** One more equal byte changes neither comparison nor readability. */
  lemma CompareStep(s1: seq<Byte>, s2: seq<Byte>, n: nat)
    requires 0 < n && Readable(s1, n) && Readable(s2, n)
    ensures s1 != [] && s2 != []
    ensures SameText(s1, s2, n) <==>
      s1[0] == s2[0] && (s1[0] == 0 || SameText(s1[1..], s2[1..], n - 1))
    ensures s1[0] != 0 ==> Readable(s1[1..], n - 1)
    ensures s2[0] != 0 ==> Readable(s2[1..], n - 1)
  {
    ReadableStep(s1, n);
    ReadableStep(s2, n);
    CStringStep(s1, n);
    CStringStep(s2, n);
    SameHeads(s1[0], CString(Take(s1[1..], n - 1)), s2[0], CString(Take(s2[1..], n - 1)));
  }

  /** The two texts agree in their first n bytes, up to a NUL. */
  predicate SameText(s1: seq<Byte>, s2: seq<Byte>, n: nat) {
    CString(Take(s1, n)) == CString(Take(s2, n))
  }

  /** strncmp, as a loop over NUL-terminated text. */
  method Strncmp(s1: seq<Byte>, s2: seq<Byte>, n: nat) returns (r: int)
    requires Readable(s1, n) && Readable(s2, n)
    ensures r == 0 <==> SameText(s1, s2, n)
  {
    var i := 0;
    ghost var same := SameText(s1, s2, n);
    assert ComparedFrom(s1, s2, 0, n, same) by {
      assert s1[0..] == s1 && s2[0..] == s2;
    }
    while i < n
      invariant 0 <= i <= n && ComparedFrom(s1, s2, i, n, same)
      decreases n - i
    {
      CompareAt(s1, s2, i, n, same);
      if s1[i] != s2[i] || s1[i] == 0 {
        return (s1[i] as int) - (s2[i] as int);
      }
      i := i + 1;
    }
    ComparedAll(s1, s2, i, same);
    return 0;
  }

  /** The first i bytes are equal, so the outcome rests on the others. */
  ghost predicate ComparedFrom(s1: seq<Byte>, s2: seq<Byte>, i: nat, n: nat, same: bool) {
    && i <= n && i <= |s1| && i <= |s2| && Readable(s1[i..], n - i) && Readable(s2[i..], n - i)
    && same == SameText(s1[i..], s2[i..], n - i)
  }

  lemma CompareAt(s1: seq<Byte>, s2: seq<Byte>, i: nat, n: nat, same: bool)
    requires i < n && ComparedFrom(s1, s2, i, n, same)
    ensures i < |s1| && i < |s2|
    ensures s1[i] != s2[i] ==> !same
    ensures s1[i] == s2[i] == 0 ==> same
    ensures s1[i] == s2[i] != 0 ==> ComparedFrom(s1, s2, i + 1, n, same)
  {
    TailFrom(s1, i);
    TailFrom(s2, i);
    CompareTails(s1[i..], s2[i..], n - i, same);
    if s1[i] == s2[i] != 0 {
      ComparedNext(s1, s2, i, n, same, s1[i..], s2[i..]);
    }
  }

  lemma ComparedNext(s1: seq<Byte>, s2: seq<Byte>, i: nat, n: nat, same: bool, t1: seq<Byte>, t2: seq<Byte>)
    requires i < n && i < |s1| && i < |s2| && t1 == s1[i..] && t2 == s2[i..]
    requires Readable(t1[1..], n - i - 1) && Readable(t2[1..], n - i - 1)
    requires same == SameText(t1[1..], t2[1..], n - i - 1)
    ensures ComparedFrom(s1, s2, i + 1, n, same)
  {
    assert t1[1..] == s1[i + 1..] && t2[1..] == s2[i + 1..];
  }

  lemma CompareTails(t1: seq<Byte>, t2: seq<Byte>, n: nat, same: bool)
    requires 0 < n && Readable(t1, n) && Readable(t2, n) && same == SameText(t1, t2, n)
    ensures t1 != [] && t2 != []
    ensures t1[0] != t2[0] ==> !same
    ensures t1[0] == t2[0] == 0 ==> same
    ensures t1[0] == t2[0] != 0 ==>
      Readable(t1[1..], n - 1) && Readable(t2[1..], n - 1) && same == SameText(t1[1..], t2[1..], n - 1)
  {
    CompareStep(t1, t2, n);
  }

  lemma TailFrom(s: seq<Byte>, i: nat)
    requires i <= |s|
    ensures i < |s| ==> s[i..][0] == s[i] && s[i..][1..] == s[i + 1..]
  {
  }

  lemma ComparedAll(s1: seq<Byte>, s2: seq<Byte>, n: nat, same: bool)
    requires ComparedFrom(s1, s2, n, n, same)
    ensures same
  {
    assert Take(s1[n..], 0) == [] && Take(s2[n..], 0) == [];
  }

  /** A directory entry carries the name: equal as C strings of at most 32 bytes. */
  predicate Named(e: Dentry, name: seq<Byte>) {
    CString(Take(e.filename, NAME_LENGTH)) == name
  }

  /** The entry's name is this one: its first bytes, and then a NUL unless it fills all 32. */
  lemma NamedIff(e: Dentry, name: seq<Byte>)
    requires |e.filename| == 32 && 0 !in name
    ensures Named(e, name) <==>
      |name| <= 32 && e.filename[..|name|] == name && (|name| < 32 ==> e.filename[|name|] == 0)
  {
    assert Take(e.filename, NAME_LENGTH) == e.filename;
    CStringIff(e.filename, name);
  }

  lemma {:induction false} CStringIff(s: seq<Byte>, name: seq<Byte>)
    requires 0 !in name
    ensures CString(s) == name <==>
      |name| <= |s| && s[..|name|] == name && (|name| < |s| ==> s[|name|] == 0)
    decreases |s|
  {
    if s != [] && s[0] != 0 {
      if name != [] {
        CStringIff(s[1..], name[1..]);
        SameHeads(s[0], CString(s[1..]), name[0], name[1..]);
        assert name == [name[0]] + name[1..];
        assert |name| <= |s| ==> s[..|name|] == [s[0]] + s[1..][..|name| - 1];
      }
    } else {
      assert name != [] ==> name[0] in name;
    }
  }

  ghost predicate IsLast(dir: seq<Dentry>, name: seq<Byte>, i: nat) {
    i < |dir| && Named(dir[i], name) && forall j :: i < j < |dir| ==> !Named(dir[j], name)
  }

  lemma {:induction false} CStringOf(name: seq<Byte>)
    requires 0 !in name
    ensures CString(name) == name && CString(name + [0]) == name
  {
    if name != [] {
      assert (name + [0])[1..] == name[1..] + [0];
      CStringOf(name[1..]);
    }
  }

  /** read_dentry_by_name: the last slot that carries the name; an empty name and one over
      32 bytes are refused. */
  method ReadDentryByName(dir: seq<Dentry>, name: seq<Byte>) returns (r: Lookup)
    requires |dir| == SLOTS && 0 !in name
    requires forall i :: 0 <= i < SLOTS ==> |dir[i].filename| == NAME_LENGTH
    ensures r.Missing? <==> name == [] || forall i :: 0 <= i < SLOTS ==> !Named(dir[i], name)
    ensures r.Found? ==> exists i :: 0 <= i < SLOTS && r.dentry == dir[i] && IsLast(dir, name, i)
  {
    if |name| == 0 {
      return Missing;
    }
    if |name| > NAME_LENGTH {
      forall i | 0 <= i < SLOTS
        ensures !Named(dir[i], name)
      {
        CStringShort(Take(dir[i].filename, NAME_LENGTH));
      }
      return Missing;
    }
    CStringOf(name);
    var target := -1;
    var i := 0;
    while i < SLOTS
      invariant 0 <= i <= SLOTS && -1 <= target < i
      invariant target == -1 ==> forall j :: 0 <= j < i ==> !Named(dir[j], name)
      invariant target >= 0 ==> Named(dir[target], name) && forall j :: target < j < i ==> !Named(dir[j], name)
    {
      var c := Strncmp(name + [0], dir[i].filename, NAME_LENGTH);
      assert Take(name + [0], NAME_LENGTH) == if |name| == NAME_LENGTH then name else name + [0];
      if c == 0 {
        target := i;
      }
      i := i + 1;
    }
    if target == -1 {
      return Missing;
    }
    return Found(dir[target]);
  }

  lemma {:induction false} CStringShort(s: seq<Byte>)
    ensures |CString(s)| <= |s|
  {
    if s != [] {
      CStringShort(s[1..]);
    }
  }
}
