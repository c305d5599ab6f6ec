/** read_file and buf_read_file in bootstrap/file_io.c: bytes of a file through
    one buffered data block, with holes and a final fragment. */
module FileReader {
  import opened BlockTree
  import opened FileBlockMap

  type Byte = x: int | 0 <= x < 256

  const NO_BLOCK: int := -1

  datatype Status = Ok | OutsideFile | Broken

  /** fragroundup */
  function FragRoundUp(fsize: nat, x: nat): nat
    requires 0 < fsize
  {
    (x + fsize - 1) / fsize * fsize
  }

  /** blksize: the last block of a small file may be a few fragments only. */
  function BlockSize(bsize: nat, fsize: nat, size: nat, block: nat): nat
    requires 0 < bsize && 0 < fsize
  {
    if block >= NDADDR || size >= (block + 1) * bsize then bsize else FragRoundUp(fsize, size % bsize)
  }

  lemma RoundsUp(fsize: nat, x: nat)
    requires 0 < fsize
    ensures x <= FragRoundUp(fsize, x) < x + fsize
  {
    assert x + fsize - 1 == (x + fsize - 1) / fsize * fsize + (x + fsize - 1) % fsize;
  }

  lemma RoundsUpWithin(fsize: nat, frags: nat, x: nat)
    requires 0 < fsize && x <= frags * fsize
    ensures FragRoundUp(fsize, x) <= frags * fsize
  {
    var q := (x + fsize - 1) / fsize;
    assert q * fsize <= x + fsize - 1 < (frags + 1) * fsize;
    Cancel(q, frags + 1, fsize);
  }

  lemma Cancel(a: nat, b: nat, f: nat)
    requires a * f < b * f
    ensures a < b
  {}

  /** A byte of the file lies inside its block, however short that is. */
  lemma InsideBlock(bsize: nat, fsize: nat, frags: nat, size: nat, offset: nat)
    requires 0 < fsize && 0 < bsize == frags * fsize && offset < size
    ensures offset % bsize < BlockSize(bsize, fsize, size, offset / bsize) <= bsize
    ensures offset / bsize < NDADDR ==>
      offset / bsize * bsize + BlockSize(bsize, fsize, size, offset / bsize) < size + fsize
  {
    assert offset == offset / bsize * bsize + offset % bsize;
    ByteInside(bsize, fsize, frags, size, offset / bsize, offset % bsize);
    if offset / bsize < NDADDR {
      NoSpareFragment(bsize, fsize, size, offset / bsize);
    }
  }

  lemma NoSpareFragment(bsize: nat, fsize: nat, size: nat, block: nat)
    requires 0 < fsize && 0 < bsize && block < NDADDR && block * bsize < size
    ensures block * bsize + BlockSize(bsize, fsize, size, block) < size + fsize
  {
    assert (block + 1) * bsize == block * bsize + bsize;
    if size < (block + 1) * bsize {
      Remainder(size, block, bsize);
      RoundsUp(fsize, size % bsize);
    }
    hide FragRoundUp;
  }

  lemma ByteInside(bsize: nat, fsize: nat, frags: nat, size: nat, block: nat, off: nat)
    requires 0 < fsize && off < bsize == frags * fsize && block * bsize + off < size
    ensures off < BlockSize(bsize, fsize, size, block) <= bsize
  {
    hide FragRoundUp;
    if block < NDADDR && size < (block + 1) * bsize {
      LastBlock(bsize, fsize, frags, size, block, off);
    }
  }

  lemma LastBlock(bsize: nat, fsize: nat, frags: nat, size: nat, block: nat, off: nat)
    requires 0 < fsize && 0 < bsize == frags * fsize && block * bsize + off < size < (block + 1) * bsize
    ensures off < FragRoundUp(fsize, size % bsize) <= bsize
  {
    Remainder(size, block, bsize);
    var x := size % bsize;
    RoundsUp(fsize, x);
    RoundsUpWithin(fsize, frags, x);
    hide FragRoundUp;
  }

  /** From a byte of the file to the end of its block, or of the file if that comes
      first, there are as many bytes as in a block of full size. */
  function Left(bsize: nat, size: nat, offset: nat): nat
    requires 0 < bsize && offset < size
  {
    if size - offset < bsize - offset % bsize then size - offset else bsize - offset % bsize
  }

  lemma LeftInBlock(bsize: nat, fsize: nat, frags: nat, size: nat, offset: nat)
    requires 0 < fsize && 0 < bsize == frags * fsize && offset < size
    ensures var rest := BlockSize(bsize, fsize, size, offset / bsize) - offset % bsize;
      Left(bsize, size, offset) == if rest > size - offset then size - offset else rest
  {
    assert offset == offset / bsize * bsize + offset % bsize;
    LeftAt(bsize, fsize, size, offset / bsize, offset % bsize);
  }

  lemma LeftAt(bsize: nat, fsize: nat, size: nat, block: nat, off: nat)
    requires 0 < fsize && off < bsize && block * bsize + off < size
    ensures var left, rest := size - (block * bsize + off), BlockSize(bsize, fsize, size, block) - off;
      (if left < bsize - off then left else bsize - off) == if rest > left then left else rest
  {
    hide FragRoundUp;
    if block < NDADDR && size < (block + 1) * bsize {
      Remainder(size, block, bsize);
      RoundsUp(fsize, size % bsize);
      assert FragRoundUp(fsize, size % bsize) >= size - block * bsize;
    }
  }

  lemma Remainder(x: nat, q: nat, n: nat)
    requires 0 < n && q * n <= x < (q + 1) * n
    ensures x % n == x - q * n && x / n == q
  {
    assert x == x / n * n + x % n;
    Cancel(x / n, q + 1, n);
    Cancel(q, x / n + 1, n);
  }

  /** A file: its index tree, its size in bytes, and what the device holds from a
      block address on. */
  datatype Contents = Contents(disk: Disk, n: nat, inode: Inode, size: nat, data: map<Daddr, seq<Byte>>) {
    ghost predicate Tree() {
      IsNindir(n) && Readable(disk, n) && IsInode(inode) && size < 0x1_0000_0000
    }

    ghost predicate BlockReadable(b: nat)
      requires Tree()
    {
      && b < Reach(n) && IsPath(n, PathTo(n, b))
      && var r := Walk(disk, n, inode, PathTo(n, b));
        r.Mapped? && (r.block != 0 ==> r.block in data && |data[r.block]| == 4 * n)
    }

    /** Every part of the file can be read. */
    ghost predicate NoErrors() {
      Tree() && forall b: nat {:trigger BlockReadable(b)} :: b * (4 * n) < size ==> BlockReadable(b)
    }

    /** What a block of the file holds: zeros where nothing was ever written. */
    ghost function Block(b: nat): (s: seq<Byte>)
      requires NoErrors() && b * (4 * n) < size
      ensures |s| == 4 * n
    {
      assert BlockReadable(b);
      var block := Walk(disk, n, inode, PathTo(n, b)).block;
      if block == 0 then seq(4 * n, _ => 0) else data[block]
    }

    ghost function At(offset: nat): Byte
      requires NoErrors() && offset < size
    {
      Within(offset);
      Block(offset / (4 * n))[offset % (4 * n)]
    }

    /** A byte is the one at its place in its block, or zero in a hole. */
    lemma BytesOnDisk(offset: nat)
      requires NoErrors() && offset < size
      ensures BlockReadable(offset / (4 * n))
      ensures var block := Walk(disk, n, inode, PathTo(n, offset / (4 * n))).block;
        At(offset) == if block == 0 then 0 else data[block][offset % (4 * n)]
    {
      Within(offset);
      assert BlockReadable(offset / (4 * n));
    }

    lemma Within(offset: nat)
      requires IsNindir(n) && offset < size
      ensures offset / (4 * n) * (4 * n) <= offset < size
    {}
  }

  class Reader {
    const file: File
    const contents: Contents
    /** fs_fsize and fs_frag */
    const fsize: nat
    const frags: nat
    /** f_buf and f_buf_blkno */
    var buf: seq<Byte>
    var bufBlock: int

    ghost predicate Shape() {
      && contents.NoErrors()
      && file.disk == contents.disk && file.n == contents.n && file.inode == contents.inode
      && 0 < fsize && 0 < frags && 4 * contents.n == frags * fsize
    }

    function Size(b: nat): nat
      requires 0 < contents.n && 0 < fsize
    {
      BlockSize(4 * contents.n, fsize, contents.size, b)
    }

    /** The buffer is empty or holds a block of the file, up to its size. */
    ghost predicate Valid()
      reads this, file.nindir, file.blkno, file.blk
    {
      && Shape() && file.Valid()
      && (bufBlock == NO_BLOCK || Holds(bufBlock))
    }

    ghost predicate Holds(b: int)
      requires Shape()
      reads this`buf
    {
      && 0 <= b && b * (4 * contents.n) < contents.size && Size(b) <= 4 * contents.n
      && buf == contents.Block(b)[..Size(b)]
    }

    constructor (contents: Contents, frags: nat, fsize: nat)
      requires contents.NoErrors() && 0 < fsize && 0 < frags && 4 * contents.n == frags * fsize
      ensures Valid() && this.contents == contents && bufBlock == NO_BLOCK
      ensures fresh(file) && fresh(file.nindir) && fresh(file.blkno) && fresh(file.blk)
    {
      this.contents, this.frags, this.fsize := contents, frags, fsize;
      file := new File(contents.disk, contents.n, contents.inode);
      buf, bufBlock := [], NO_BLOCK;
    }

    /** buf_read_file: from the offset to the end of its block or of the file. */
    method BufRead(offset: nat) returns (status: Status, bytes: seq<Byte>)
      requires Valid() && offset < 0x1_0000_0000
      modifies this, file.blkno, file.blk
      ensures Valid()
      ensures status == if offset < contents.size then Ok else OutsideFile
      ensures status == Ok ==> 0 < |bytes| == Left(4 * contents.n, contents.size, offset) <= contents.size - offset
      ensures status == Ok ==> forall i :: 0 <= i < |bytes| ==> bytes[i] == contents.At(offset + i)
    {
      if offset >= contents.size {
        return OutsideFile, [];
      }
      var bsize := 4 * contents.n;
      var off, block := offset % bsize, offset / bsize;
      InsideBlock(bsize, fsize, frags, contents.size, offset);
      LeftInBlock(bsize, fsize, frags, contents.size, offset);
      contents.Within(offset);
      var blockSize := Size(block);
      if block != bufBlock {
        status := Load(block, blockSize);
        if status != Ok {
          return status, [];
        }
      }
      var size := blockSize - off;
      if size > contents.size - offset {
        size := contents.size - offset;
      }
      bytes := buf[off..off + size];
      forall i | 0 <= i < size ensures bytes[i] == contents.At(offset + i) {
        SameBlock(bsize, offset, i);
        assert bytes[i] == contents.Block(block)[off + i];
      }
      status := Ok;
    }

    method Load(block: nat, blockSize: nat) returns (status: Status)
      requires Valid() && block * (4 * contents.n) < contents.size && blockSize == Size(block) <= 4 * contents.n
      modifies this, file.blkno, file.blk
      ensures Valid() && status == Ok && bufBlock == block
    {
      assert contents.BlockReadable(block);
      var r := file.BlockMap(block);
      if r == NotInFile {
        return OutsideFile;
      }
      if r == DeviceError {
        return Broken;
      }
      if r.block == 0 {
        buf := seq(blockSize, _ => 0);
      } else {
        buf := contents.data[r.block][..blockSize];
      }
      bufBlock := block;
      status := Ok;
    }

    /** read_file: all or nothing counts as success, but what lies before the end
        of the file has been copied in any case. */
    method ReadFile(offset: nat, start: array<Byte>, size: nat) returns (status: Status, resid: nat)
      requires Valid() && offset < 0x1_0000_0000 && size <= start.Length
      modifies this, file.blkno, file.blk, start
      ensures Valid()
      ensures status == if size == 0 || offset + size <= contents.size then Ok else OutsideFile
      ensures status == Ok ==> resid == 0
      ensures forall i :: 0 <= i < size && offset + i < contents.size ==> start[i] == contents.At(offset + i)
      ensures forall i :: 0 <= i < start.Length && (size <= i || contents.size <= offset + i) ==>
        start[i] == old(start[i])
    {
      var done: nat := 0;
      resid := size;
      while done < size
        invariant Valid() && done <= size && (done > 0 ==> offset + done <= contents.size)
        invariant forall i :: 0 <= i < done ==> start[i] == contents.At(offset + i)
        invariant forall i :: done <= i < start.Length ==> start[i] == old(start[i])
        modifies this, file.blkno, file.blk, start
        decreases size - done
      {
        var bytes;
        status, bytes := BufRead(offset + done);
        if status != Ok {
          return;
        }
        var csize := size - done;
        if csize > |bytes| {
          csize := |bytes|;
        }
        CopyOut(start, done, bytes, csize, offset);
        done := done + csize;
      }
      status, resid := Ok, 0;
    }

    method CopyOut(start: array<Byte>, done: nat, bytes: seq<Byte>, csize: nat, ghost offset: nat)
      requires Shape() && done + csize <= start.Length && csize <= |bytes| && offset + done + |bytes| <= contents.size
      requires forall i :: 0 <= i < |bytes| ==> bytes[i] == contents.At(offset + done + i)
      requires forall i :: 0 <= i < done ==> start[i] == contents.At(offset + i)
      modifies start
      ensures forall i :: 0 <= i < done + csize ==> start[i] == contents.At(offset + i)
      ensures forall i :: done + csize <= i < start.Length ==> start[i] == old(start[i])
    {
      var k := 0;
      while k < csize
        invariant 0 <= k <= csize
        invariant forall i :: 0 <= i < done + k ==> start[i] == contents.At(offset + i)
        invariant forall i :: done + k <= i < start.Length ==> start[i] == old(start[i])
        modifies start
      {
        assert bytes[k] == contents.At(offset + done + k);
        start[done + k] := bytes[k];
        k := k + 1;
      }
    }
  }

  lemma SameBlock(bsize: nat, offset: nat, i: nat)
    requires 0 < bsize && offset % bsize + i < bsize
    ensures (offset + i) / bsize == offset / bsize && (offset + i) % bsize == offset % bsize + i
  {
    var q := offset / bsize;
    assert offset == q * bsize + offset % bsize;
    Remainder(offset + i, q, bsize);
  }
}
