/** block_map in bootstrap/file_io.c: the walk through the index tree with one
    buffered index block for every level. */
module FileBlockMap {
  import opened BlockTree

  /** The value a 32-bit int holds after a product wraps. */
  function Int32(x: int): int {
    (x + 0x8000_0000) % 0x1_0000_0000 - 0x8000_0000
  }

  /** NINDIR for the block sizes 2K, 4K and 8K. */
  predicate IsNindir(n: nat) { n == 512 || n == 1024 || n == 2048 }

  /** How many blocks block_map finds: the third level is lost where NINDIR**3
      does not fit an int. */
  function Reach(n: nat): nat {
    if n <= 1024 then TotalBlocks(n) else NDADDR + n + n * n
  }

  lemma Powers(n: nat)
    requires IsNindir(n)
    ensures Power(n, 0) == 1 && Power(n, 1) == n
    ensures Power(n, 2) == n * n && Int32(n * n) == n * n
    ensures Power(n, 3) == n * (n * n)
    ensures Int32(Int32(n * n) * n) == if n <= 1024 then n * n * n else 0
  {
    assert 512 * 512 == 262144 && 1024 * 1024 == 1048576 && 2048 * 2048 == 4194304;
  }

  /** The whole tree is reached exactly when NINDIR**3 fits an int. */
  lemma WholeTreeReached(n: nat)
    requires IsNindir(n)
    ensures Reach(n) == TotalBlocks(n) <==> Power(n, 3) < 0x8000_0000
    ensures n == 2048 ==> Reach(n) < TotalBlocks(n)
  {
    Powers(n);
    Depths(n);
  }

  /** Even so, every byte offset of 32 bits lies in a block that is reached. */
  lemma EveryOffsetReached(n: nat, offset: nat)
    requires IsNindir(n) && offset < 0x1_0000_0000
    ensures offset / (4 * n) < Reach(n)
  {
    Powers(n);
    Depths(n);
  }

  class File {
    /** What f_dev answers; no call fails once and succeeds later. */
    const disk: Disk
    const inode: Inode
    const n: nat
    /** f_nindir, f_blkno and f_blk */
    const nindir: array<int>
    const blkno: array<Daddr>
    const blk: array<seq<Daddr>>

    ghost predicate Valid()
      reads nindir, blkno, blk
    {
      && IsNindir(n) && Readable(disk, n) && IsInode(inode)
      && nindir.Length == NIADDR && blkno.Length == NIADDR && blk.Length == NIADDR
      && nindir != blkno
      && nindir[0] == n && nindir[1] == n * n && nindir[2] == (if n <= 1024 then n * n * n else 0)
      && forall level :: 0 <= level < NIADDR ==> Buffered(level)
    }

    /** A buffer is empty or holds what the device holds. */
    ghost predicate Buffered(level: int)
      requires 0 <= level < blkno.Length && level < blk.Length
      reads blkno, blk
    {
      blkno[level] == -1 || (blkno[level] in disk && blk[level] == disk[blkno[level]])
    }

    /** mount_fs fills the table of block counts; the buffers are clear. */
    constructor (disk: Disk, n: nat, inode: Inode)
      requires IsNindir(n) && Readable(disk, n) && IsInode(inode)
      ensures Valid() && fresh(nindir) && fresh(blkno) && fresh(blk)
      ensures this.disk == disk && this.n == n && this.inode == inode
    {
      this.disk, this.n, this.inode := disk, n, inode;
      nindir := new int[NIADDR];
      blkno := new Daddr[NIADDR](_ => -1);
      blk := new seq<Daddr>[NIADDR](_ => []);
      new;
      Powers(n);
      var mult, level := 1, 0;
      while level < NIADDR
        invariant 0 <= level <= NIADDR
        invariant mult == match level { case 0 => 1 case 1 => n case 2 => n * n case _ => Int32(n * n * n) }
        invariant level > 0 ==> nindir[0] == n
        invariant level > 1 ==> nindir[1] == n * n
        invariant level > 2 ==> nindir[2] == Int32(n * n * n)
        invariant forall l :: 0 <= l < NIADDR ==> blkno[l] == -1
        modifies nindir
      {
        mult := Int32(mult * n);
        nindir[level] := mult;
        level := level + 1;
      }
    }

    /** block_map: the buffers change nothing about the answer. */
    method BlockMap(fileBlock: nat) returns (r: Lookup)
      requires Valid()
      modifies blkno, blk
      ensures Valid()
      ensures fileBlock >= Reach(n) ==> r == NotInFile
      ensures fileBlock < Reach(n) ==>
        IsPath(n, PathTo(n, fileBlock)) && r == Walk(disk, n, inode, PathTo(n, fileBlock))
    {
      hide Readable, Follow, Indices;
      if fileBlock < NDADDR {
        return Mapped(inode.direct[fileBlock]);
      }
      Powers(n);
      Depths(n);
      var x := fileBlock - NDADDR;
      var level := 0;
      while level < NIADDR && x >= nindir[level]
        invariant 0 <= level <= NIADDR && 0 <= x
        invariant fileBlock == NDADDR + x + (if level > 0 then nindir[0] else 0)
          + (if level > 1 then nindir[1] else 0) + (if level > 2 then nindir[2] else 0)
      {
        x := x - nindir[level];
        level := level + 1;
      }
      if level == NIADDR {
        return NotInFile;
      }
      assert x < Power(n, level + 1) && PathTo(n, fileBlock) == Indirect(Indices(n, x, level + 1));
      PathOfBlock(n, fileBlock);
      r := Descend(level, x);
    }

    /** The index block, from the buffer of its level or else through it. */
    method Buffer(level: nat, block: Daddr) returns (r: Lookup, data: seq<Daddr>)
      requires Valid() && level < NIADDR && block != -1
      modifies blkno, blk
      ensures Valid()
      ensures r == if block in disk then Mapped(block) else DeviceError
      ensures block in disk ==> data == disk[block]
    {
      assert Buffered(level);
      if blkno[level] != block {
        if block !in disk {
          return DeviceError, [];
        }
        blkno[level], blk[level] := block, disk[block];
        forall l | 0 <= l < NIADDR ensures Buffered(l) {
          assert old(Buffered(l));
        }
      }
      return Mapped(block), blk[level];
    }

    /** The loop that goes down from the root of a tree: every index is below
        NINDIR, and an index block in its buffer is not read again. */
    method Descend(top: nat, leaf: nat) returns (r: Lookup)
      requires Valid() && top < NIADDR && leaf < Power(n, top + 1)
      requires AllBelow(n, Indices(n, leaf, top + 1))
      modifies blkno, blk
      ensures Valid()
      ensures r == Follow(disk, n, inode.indirect[top], Indices(n, leaf, top + 1))
    {
      Powers(n);
      var block := inode.indirect[top];
      var x: nat := leaf;
      var level: int := top;
      while level >= 0 && block != 0
        invariant -1 <= level <= top && block != -1 && Valid()
        invariant level >= 0 ==> x < Power(n, level + 1)
        invariant AllBelow(n, Indices(n, x, level + 1))
        invariant Follow(disk, n, block, Indices(n, x, level + 1)) == Follow(disk, n, inode.indirect[top],
          Indices(n, leaf, top + 1))
        modifies blkno, blk
        decreases level
      {
        ghost var indices := Indices(n, x, level + 1);
        var data;
        r, data := Buffer(level, block);
        if r == DeviceError { return; }
        var idx: nat;
        if level > 0 {
          assert nindir[level - 1] == Power(n, level);
          idx, x := x / nindir[level - 1], x % nindir[level - 1];
        } else {
          idx := x;
        }
        assert idx == indices[0] && indices[1..] == Indices(n, x, level);
        block, level := data[idx], level - 1;
      }
      return Mapped(block);
    }
  }
}
