/** The index tree of a file system inode (bootstrap/file_io.c, block_map): the
    paths through it, the file blocks they stand for, and a plain walk along a
    path that knows nothing of buffers. */
module BlockTree {

  /** Addresses held by the inode itself: direct blocks, and roots of index trees. */
  const NDADDR: nat := 12
  const NIADDR: nat := 3

  /** A disk block address; 0 stands for a hole. */
  type Daddr = int

  /** What index blocks hold. A block that is missing cannot be read. */
  type Disk = map<Daddr, seq<Daddr>>

  datatype Inode = Inode(direct: seq<Daddr>, indirect: seq<Daddr>)

  datatype Lookup = Mapped(block: Daddr) | NotInFile | DeviceError

  /** From the inode to a data block: an index into the direct addresses, or one
      index for every index block on the way. */
  datatype Path = Direct(i: nat) | Indirect(indices: seq<nat>)

  function Power(n: nat, k: nat): (p: nat)
    ensures 0 < n ==> 0 < p
  {
    if k == 0 then 1 else n * Power(n, k - 1)
  }

  predicate AllBelow(n: nat, indices: seq<nat>) {
    forall k :: 0 <= k < |indices| ==> indices[k] < n
  }

  predicate IsPath(n: nat, p: Path) {
    match p
    case Direct(i) => i < NDADDR
    case Indirect(indices) => 1 <= |indices| <= NIADDR && AllBelow(n, indices)
  }

  /** The file blocks with fewer than k indices on their path, after the direct ones. */
  function Shallower(n: nat, k: nat): nat {
    if k <= 1 then 0 else Power(n, k - 1) + Shallower(n, k - 1)
  }

  /** How many blocks a tree of that shape maps: 12 + n + n^2 + n^3. */
  function TotalBlocks(n: nat): nat {
    NDADDR + Shallower(n, NIADDR + 1)
  }

  /** Indices read as the digits of a number in base n. */
  function Value(n: nat, indices: seq<nat>): nat {
    if indices == [] then 0 else indices[0] * Power(n, |indices| - 1) + Value(n, indices[1..])
  }

  /** The file block at the end of a path. */
  function BlockAt(n: nat, p: Path): nat {
    match p
    case Direct(i) => i
    case Indirect(indices) => NDADDR + Shallower(n, |indices|) + Value(n, indices)
  }

  /** The k indices, outermost first, that lead to the x-th leaf. */
  function Indices(n: nat, x: nat, k: nat): (s: seq<nat>)
    requires 0 < n
    ensures |s| == k
  {
    if k == 0 then [] else [x / Power(n, k - 1)] + Indices(n, x % Power(n, k - 1), k - 1)
  }

  function PathTo(n: nat, b: nat): Path
    requires 0 < n
  {
    if b < NDADDR then Direct(b)
    else
      var x := b - NDADDR;
      if x < Power(n, 1) then Indirect(Indices(n, x, 1))
      else if x < Power(n, 1) + Power(n, 2) then Indirect(Indices(n, x - Power(n, 1), 2))
      else Indirect(Indices(n, x - Power(n, 1) - Power(n, 2), 3))
  }

  // ---- blocks and paths correspond one to one ----

  lemma {:induction false} ValueBound(n: nat, indices: seq<nat>)
    requires AllBelow(n, indices)
    ensures Value(n, indices) < Power(n, |indices|)
  {
    if indices != [] {
      var p := Power(n, |indices| - 1);
      ValueBound(n, indices[1..]);
      assert indices[0] * p + p <= n * p by {
        assert (indices[0] + 1) * p <= n * p;
      }
    }
  }

  lemma {:induction false} ValueOfIndices(n: nat, x: nat, k: nat)
    requires 0 < n && x < Power(n, k)
    ensures AllBelow(n, Indices(n, x, k)) && Value(n, Indices(n, x, k)) == x
  {
    if k > 0 {
      var p := Power(n, k - 1);
      ValueOfIndices(n, x % p, k - 1);
      DigitBelow(x, n, p);
      assert Indices(n, x, k)[1..] == Indices(n, x % p, k - 1);
    }
  }

  lemma Scaled(a: nat, b: nat, p: nat)
    ensures a <= b ==> a * p <= b * p
  {}

  lemma DigitBelow(x: nat, n: nat, p: nat)
    requires 0 < p && x < n * p
    ensures x / p < n && x / p * p + x % p == x
  {
    Scaled(n, x / p, p);
  }

  lemma DigitOf(d: nat, r: nat, p: nat)
    requires 0 < p && r < p
    ensures (d * p + r) / p == d && (d * p + r) % p == r
  {
    var x := d * p + r;
    assert x / p * p + x % p == x;
    Scaled(x / p + 1, d, p);
    Scaled(d + 1, x / p, p);
  }

  lemma {:induction false} IndicesOfValue(n: nat, indices: seq<nat>)
    requires 0 < n && AllBelow(n, indices)
    ensures Indices(n, Value(n, indices), |indices|) == indices
  {
    if indices != [] {
      var rest := indices[1..];
      var p := Power(n, |rest|);
      ValueBound(n, rest);
      DigitOf(indices[0], Value(n, rest), p);
      IndicesOfValue(n, rest);
    }
  }

  /** Every block below the total is at the end of its path. */
  lemma PathOfBlock(n: nat, b: nat)
    requires 0 < n && b < TotalBlocks(n)
    ensures IsPath(n, PathTo(n, b)) && BlockAt(n, PathTo(n, b)) == b
  {
    Depths(n);
    if b >= NDADDR {
      var x := b - NDADDR;
      if x < Power(n, 1) {
        ValueOfIndices(n, x, 1);
      } else if x < Power(n, 1) + Power(n, 2) {
        ValueOfIndices(n, x - Power(n, 1), 2);
      } else {
        ValueOfIndices(n, x - Power(n, 1) - Power(n, 2), 3);
      }
    }
  }

  /** Every path is the one to the block at its end: no two paths share a block. */
  lemma BlockOfPath(n: nat, p: Path)
    requires 0 < n && IsPath(n, p)
    ensures BlockAt(n, p) < TotalBlocks(n) && PathTo(n, BlockAt(n, p)) == p
  {
    Depths(n);
    if p.Indirect? {
      ValueBound(n, p.indices);
      IndicesOfValue(n, p.indices);
    }
  }

  lemma Depths(n: nat)
    ensures Shallower(n, 1) == 0 && Shallower(n, 2) == Power(n, 1)
    ensures Shallower(n, 3) == Power(n, 2) + Power(n, 1)
    ensures Shallower(n, 4) == Power(n, 3) + Power(n, 2) + Power(n, 1)
    ensures Power(n, 1) == n && Power(n, 2) == n * n && Power(n, 3) == n * (n * n)
  {}

  // ---- the walk ----

  /** Index blocks that can be read hold n addresses, none of them -1. */
  ghost predicate Readable(disk: Disk, n: nat) {
    forall b :: b in disk ==> |disk[b]| == n && forall k :: 0 <= k < n ==> disk[b][k] != -1
  }

  /** From a block down the given indices; a hole on the way is a hole. */
  function Follow(disk: Disk, n: nat, block: Daddr, indices: seq<nat>): Lookup
    requires Readable(disk, n) && AllBelow(n, indices)
    decreases |indices|
  {
    if indices == [] then Mapped(block)
    else if block == 0 then Mapped(0)
    else if block !in disk then DeviceError
    else Follow(disk, n, disk[block][indices[0]], indices[1..])
  }

  ghost predicate IsInode(inode: Inode) {
    && |inode.direct| == NDADDR && |inode.indirect| == NIADDR
    && forall k :: 0 <= k < NIADDR ==> inode.indirect[k] != -1
  }

  function Walk(disk: Disk, n: nat, inode: Inode, p: Path): Lookup
    requires Readable(disk, n) && IsInode(inode) && IsPath(n, p)
  {
    match p
    case Direct(i) => Mapped(inode.direct[i])
    case Indirect(indices) => Follow(disk, n, inode.indirect[|indices| - 1], indices)
  }

  /** One index further on: the entry of an index block, if there is a block. */
  function Entry(disk: Disk, at: Lookup, i: nat): Lookup {
    if !at.Mapped? || at.block == 0 then at
    else if at.block !in disk || i >= |disk[at.block]| then DeviceError
    else Mapped(disk[at.block][i])
  }

  /** The walk to a block, spelled out: first the direct addresses, then n blocks
      behind one index block, n^2 behind two, and n^3 behind three. */
  lemma WalkInFull(disk: Disk, n: nat, inode: Inode, b: nat, i: nat, j: nat, k: nat)
    requires Readable(disk, n) && IsInode(inode) && i < n && j < n && k < n
    ensures b < NDADDR ==> IsPath(n, PathTo(n, b)) && Walk(disk, n, inode, PathTo(n, b)) == Mapped(inode.direct[b])
    ensures b == NDADDR + k ==>
      IsPath(n, PathTo(n, b)) && Walk(disk, n, inode, PathTo(n, b)) == Entry(disk, Mapped(inode.indirect[0]), k)
    ensures b == NDADDR + n + j * n + k ==>
      IsPath(n, PathTo(n, b)) &&
      Walk(disk, n, inode, PathTo(n, b)) == Entry(disk, Entry(disk, Mapped(inode.indirect[1]), j), k)
    ensures b == NDADDR + n + n * n + i * (n * n) + j * n + k ==>
      IsPath(n, PathTo(n, b)) &&
      Walk(disk, n, inode, PathTo(n, b)) ==
        Entry(disk, Entry(disk, Entry(disk, Mapped(inode.indirect[2]), i), j), k)
  {
    PathInFull(n, b, i, j, k);
    OneIndex(disk, n, inode.indirect[0], k);
    TwoIndices(disk, n, inode.indirect[1], j, k);
    ThreeIndices(disk, n, inode.indirect[2], i, j, k);
    hide PathTo, Follow, Entry;
  }

  lemma PathInFull(n: nat, b: nat, i: nat, j: nat, k: nat)
    requires i < n && j < n && k < n
    ensures b == NDADDR + k ==> PathTo(n, b) == Indirect([k])
    ensures b == NDADDR + n + j * n + k ==> PathTo(n, b) == Indirect([j, k])
    ensures b == NDADDR + n + n * n + i * (n * n) + j * n + k ==> PathTo(n, b) == Indirect([i, j, k])
  {
    Depths(n);
    assert Power(n, 0) == 1;
    hide PathTo, Power;
    BlockOfPath(n, Indirect([k]));
    BlockOfPath(n, Indirect([j, k]));
    BlockOfPath(n, Indirect([i, j, k]));
    ValueInFull(n, i, j, k);
  }

  lemma ValueInFull(n: nat, i: nat, j: nat, k: nat)
    ensures Value(n, [k]) == k * Power(n, 0)
    ensures Value(n, [j, k]) == j * Power(n, 1) + k * Power(n, 0)
    ensures Value(n, [i, j, k]) == i * Power(n, 2) + j * Power(n, 1) + k * Power(n, 0)
  {
    hide Power;
    assert [k][1..] == [] && [j, k][1..] == [k] && [i, j, k][1..] == [j, k];
  }

  lemma OneIndex(disk: Disk, n: nat, root: Daddr, k: nat)
    requires Readable(disk, n) && k < n
    ensures Follow(disk, n, root, [k]) == Entry(disk, Mapped(root), k)
  {
    if root != 0 && root in disk {
      assert Follow(disk, n, root, [k]) == Follow(disk, n, disk[root][k], [k][1..]);
    }
  }

  lemma TwoIndices(disk: Disk, n: nat, root: Daddr, j: nat, k: nat)
    requires Readable(disk, n) && j < n && k < n
    ensures Follow(disk, n, root, [j, k]) == Entry(disk, Entry(disk, Mapped(root), j), k)
  {
    if root != 0 && root in disk {
      assert [j, k][1..] == [k];
      OneIndex(disk, n, disk[root][j], k);
    }
  }

  lemma ThreeIndices(disk: Disk, n: nat, root: Daddr, i: nat, j: nat, k: nat)
    requires Readable(disk, n) && i < n && j < n && k < n
    ensures Follow(disk, n, root, [i, j, k]) == Entry(disk, Entry(disk, Entry(disk, Mapped(root), i), j), k)
  {
    if root != 0 && root in disk {
      assert [i, j, k][1..] == [j, k];
      TwoIndices(disk, n, disk[root][i], j, k);
    }
  }
}
