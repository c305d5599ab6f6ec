/** Page transfers of the default pager through the list of disk blocks of its
    paging file: page_read_file_direct and page_write_file_direct in
    bootstrap/file_io.c, and the loops of default_read, default_write and
    pager_move_page around them. All sizes count device records (DEV_BSIZE). */
module DirectIO {

  type Record = int

  datatype Status = Ok | NotInFile | DeviceFailed

  // ---- where the pieces of a page lie ----

  function Least(a: nat, b: nat): nat { if a < b then a else b }

  /** What a device does with a request for n records: at least one of them. */
  function Transferred(progress: seq<nat>, n: nat): (t: nat)
    ensures t <= n && (n > 0 ==> t > 0)
  {
    if progress == [] || progress[0] >= n then n else if progress[0] == 0 && n > 0 then 1 else progress[0]
  }

  function Later(progress: seq<nat>): seq<nat> {
    if progress == [] then [] else progress[1..]
  }

  /** The loop over a page never asks for records beyond the block it is in. */
  ghost predicate Fits(x: nat, rest: nat, block: nat, progress: seq<nat>)
    requires 0 < block
    decreases rest
  {
    rest > 0 ==>
      var n := Least(rest, block);
      var t := Transferred(progress, n);
      x % block + n <= block && Fits(x + t, rest - t, block, Later(progress))
  }

  lemma FitsStep(x: nat, rest: nat, block: nat, progress: seq<nat>)
    requires 0 < block && 0 < rest && Fits(x, rest, block, progress)
    ensures var n := Least(rest, block); var t := Transferred(progress, n);
      0 < t <= n <= rest && x % block + n <= block && Fits(x + t, rest - t, block, Later(progress))
  {}

  /** As long as more than a block is left, whole blocks are transferred. */
  predicate NoneShort(rest: nat, block: nat, progress: seq<nat>)
    requires 0 < block
  {
    rest <= block || (Transferred(progress, block) == block && NoneShort(rest - block, block, Later(progress)))
  }

  /** Where the loop stands inside its block. */
  ghost predicate WellPlaced(x: nat, rest: nat, block: nat)
    requires 0 < block
  {
    if rest <= block then x % block + rest <= block else x % block == 0
  }

  ghost predicate Divides(a: nat, b: nat) { exists m: nat :: b == m * a }

  lemma Step(x: nat, t: nat, block: nat)
    requires 0 < block && x % block + t <= block
    ensures (x + t) % block == if x % block + t == block then 0 else x % block + t
  {
    var q := x / block;
    assert x == q * block + x % block;
    if x % block + t == block {
      Digits(x + t, q + 1, 0, block);
    } else {
      Digits(x + t, q, x % block + t, block);
    }
  }

  lemma Digits(x: nat, q: nat, r: nat, n: nat)
    requires 0 < n && r < n && x == q * n + r
    ensures x / n == q && x % n == r
  {
    assert x == x / n * n + x % n;
    Ordered(x / n, q + 1, n);
    Ordered(q, x / n + 1, n);
  }

  lemma Ordered(a: nat, b: nat, n: nat)
    requires a * n < b * n
    ensures a < b
  {}

  lemma SmallPage(page: nat, size: nat, block: nat, m: nat)
    requires 0 < size && 0 < block == m * size
    ensures size <= block && page * size % block + size <= block
  {
    assert 0 < m;
    var q, r := page / m, page % m;
    Scaled(1, m, size);
    Scaled(r + 1, m, size);
    Regroup(page, q, m, r, size);
    assert (r + 1) * size == r * size + size;
    Digits(page * size, q, r * size, block);
  }

  lemma Scaled(a: nat, b: nat, n: nat)
    requires a <= b
    ensures a * n <= b * n
  {}

  lemma Regroup(page: nat, q: nat, m: nat, r: nat, size: nat)
    requires page == q * m + r
    ensures page * size == q * (m * size) + r * size
  {}

  lemma BigPage(page: nat, size: nat, block: nat, m: nat)
    requires 0 < block && size == m * block
    ensures page * size % block == 0
  {
    assert page * size == (page * m) * block + 0;
    Digits(page * size, page * m, 0, block);
  }

  /** A page starts well placed when pages and blocks divide one another. */
  lemma PageStarts(page: nat, size: nat, block: nat)
    requires 0 < size && 0 < block && (Divides(size, block) || Divides(block, size))
    ensures WellPlaced(page * size, size, block)
  {
    if Divides(block, size) {
      var m: nat :| size == m * block;
      BigPage(page, size, block, m);
    } else {
      var m: nat :| block == m * size;
      SmallPage(page, size, block, m);
    }
  }

  /** From a well placed start every piece stays in its block exactly when no
      transfer is short before the last block of the page. */
  lemma {:induction false} FitsExactly(x: nat, rest: nat, block: nat, progress: seq<nat>)
    requires 0 < block && WellPlaced(x, rest, block)
    ensures Fits(x, rest, block, progress) <==> NoneShort(rest, block, progress)
    decreases rest
  {
    if rest > 0 {
      var n := Least(rest, block);
      var t := Transferred(progress, n);
      Step(x, t, block);
      if rest <= block || t == block {
        FitsExactly(x + t, rest - t, block, Later(progress));
      } else {
        assert (x + t) % block == t;
      }
    }
  }

  /** For one schedule of the device, the pieces of a page stay in their blocks
      exactly when none is short before the last block of the page. */
  lemma PageFits(page: nat, size: nat, block: nat, progress: seq<nat>)
    requires 0 < size && 0 < block && (Divides(size, block) || Divides(block, size))
    ensures Fits(page * size, size, block, progress) <==> NoneShort(size, block, progress)
  {
    PageStarts(page, size, block);
    FitsExactly(page * size, size, block, progress);
  }

  /** Whatever the device does, the pieces stay in their blocks. */
  ghost predicate AlwaysFits(x: nat, size: nat, block: nat)
    requires 0 < block
  {
    forall progress: seq<nat> :: Fits(x, size, block, progress)
  }

  /** Blocks of one record cannot be left in their middle. */
  lemma {:induction false} OneRecordIsWhole(rest: nat, progress: seq<nat>)
    ensures NoneShort(rest, 1, progress)
  {
    if rest > 1 {
      OneRecordIsWhole(rest - 1, Later(progress));
    }
  }

  /** Page transfers stay in their disk blocks whatever the device does exactly
      when a page is not larger than a block, or a block is a single record. */
  lemma AlwaysFitsExactly(page: nat, size: nat, block: nat)
    requires 0 < size && 0 < block && (Divides(size, block) || Divides(block, size))
    ensures AlwaysFits(page * size, size, block) <==> size <= block || block == 1
  {
    if size <= block || block == 1 {
      forall progress: seq<nat> ensures Fits(page * size, size, block, progress) {
        PageFits(page, size, block, progress);
        if block == 1 { OneRecordIsWhole(size, progress); }
      }
    } else {
      PageFits(page, size, block, [1]);
      assert Transferred([1], block) == 1;
    }
  }

  /** A device that stops after one record makes every page of several blocks
      of several records run into the next block. */
  lemma ShortTransferOverruns(page: nat, size: nat, block: nat)
    requires 1 < block < size && Divides(block, size)
    ensures !Fits(page * size, size, block, [1])
  {
    PageFits(page, size, block, [1]);
    assert Transferred([1], block) == 1;
  }

  // ---- the transfers ----

  class DirectFile {
    const device: array<Record>
    /** fd_blocks: disk addresses of the blocks; a raw device has none. */
    const blocks: seq<nat>
    const raw: bool
    /** fd_size; records in a block, addresses in a block, records per address. */
    const count: nat
    const block: nat
    const frag: nat
    const unit: nat

    function Address(i: nat): nat
      requires raw || i < |blocks|
    {
      if raw then i else blocks[i]
    }

    predicate IsHole(i: nat)
      requires raw || i < |blocks|
    {
      !raw && Address(i) == 0
    }

    /** A paging file has a disk block for each of its blocks. */
    ghost predicate Solid()
      requires Valid()
    {
      forall i: nat :: i < count ==> !IsHole(i)
    }

    ghost predicate Valid() {
      && 0 < frag && 0 < unit && 0 < block && block == frag * unit
      && (if raw then frag == 1 else |blocks| == count)
      && (forall i: nat :: i < count ==> Address(i) % frag == 0)
      && (forall i: nat, j: nat :: i < j < count ==> Address(i) != Address(j) || IsHole(i))
      && (forall i: nat :: i < count ==> Address(i) * unit + block <= device.Length)
    }

    lemma Within(x: nat)
      requires 0 < block && x < count * block
      ensures x / block < count && x == x / block * block + x % block
    {
      Ordered(x / block, count, block);
    }

    /** fdir_fsbtodb: where a block starts on the device. */
    function Start(i: nat): nat
      requires raw || i < |blocks|
    {
      Address(i) * unit
    }

    /** The device record that holds record x of the file. */
    function Home(x: nat): (r: nat)
      requires Valid() && x < count * block
    {
      Within(x);
      Start(x / block) + x % block
    }

    /** A record lies in the listed disk block of its file block, at the same place in
        it; on a raw device it lies where it is. */
    lemma HomeIsListed(x: nat)
      requires Valid() && x < count * block
      ensures raw ==> Home(x) == x
      ensures !raw ==> x / block < |blocks| && Home(x) == blocks[x / block] * unit + x % block
    {
      Within(x);
      if raw {
        assert block == unit;
      }
    }

    lemma HomeInside(x: nat)
      requires Valid() && x < count * block
      ensures Home(x) < device.Length
    {
      Within(x);
      assert Address(x / block) * unit + block <= device.Length;
    }

    lemma AddressesDiffer(i: nat, j: nat)
      requires Valid() && Solid() && i < j < count
      ensures Address(i) != Address(j)
    {
      assert !IsHole(i);
    }

    lemma BlocksApart(i: nat, j: nat)
      requires Valid() && Solid() && i < count && j < count && i != j
      ensures Start(i) + block <= Start(j) || Start(j) + block <= Start(i)
    {
      var a, b := Address(i), Address(j);
      AddressesDiffer(if i < j then i else j, if i < j then j else i);
      Spacing(a, b, frag, unit);
      Spacing(b, a, frag, unit);
    }

    static lemma Spacing(a: nat, b: nat, frag: nat, unit: nat)
      requires 0 < frag && a % frag == 0 && b % frag == 0
      ensures a < b ==> a * unit + frag * unit <= b * unit
    {
      if a < b {
        assert a == a / frag * frag && b == b / frag * frag;
        Ordered(a / frag, b / frag, frag);
        Scaled(a / frag + 1, b / frag, frag);
        assert (a / frag + 1) * frag == a + frag;
        Scaled(a + frag, b, unit);
        assert (a + frag) * unit == a * unit + frag * unit;
      }
    }

    /** No two records of the file share a record of the device. */
    lemma HomesDiffer(x: nat, y: nat)
      requires Valid() && Solid() && x < count * block && y < count * block && x != y
      ensures Home(x) != Home(y)
    {
      var i, j := x / block, y / block;
      Within(x);
      Within(y);
      hide Start, Solid, Valid;
      if i != j {
        BlocksApart(i, j);
      }
    }

    /** Within a block records follow one another. */
    lemma HomeRuns(x: nat, i: nat)
      requires Valid() && x < count * block && x % block + i < block
      ensures x + i < count * block && Home(x + i) == Home(x) + i
    {
      Within(x);
      Digits(x + i, x / block, x % block + i, block);
      Scaled(x / block + 1, count, block);
      assert (x / block + 1) * block == x / block * block + block;
      hide Start;
    }

    method DeviceRead(start: nat, n: nat, progress: seq<nat>) returns (status: Status, data: seq<Record>)
      ensures status == if start + n <= device.Length then Ok else DeviceFailed
      ensures status == Ok ==> start + n <= device.Length && data == device[start..start + Transferred(progress, n)]
    {
      if start + n > device.Length {
        return DeviceFailed, [];
      }
      return Ok, device[start..start + Transferred(progress, n)];
    }

    method DeviceWrite(start: nat, data: seq<Record>, progress: seq<nat>) returns (status: Status, written: nat)
      modifies device
      ensures status == if start + |data| <= device.Length then Ok else DeviceFailed
      ensures status == Ok ==> written == Transferred(progress, |data|)
      ensures status != Ok ==> written == 0
      ensures forall r :: 0 <= r < device.Length ==> device[r] == if start <= r < start + written then data[r - start]
        else old(device[r])
    {
      if start + |data| > device.Length {
        return DeviceFailed, 0;
      }
      written := Transferred(progress, |data|);
      forall r | start <= r < start + written {
        device[r] := data[r - start];
      }
      status := Ok;
    }

    /** page_read_file_direct */
    method ReadPiece(x: nat, size: nat, progress: seq<nat>) returns (status: Status, data: seq<Record>)
      requires Valid()
      ensures x >= count * block ==> status == NotInFile
      ensures x < count * block && (Within(x); IsHole(x / block)) ==> status == NotInFile
      ensures status == Ok ==> |data| == Transferred(progress, Least(size, block))
      ensures x < count * block && (Within(x); !IsHole(x / block)) && x % block + Least(size, block) <= block ==>
        status == Ok && Home(x) + Least(size, block) <= device.Length
        && data == device[Home(x)..Home(x) + Transferred(progress, Least(size, block))]
    {
      if x >= count * block {
        return NotInFile, [];
      }
      Within(x);
      var off, fileBlock := x % block, x / block;
      var address := Address(fileBlock);
      if !raw && address == 0 {
        return NotInFile, [];
      }
      HomeInside(x);
      assert address * unit + block <= device.Length;
      status, data := DeviceRead(address * unit + off, Least(size, block), progress);
    }

    /** page_write_file_direct */
    method WritePiece(x: nat, data: seq<Record>, progress: seq<nat>) returns (status: Status, written: nat)
      requires Valid()
      modifies device
      ensures x >= count * block ==> status == NotInFile && unchanged(device)
      ensures x < count * block && (Within(x); IsHole(x / block)) ==> status == NotInFile && unchanged(device)
      ensures status == Ok ==> written == Transferred(progress, Least(|data|, block))
      ensures x < count * block && (Within(x); !IsHole(x / block)) && x % block + Least(|data|, block) <= block ==>
        && status == Ok && written == Transferred(progress, Least(|data|, block)) && Home(x) + written <= device.Length
        && forall r :: 0 <= r < device.Length ==>
          device[r] == if Home(x) <= r < Home(x) + written then data[r - Home(x)] else old(device[r])
    {
      if x >= count * block {
        return NotInFile, 0;
      }
      Within(x);
      var off, fileBlock := x % block, x / block;
      var address := Address(fileBlock);
      if !raw && address == 0 {
        return NotInFile, 0;
      }
      assert address * unit + block <= device.Length;
      status, written := DeviceWrite(address * unit + off, data[..Least(|data|, block)], progress);
    }

    ghost predicate HoldsAt(now: seq<Record>, x: nat, v: Record)
      requires Valid()
    {
      x < count * block && Home(x) < |now| && now[Home(x)] == v
    }

    /** From record x of the file on a device with these contents holds `data`. */
    ghost predicate HoldsFrom(now: seq<Record>, x: nat, data: seq<Record>)
      requires Valid()
    {
      forall i: nat :: i < |data| ==> HoldsAt(now, x + i, data[i])
    }

    /** The record belongs to none of n records of the file. */
    ghost predicate Outside(r: int, x: nat, n: nat)
      requires Valid() && x + n <= count * block
    {
      forall y: nat :: x <= y < x + n ==> Home(y) != r
    }

    /** Only n records of the file may have changed. */
    ghost predicate OnlyWithin(before: seq<Record>, now: seq<Record>, x: nat, n: nat)
      requires Valid() && x + n <= count * block
    {
      |now| == |before| && forall r :: 0 <= r < |now| && Outside(r, x, n) ==> now[r] == before[r]
    }

    /** `piece` has been written where a run within one block lies. */
    ghost predicate Written(before: seq<Record>, now: seq<Record>, h: nat, piece: seq<Record>) {
      && |now| == |before| && h + |piece| <= |now|
      && forall r :: 0 <= r < |now| ==> now[r] == if h <= r < h + |piece| then piece[r - h] else before[r]
    }

    /** A record of the file outside a run within one block is not in it. */
    lemma NotInRun(x: nat, n: nat, y: nat)
      requires Valid() && Solid() && x % block + n <= block && x < count * block && y < count * block &&
        (y < x || x + n <= y)
      ensures Home(y) < Home(x) || Home(x) + n <= Home(y)
    {
      if Home(x) <= Home(y) < Home(x) + n {
        HomeRuns(x, Home(y) - Home(x));
        HomesDiffer(y, x + (Home(y) - Home(x)));
      }
    }

    lemma RunHolds(now: seq<Record>, x: nat, piece: seq<Record>)
      requires Valid() && x < count * block && x % block + |piece| <= block && Home(x) + |piece| <= |now|
      requires forall r :: Home(x) <= r < Home(x) + |piece| ==> now[r] == piece[r - Home(x)]
      ensures HoldsFrom(now, x, piece)
    {
      forall i: nat | i < |piece| ensures HoldsAt(now, x + i, piece[i]) {
        HomeRuns(x, i);
        assert now[Home(x) + i] == piece[i];
      }
    }

    lemma Joined(now: seq<Record>, x: nat, s: seq<Record>, t: seq<Record>)
      requires Valid() && HoldsFrom(now, x, s) && HoldsFrom(now, x + |s|, t)
      ensures HoldsFrom(now, x, s + t)
    {
      forall i: nat | i < |s + t| ensures HoldsAt(now, x + i, (s + t)[i]) {
        assert i >= |s| ==> HoldsAt(now, x + |s| + (i - |s|), t[i - |s|]);
      }
    }

    lemma Nothing(now: seq<Record>, x: nat)
      requires Valid()
      ensures HoldsFrom(now, x, [])
    {}

    lemma EarlierKept(before: seq<Record>, now: seq<Record>, first: nat, data: seq<Record>, x: nat, piece: seq<Record>)
      requires Valid() && Solid() && x == first + |data| && x < count * block && x % block + |piece| <= block
      requires HoldsFrom(before, first, data) && Written(before, now, Home(x), piece)
      ensures HoldsFrom(now, first, data)
    {
      forall i: nat | i < |data| ensures HoldsAt(now, first + i, data[i]) {
        assert HoldsAt(before, first + i, data[i]);
        NotInRun(x, |piece|, first + i);
      }
    }

    lemma OnlyRun(start: seq<Record>, before: seq<Record>, now: seq<Record>, first: nat, size: nat, x: nat,
      piece: seq<Record>)
      requires Valid() && first <= x && x + |piece| <= first + size <= count * block && x < count * block &&
        x % block + |piece| <= block
      requires OnlyWithin(start, before, first, size) && Written(before, now, Home(x), piece)
      ensures OnlyWithin(start, now, first, size)
    {
      forall r | 0 <= r < |now| && Outside(r, first, size) ensures now[r] == start[r] {
        if Home(x) <= r < Home(x) + |piece| {
          HomeRuns(x, r - Home(x));
        }
      }
    }

    /** The loop of default_read over a page that starts at record `first`. */
    method ReadRun(first: nat, size: nat, schedule: seq<nat>) returns (status: Status, data: seq<Record>)
      requires Valid() && Solid() && 0 < size && first + size <= count * block
      ensures status == Ok ==> |data| == size
      ensures Fits(first, size, block, schedule) ==> status == Ok && HoldsFrom(device[..], first, data)
    {
      hide Home, Fits, HoldsFrom, Valid;
      ghost var fits := Fits(first, size, block, schedule);
      var progress := schedule;
      data := [];
      Nothing(device[..], first);
      while |data| < size
        invariant |data| <= size
        invariant fits ==> Fits(first + |data|, size - |data|, block, progress) && HoldsFrom(device[..], first, data)
        decreases size - |data|
      {
        var piece;
        status, piece := ReadSome(first + |data|, size - |data|, progress);
        if status != Ok {
          return;
        }
        if fits { Joined(device[..], first, data, piece); }
        data := data + piece;
        progress := Later(progress);
      }
      status := Ok;
    }

    method ReadSome(x: nat, rest: nat, progress: seq<nat>) returns (status: Status, piece: seq<Record>)
      requires Valid() && Solid() && 0 < rest && x + rest <= count * block
      ensures status == Ok ==> 0 < |piece| <= rest
      ensures Fits(x, rest, block, progress) ==>
        status == Ok && HoldsFrom(device[..], x, piece) && Fits(x + |piece|, rest - |piece|, block, Later(progress))
    {
      Within(x);
      assert !IsHole(x / block);
      ghost var fits := Fits(x, rest, block, progress);
      if fits { FitsStep(x, rest, block, progress); }
      hide Fits, Solid;
      status, piece := ReadPiece(x, rest, progress);
      if fits { RunHolds(device[..], x, piece); }
    }

    method ReadOne(x: nat, size: nat, progress: seq<nat>) returns (piece: seq<Record>)
      requires Valid() && Solid() && 0 < size && x + size <= count * block
      requires x % block + Least(size, block) <= block
      ensures x < count * block && Home(x) + |piece| <= device.Length && piece == device[Home(x)..Home(x) + |piece|]
      ensures |piece| == Transferred(progress, Least(size, block)) && 0 < |piece| <= size
    {
      Within(x);
      assert !IsHole(x / block);
      hide Solid;
      var status;
      status, piece := ReadPiece(x, size, progress);
    }

    /** The loop of default_write: when its pieces fit their blocks, the page is
        where its records are and no other record of the device has changed. */
    method WriteRun(first: nat, data: seq<Record>, schedule: seq<nat>) returns (status: Status)
      requires Valid() && Solid() && 0 < |data| && first + |data| <= count * block
      modifies device
      ensures Fits(first, |data|, block, schedule) ==>
        status == Ok && HoldsFrom(device[..], first, data) && OnlyWithin(old(device[..]), device[..], first, |data|)
    {
      ghost var start := device[..];
      ghost var fits := Fits(first, |data|, block, schedule);
      assert OnlyWithin(start, start, first, |data|);
      hide Home, Fits, HoldsFrom, OnlyWithin, Valid;
      var done: nat := 0;
      var progress := schedule;
      Nothing(device[..], first);
      assert data[..0] == [];
      while done < |data|
        invariant done <= |data|
        invariant fits ==> Fits(first + done, |data| - done, block, progress)
        invariant fits ==> HoldsFrom(device[..], first, data[..done]) && OnlyWithin(start, device[..], first, |data|)
        modifies device
        decreases |data| - done
      {
        ghost var before := device[..];
        var x := first + done;
        if fits { FitsStep(x, |data| - done, block, progress); }
        var written;
        status, written := WriteSome(x, data[done..], progress);
        if status != Ok {
          return;
        }
        if fits { Assembled(start, before, device[..], first, done, data, x, written); }
        done := done + written;
        progress := Later(progress);
      }
      assert data[..|data|] == data;
      status := Ok;
    }

    method WriteSome(x: nat, data: seq<Record>, progress: seq<nat>) returns (status: Status, written: nat)
      requires Valid() && Solid() && 0 < |data| && x + |data| <= count * block
      modifies device
      ensures status == Ok ==> 0 < written <= |data| && written == Transferred(progress, Least(|data|, block))
      ensures x % block + Least(|data|, block) <= block ==>
        status == Ok && x < count * block && Written(old(device[..]), device[..], Home(x), data[..written])
    {
      Within(x);
      assert !IsHole(x / block);
      hide Solid;
      status, written := WritePiece(x, data, progress);
    }

    /** What a written piece adds up to. */
    lemma Assembled(start: seq<Record>, before: seq<Record>, now: seq<Record>, first: nat, done: nat,
      data: seq<Record>, x: nat, written: nat)
      requires Valid() && Solid() && 0 < written && done + written <= |data| && first + |data| <= count * block &&
        x == first + done
      requires x % block + written <= block && x < count * block
      requires HoldsFrom(before, first, data[..done]) && OnlyWithin(start, before, first, |data|)
      requires Written(before, now, Home(x), data[done..][..written])
      ensures HoldsFrom(now, first, data[..done + written]) && OnlyWithin(start, now, first, |data|)
    {
      var piece := data[done..][..written];
      assert data[..done + written] == data[..done] + piece;
      EarlierKept(before, now, first, data[..done], x, piece);
      RunHolds(now, x, piece);
      hide Home, HoldsFrom, Outside, Solid, OnlyWithin, Valid, Written;
      Joined(now, first, data[..done], piece);
      OnlyRun(start, before, now, first, |data|, x, piece);
    }

    /** default_write: page `page` of the partition gets these contents, unless a
        transfer is short before its last block. */
    method WritePage(page: nat, data: seq<Record>, schedule: seq<nat>) returns (status: Status)
      requires Valid() && Solid() && 0 < |data| && page * |data| + |data| <= count * block
      requires Divides(|data|, block) || Divides(block, |data|)
      modifies device
      ensures NoneShort(|data|, block, schedule) || block == 1 ==>
        && status == Ok && HoldsFrom(device[..], page * |data|, data)
        && OnlyWithin(old(device[..]), device[..], page * |data|, |data|)
    {
      PageFits(page, |data|, block, schedule);
      if block == 1 { OneRecordIsWhole(|data|, schedule); }
      hide Fits, NoneShort, HoldsFrom, OnlyWithin, Valid, Solid, Divides;
      status := WriteRun(page * |data|, data, schedule);
    }

    /** default_read */
    method ReadPage(page: nat, size: nat, schedule: seq<nat>) returns (status: Status, data: seq<Record>)
      requires Valid() && Solid() && 0 < size && page * size + size <= count * block
      requires Divides(size, block) || Divides(block, size)
      ensures status == Ok ==> |data| == size
      ensures NoneShort(size, block, schedule) || block == 1 ==>
        status == Ok && HoldsFrom(device[..], page * size, data)
    {
      PageFits(page, size, block, schedule);
      if block == 1 { OneRecordIsWhole(size, schedule); }
      hide Fits, NoneShort, HoldsFrom, Valid, Solid, Divides;
      status, data := ReadRun(page * size, size, schedule);
    }

    /** Writing one page leaves every other as it was. */
    lemma OtherPagesKept(before: seq<Record>, now: seq<Record>, page: nat, other: nat, size: nat, data: seq<Record>)
      requires Valid() && Solid() && page != other && |data| == size
      requires page * size + size <= count * block && other * size + size <= count * block
      requires OnlyWithin(before, now, page * size, size) && HoldsFrom(before, other * size, data)
      ensures HoldsFrom(now, other * size, data)
    {
      var x, z := page * size, other * size;
      assert x + size <= z || z + size <= x by {
        if page < other {
          Scaled(page + 1, other, size);
          assert (page + 1) * size == x + size;
        } else {
          Scaled(other + 1, page, size);
          assert (other + 1) * size == z + size;
        }
      }
      KeptOutside(before, now, x, z, size, data);
    }

    lemma KeptOutside(before: seq<Record>, now: seq<Record>, x: nat, z: nat, size: nat, data: seq<Record>)
      requires Valid() && Solid() && |data| == size && (x + size <= z || z + size <= x)
      requires x + size <= count * block && z + size <= count * block
      requires OnlyWithin(before, now, x, size) && HoldsFrom(before, z, data)
      ensures HoldsFrom(now, z, data)
    {
      hide Home, Valid, Solid;
      forall i: nat | i < |data| ensures HoldsAt(now, z + i, data[i]) {
        assert HoldsAt(before, z + i, data[i]);
        forall y: nat | x <= y < x + size ensures Home(y) != Home(z + i) {
          HomesDiffer(y, z + i);
        }
      }
    }
  }

  // ---- a page moves to another file ----

  /** How much of a page pager_move_page copies: it asks each side once. */
  function Moved(size: nat, from: nat, to: nat, reading: seq<nat>, writing: seq<nat>): (m: nat)
    ensures m <= size
  {
    Transferred(writing, Least(Transferred(reading, Least(size, from)), to))
  }

  /** Two paging files, on one device or two, have no disk block in common. */
  ghost predicate Disjoint(source: DirectFile, target: DirectFile)
    requires source.Valid() && target.Valid()
  {
    source.device == target.device ==>
      forall i: nat, j: nat :: i < source.count && j < target.count ==>
        source.Start(i) + source.block <= target.Start(j) || target.Start(j) + target.block <= source.Start(i)
  }

  lemma HomesApart(source: DirectFile, target: DirectFile, x: nat, y: nat)
    requires source.Valid() && target.Valid() && Disjoint(source, target) && source.device == target.device
    requires x < source.count * source.block && y < target.count * target.block
    ensures source.Home(x) != target.Home(y)
  {
    source.Within(x);
    target.Within(y);
    hide DirectFile.Start;
  }

  /** Writing into one file leaves the other as it was. */
  lemma OtherFileKept(source: DirectFile, target: DirectFile, before: seq<Record>, now: seq<Record>, y: nat, n: nat,
                      z: nat, data: seq<Record>)
    requires source.Valid() && target.Valid() && Disjoint(source, target) && source.device == target.device
    requires y + n <= target.count * target.block && target.OnlyWithin(before, now, y, n)
    requires source.HoldsFrom(before, z, data)
    ensures source.HoldsFrom(now, z, data)
  {
    hide DirectFile.Valid, DirectFile.Home, Disjoint;
    forall i: nat | i < |data| ensures source.HoldsAt(now, z + i, data[i]) {
      assert source.HoldsAt(before, z + i, data[i]);
      forall w: nat | y <= w < y + n ensures target.Home(w) != source.Home(z + i) {
        HomesApart(source, target, z + i, w);
      }
    }
  }

  /** pager_move_page, once the new page is allocated: as much as one read and one
      write transfer arrives, the rest of the new page keeps what it held, and
      nothing else changes in either file. */
  method MovePage(source: DirectFile, target: DirectFile, page: nat, newPage: nat, size: nat,
                  reading: seq<nat>, writing: seq<nat>)
    returns (status: Status)
    requires source.Valid() && source.Solid() && target.Valid() && target.Solid() && Disjoint(source, target)
    requires 0 < size && page * size + size <= source.count * source.block
    requires newPage * size + size <= target.count * target.block
    requires Divides(size, source.block) || Divides(source.block, size)
    requires Divides(size, target.block) || Divides(target.block, size)
    modifies target.device
    ensures status == Ok
    ensures target.OnlyWithin(old(target.device[..]), target.device[..], newPage * size,
                              Moved(size, source.block, target.block, reading, writing))
    ensures forall data: seq<Record> {:trigger source.HoldsFrom(old(source.device[..]), page * size, data)} ::
      |data| == size && source.HoldsFrom(old(source.device[..]), page * size, data) ==>
        Arrived(target, old(target.device[..]), target.device[..], newPage * size, data,
                Moved(size, source.block, target.block, reading, writing))
    ensures forall z: nat, data: seq<Record> {:trigger source.HoldsFrom(old(source.device[..]), z, data)} ::
      source.HoldsFrom(old(source.device[..]), z, data) ==> source.HoldsFrom(source.device[..], z, data)
  {
    PageStarts(page, size, source.block);
    PageStarts(newPage, size, target.block);
    status := MoveRun(source, target, page * size, newPage * size, size, reading, writing);
  }

  /** The first m records of the data are found at record y of the file, and
      nothing else there has changed. */
  ghost predicate Arrived(target: DirectFile, before: seq<Record>, now: seq<Record>, y: nat, data: seq<Record>, m: nat)
    requires target.Valid()
  {
    && m <= |data| && y + |data| <= target.count * target.block
    && target.HoldsFrom(now, y, data[..m]) && target.OnlyWithin(before, now, y, m)
  }

  method MoveRun(source: DirectFile, target: DirectFile, x: nat, y: nat, size: nat,
                 reading: seq<nat>, writing: seq<nat>)
    returns (status: Status)
    requires source.Valid() && source.Solid() && target.Valid() && target.Solid() && Disjoint(source, target)
    requires 0 < size && x + size <= source.count * source.block && y + size <= target.count * target.block
    requires WellPlaced(x, size, source.block) && WellPlaced(y, size, target.block)
    modifies target.device
    ensures status == Ok
    ensures target.OnlyWithin(old(target.device[..]), target.device[..], y,
                              Moved(size, source.block, target.block, reading, writing))
    ensures forall data: seq<Record> {:trigger source.HoldsFrom(old(source.device[..]), x, data)} ::
      |data| == size && source.HoldsFrom(old(source.device[..]), x, data) ==>
        Arrived(target, old(target.device[..]), target.device[..], y, data,
                Moved(size, source.block, target.block, reading, writing))
    ensures forall z: nat, data: seq<Record> {:trigger source.HoldsFrom(old(source.device[..]), z, data)} ::
      source.HoldsFrom(old(source.device[..]), z, data) ==> source.HoldsFrom(source.device[..], z, data)
  {
    ghost var was, before := source.device[..], target.device[..];
    var piece := source.ReadOne(x, size, reading);
    var written;
    status, written := target.WriteSome(y, piece, writing);
    ghost var now, part := target.device[..], piece[..written];
    assert target.OnlyWithin(before, before, y, written);
    hide DirectFile.HoldsFrom, DirectFile.Valid, DirectFile.Solid, DirectFile.Home, DirectFile.OnlyWithin, Disjoint;
    target.RunHolds(now, y, part);
    target.OnlyRun(before, before, now, y, written, y, part);
    forall data: seq<Record> | |data| == size && source.HoldsFrom(was, x, data)
      ensures Arrived(target, before, now, y, data, written)
    {
      SamePiece(source, was, x, size, data, piece);
      assert data[..written] == part;
    }
    forall z: nat, data: seq<Record> | source.HoldsFrom(was, z, data)
      ensures source.HoldsFrom(source.device[..], z, data)
    {
      if source.device == target.device {
        OtherFileKept(source, target, before, now, y, written, z, data);
      }
    }
  }

  lemma SamePiece(source: DirectFile, was: seq<Record>, x: nat, size: nat, data: seq<Record>, piece: seq<Record>)
    requires source.Valid() && |data| == size && x < source.count * source.block && |piece| <= size
    requires x % source.block + |piece| <= source.block && source.Home(x) + |piece| <= |was|
    requires source.HoldsFrom(was, x, data) && piece == was[source.Home(x)..source.Home(x) + |piece|]
    ensures data[..|piece|] == piece
  {
    forall i: nat | i < |piece| ensures data[i] == piece[i] {
      source.HomeRuns(x, i);
      assert source.HoldsAt(was, x + i, data[i]);
    }
  }

  /** Whether the whole page is found depends on what the rest of the new page
      happened to hold. */
  lemma RestIsOld(target: DirectFile, before: seq<Record>, now: seq<Record>, y: nat, data: seq<Record>, m: nat)
    requires target.Valid() && target.Solid() && Arrived(target, before, now, y, data, m)
    ensures target.HoldsFrom(now, y, data) <==> target.HoldsFrom(before, y + m, data[m..])
  {
    hide DirectFile.Home, DirectFile.Valid, DirectFile.Solid;
    forall i: nat | m <= i < |data| ensures target.HoldsAt(now, y + i, data[i]) <==>
      target.HoldsAt(before, y + i, data[i]) {
      forall w: nat | y <= w < y + m ensures target.Home(w) != target.Home(y + i) {
        target.HomesDiffer(w, y + i);
      }
    }
    if target.HoldsFrom(now, y, data) {
      forall i: nat | i < |data[m..]| ensures target.HoldsAt(before, y + m + i, data[m..][i]) {
        assert target.HoldsAt(now, y + (m + i), data[m + i]);
      }
    }
    if target.HoldsFrom(before, y + m, data[m..]) {
      forall i: nat | i < |data| ensures target.HoldsAt(now, y + i, data[i]) {
        assert i < m ==> target.HoldsAt(now, y + i, data[..m][i]);
        assert i >= m ==> target.HoldsAt(before, y + m + (i - m), data[m..][i - m]);
      }
    }
  }

  /** Whatever the page held, it is found whole at its new place. */
  ghost predicate AlwaysWhole(target: DirectFile, before: seq<Record>, y: nat, size: nat, m: nat)
    requires target.Valid()
  {
    forall data: seq<Record>, now: seq<Record> {:trigger Arrived(target, before, now, y, data, m)} ::
      |data| == size && Arrived(target, before, now, y, data, m) ==> target.HoldsFrom(now, y, data)
  }

  /** What a page holds, but for one record. */
  ghost function Spoilt(target: DirectFile, before: seq<Record>, y: nat, size: nat, m: nat): (data: seq<Record>)
    requires target.Valid() && y + size <= target.count * target.block && |before| == target.device.Length
    ensures |data| == size
  {
    seq(size, i requires 0 <= i < size => (
      target.HomeInside(y + i);
      before[target.Home(y + i)] + if i == m then 1 else 0))
  }

  /** pager_move_page moves every page whole exactly when it fits a block on either
      side and neither transfer is short. */
  lemma MovedWhole(target: DirectFile, before: seq<Record>, y: nat, size: nat, from: nat,
                   reading: seq<nat>, writing: seq<nat>)
    requires target.Valid() && target.Solid() && 0 < from && 0 < size
    requires y + size <= target.count * target.block && |before| == target.device.Length
    ensures AlwaysWhole(target, before, y, size, Moved(size, from, target.block, reading, writing))
      <==>
        size <= from && size <= target.block && Transferred(reading, size) == size && Transferred(writing, size) == size
  {
    var m := Moved(size, from, target.block, reading, writing);
    hide DirectFile.Home;
    if m == size {
      forall data: seq<Record>, now: seq<Record> | |data| == size && Arrived(target, before, now, y, data, m)
        ensures target.HoldsFrom(now, y, data)
      {
        assert data[..m] == data;
      }
    } else {
      var data := Spoilt(target, before, y, size, m);
      forall i: nat | i < m ensures target.HoldsAt(before, y + i, data[..m][i]) {
        target.HomeInside(y + i);
      }
      assert Arrived(target, before, before, y, data, m);
      target.HomeInside(y + m);
      assert !target.HoldsAt(before, y + m, data[m]);
    }
  }
}
