/** The pool of temporary files: those in use, and a few spare ones kept open for later. */
module TmpFiles {
  import opened Descriptors

  /** Names are numbers of an `unsigned`. */
  const UNSIGNED: nat := 0x1_0000_0000

  datatype TmpFile = TmpFile(name: nat, fd: nat)

  function Fds(files: seq<TmpFile>): (r: seq<nat>)
    ensures |r| == |files|
  {
    seq(|files|, i requires 0 <= i < |files| => files[i].fd)
  }

  function Names(files: seq<TmpFile>): (r: seq<nat>)
    ensures |r| == |files|
  {
    seq(|files|, i requires 0 <= i < |files| => files[i].name)
  }

  class Cache {
    const inUse: array<TmpFile>
    const spare: array<TmpFile>
    var used: nat
    var spareUsed: nat
    var count: nat

    /** The names of the files that exist in the directory. */
    ghost var disk: set<nat>

    ghost function InUse(): seq<TmpFile>
      requires used <= inUse.Length
      reads this, inUse
    {
      inUse[..used]
    }

    ghost function Spare(): seq<TmpFile>
      requires spareUsed <= spare.Length
      reads this, spare
    {
      spare[..spareUsed]
    }

    /** All the files of the pool: their descriptors and their names are distinct, and they are the files on disk. */
    ghost predicate Valid()
      reads this, inUse, spare
    {
      && inUse != spare && used <= inUse.Length && spareUsed <= spare.Length && count <= UNSIGNED
      && Pool(InUse() + Spare(), disk, inUse.Length, count)
    }

    constructor (maxOpen: nat, maxSpare: nat)
      ensures Valid() && InUse() == [] && Spare() == [] && disk == {} && count == 0
      ensures inUse.Length == maxOpen && spare.Length == maxSpare && fresh(inUse) && fresh(spare)
    {
      inUse := new TmpFile[maxOpen](_ => TmpFile(0, 0));
      spare := new TmpFile[maxSpare](_ => TmpFile(0, 0));
      used, spareUsed, count, disk := 0, 0, 0, {};
    }

    /** There is room for one more file as long as some descriptor below the limit is not one of the pool's. */
    lemma Room(own: nat)
      requires Valid() && own < inUse.Length && own !in Fds(InUse() + Spare())
      ensures used < inUse.Length
    {
      PigeonholeMissing(Fds(InUse() + Spare()), inUse.Length, own);
    }

    /**
     * Takes a spare file, or creates one under a new name. The system hands out only descriptors that are not
     * open, below the limit, and the server holds one of them (`own`) for itself.
     */
    method Open(system: int, ghost own: nat) returns (fd: int)
      requires Valid() && count < 0x1_0000_0000
      requires own < inUse.Length && own !in Fds(InUse() + Spare())
      requires system >= 0 ==> system < inUse.Length && system !in Fds(InUse() + Spare())
      modifies this`used, this`spareUsed, this`count, this`disk, inUse
      ensures Valid()
      ensures old(spareUsed) > 0 ==>
                var n := old(spareUsed) - 1;
                && fd == old(Spare())[n].fd && InUse() == old(InUse()) + [old(Spare())[n]] && Spare() == old(Spare())[..n]
                && disk == old(disk) && count == old(count)
      ensures old(spareUsed) == 0 ==>
                && count == old(count) + 1 && Spare() == []
                && InUse() == old(InUse()) + (if system < 0 then [] else [TmpFile(old(count), system)])
                && disk == old(disk) + (if system < 0 then {} else {old(count)})
                && fd == if system < 0 then -1 else system
    {
      hide Pool;
      Room(own);
      if spareUsed > 0 {
        PoolReuses(InUse(), Spare(), disk, inUse.Length, count);
        spareUsed := spareUsed - 1;
        inUse[used] := spare[spareUsed];
        used := used + 1;
        assert InUse() == old(InUse()) + [old(Spare())[spareUsed]];
        assert Spare() == old(Spare())[..spareUsed];
        return inUse[used - 1].fd;
      }
      var name := count;
      count := count + 1;
      inUse[used] := TmpFile(name, 0);
      if system < 0 {
        assert InUse() == old(InUse());
        PoolCounts(InUse() + Spare(), disk, inUse.Length, name);
        return -1;
      }
      inUse[used] := TmpFile(name, system);
      used := used + 1;
      disk := disk + {name};
      assert InUse() == old(InUse()) + [TmpFile(name, system)];
      assert InUse() + Spare() == old(InUse() + Spare()) + [TmpFile(name, system)];
      PoolGrows(old(InUse() + Spare()), old(disk), inUse.Length, name, system);
      fd := system;
    }

    /** Puts a file among the spare ones, or closes and deletes it; the last file in use takes its place. */
    method Close(fd: nat) returns (ok: bool)
      requires Valid()
      modifies this`used, this`spareUsed, this`disk, inUse, spare
      ensures Valid() && ok == (fd in Fds(old(InUse())))
      ensures !ok ==> InUse() == old(InUse()) && Spare() == old(Spare()) && disk == old(disk)
      ensures ok ==> exists i ::
                && 0 <= i < |old(InUse())| && old(InUse())[i].fd == fd && InUse() == Without(old(InUse()), i)
                && (if |old(Spare())| == spare.Length then
                      Spare() == old(Spare()) && disk == old(disk) - {old(InUse())[i].name}
                    else Spare() == old(Spare()) + [old(InUse())[i]] && disk == old(disk))
    {
      hide Pool;
      for i := 0 to used
        invariant used == old(used) && spareUsed == old(spareUsed) && disk == old(disk)
        invariant InUse() == old(InUse()) && Spare() == old(Spare()) && Valid()
        invariant fd !in Fds(InUse())[..i]
      {
        var file := inUse[i];
        assert Fds(InUse())[i] == file.fd;
        if fd == file.fd {
          PoolCloses(InUse(), Spare(), disk, inUse.Length, count, i);
          used := used - 1;
          if spareUsed == spare.Length {
            disk := disk - {file.name};
          } else {
            spare[spareUsed] := file;
            spareUsed := spareUsed + 1;
          }
          if i < used {
            inUse[i] := inUse[used];
          }
          assert InUse() == Without(old(InUse()), i);
          assert Spare() == if |old(Spare())| == spare.Length then old(Spare()) else old(Spare()) + [file];
          return true;
        }
      }
      assert Fds(InUse())[..used] == Fds(InUse());
      ok := false;
    }
  }

  lemma PoolCounts(files: seq<TmpFile>, disk: set<nat>, limit: nat, count: nat)
    requires Pool(files, disk, limit, count)
    ensures Pool(files, disk, limit, count + 1)
  {
  }

  lemma PoolGrows(files: seq<TmpFile>, disk: set<nat>, limit: nat, count: nat, fd: nat)
    requires Pool(files, disk, limit, count) && fd < limit && fd !in Fds(files)
    ensures Pool(files + [TmpFile(count, fd)], disk + {count}, limit, count + 1)
  {
    var more := files + [TmpFile(count, fd)];
    assert Fds(more) == Fds(files) + [fd] && Names(more) == Names(files) + [count];
  }

  lemma Keys(a: seq<TmpFile>, b: seq<TmpFile>)
    ensures Fds(a + b) == Fds(a) + Fds(b) && Names(a + b) == Names(a) + Names(b)
  {
  }

  /** The order of the files does not matter. */
  lemma PoolSwap(
    a: seq<TmpFile>, b: seq<TmpFile>, c: seq<TmpFile>, d: seq<TmpFile>, disk: set<nat>, limit: nat, count: nat)
    requires Pool(a + b + c + d, disk, limit, count)
    ensures Pool(a + c + b + d, disk, limit, count)
  {
    hide Distinct, Fds, Names;
    KeysOfFour(a, b, c, d);
    KeysOfFour(a, c, b, d);
    DistinctSwap(Fds(a), Fds(b), Fds(c), Fds(d));
    DistinctSwap(Names(a), Names(b), Names(c), Names(d));
    BoundsSwap(a, b, c, d, limit, count);
  }

  lemma KeysOfFour(a: seq<TmpFile>, b: seq<TmpFile>, c: seq<TmpFile>, d: seq<TmpFile>)
    ensures Fds(a + b + c + d) == Fds(a) + Fds(b) + Fds(c) + Fds(d)
    ensures Names(a + b + c + d) == Names(a) + Names(b) + Names(c) + Names(d)
  {
    hide Fds, Names;
    Keys(a + b + c, d);
    Keys(a + b, c);
    Keys(a, b);
  }

  lemma BoundsSwap(a: seq<TmpFile>, b: seq<TmpFile>, c: seq<TmpFile>, d: seq<TmpFile>, limit: nat, count: nat)
    requires var s := a + b + c + d; forall i :: 0 <= i < |s| ==> s[i].fd < limit && s[i].name < count
    ensures var t := a + c + b + d; forall i :: 0 <= i < |t| ==> t[i].fd < limit && t[i].name < count
  {
    var s, t := a + b + c + d, a + c + b + d;
    forall i | 0 <= i < |t|
      ensures t[i].fd < limit && t[i].name < count
    {
      var k := if i < |a| then i else if i < |a| + |c| then i + |b| else if i < |a| + |c| + |b| then i - |c| else i;
      assert t[i] == s[k];
    }
  }

  /** The last spare file goes into use. */
  lemma PoolReuses(inUse: seq<TmpFile>, spare: seq<TmpFile>, disk: set<nat>, limit: nat, count: nat)
    requires spare != [] && Pool(inUse + spare, disk, limit, count)
    ensures var n := |spare| - 1; Pool(inUse + [spare[n]] + spare[..n], disk, limit, count)
  {
    hide Pool;
    var n := |spare| - 1;
    assert inUse + spare == inUse + spare[..n] + [spare[n]] + [];
    PoolSwap(inUse, spare[..n], [spare[n]], [], disk, limit, count);
    assert inUse + [spare[n]] + spare[..n] + [] == inUse + [spare[n]] + spare[..n];
  }

  /** A file in use becomes a spare one. */
  lemma PoolSpares(inUse: seq<TmpFile>, spare: seq<TmpFile>, disk: set<nat>, limit: nat, count: nat, i: nat)
    requires i < |inUse| && Pool(inUse + spare, disk, limit, count)
    ensures Pool(Without(inUse, i) + (spare + [inUse[i]]), disk, limit, count)
  {
    hide Pool;
    var m, e := |inUse| - 1, inUse[i];
    var front := inUse[..i];
    if i == m {
      assert inUse + spare == front + [e] + spare + [];
      PoolSwap(front, [e], spare, [], disk, limit, count);
      assert front + spare + [e] + [] == Without(inUse, i) + (spare + [e]);
    } else {
      var middle, last := inUse[i + 1..m], inUse[m];
      assert inUse + spare == front + [e] + (middle + [last] + spare) + [];
      PoolSwap(front, [e], middle + [last] + spare, [], disk, limit, count);
      assert front + (middle + [last] + spare) + [e] + [] == front + middle + [last] + (spare + [e]);
      PoolSwap(front, middle, [last], spare + [e], disk, limit, count);
      assert front + [last] + middle + (spare + [e]) == Without(inUse, i) + (spare + [e]);
    }
  }

  /** A file of a pool that leaves it takes its name off the disk. */
  lemma PoolShrinks(files: seq<TmpFile>, file: TmpFile, disk: set<nat>, limit: nat, count: nat)
    requires Pool(files + [file], disk, limit, count)
    ensures Pool(files, disk - {file.name}, limit, count)
  {
    var all := files + [file];
    assert Fds(all) == Fds(files) + [file.fd] && Names(all) == Names(files) + [file.name];
    assert forall i :: 0 <= i < |files| ==> all[i] == files[i];
    forall i, j | 0 <= i < j < |files|
      ensures Fds(files)[i] != Fds(files)[j] && Names(files)[i] != Names(files)[j]
    {
      assert Fds(all)[i] != Fds(all)[j] && Names(all)[i] != Names(all)[j];
    }
    forall i | 0 <= i < |files|
      ensures Names(files)[i] != file.name
    {
      assert Names(all)[i] != Names(all)[|files|];
    }
  }

  /** A file in use becomes a spare one, or leaves the pool. */
  lemma PoolCloses(inUse: seq<TmpFile>, spare: seq<TmpFile>, disk: set<nat>, limit: nat, count: nat, i: nat)
    requires i < |inUse| && Pool(inUse + spare, disk, limit, count)
    ensures Pool(Without(inUse, i) + spare, disk - {inUse[i].name}, limit, count)
    ensures Pool(Without(inUse, i) + (spare + [inUse[i]]), disk, limit, count)
  {
    hide Pool, Without;
    PoolSpares(inUse, spare, disk, limit, count, i);
    assert Without(inUse, i) + (spare + [inUse[i]]) == Without(inUse, i) + spare + [inUse[i]];
    PoolShrinks(Without(inUse, i) + spare, inUse[i], disk, limit, count);
  }

  ghost predicate Pool(files: seq<TmpFile>, disk: set<nat>, limit: nat, count: nat) {
    && Distinct(Fds(files)) && Distinct(Names(files))
    && (forall i :: 0 <= i < |files| ==> files[i].fd < limit && files[i].name < count)
    && (forall n :: n in disk <==> n in Names(files))
  }
}
