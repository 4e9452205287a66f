/** The set of open descriptors with its poll array, and the sweep that drops idle connections. */
module Descriptors {

  predicate Distinct(s: seq<nat>) {
    forall i, j :: 0 <= i < j < |s| ==> s[i] != s[j]
  }

  lemma DistinctConcat(a: seq<nat>, b: seq<nat>)
    ensures Distinct(a + b) <==> Distinct(a) && Distinct(b) && forall i, j :: 0 <= i < |a| && 0 <= j < |b| ==> a[i] != b[j]
  {
    var c := a + b;
    if Distinct(c) {
      forall i, j | 0 <= i < j < |a|
        ensures a[i] != a[j]
      {
        assert c[i] == a[i] && c[j] == a[j];
      }
      forall i, j | 0 <= i < j < |b|
        ensures b[i] != b[j]
      {
        assert c[|a| + i] == b[i] && c[|a| + j] == b[j];
      }
      forall i, j | 0 <= i < |a| && 0 <= j < |b|
        ensures a[i] != b[j]
      {
        assert c[i] == a[i] && c[|a| + j] == b[j];
      }
    } else if Distinct(a) && Distinct(b) {
      var i, j :| 0 <= i < j < |c| && c[i] == c[j];
      assert i < |a| && j >= |a|;
      assert a[i] == b[j - |a|];
    }
  }

  /** Where in a list a stretch of it stands does not matter for its elements being distinct. */
  lemma DistinctSwap(a: seq<nat>, b: seq<nat>, c: seq<nat>, d: seq<nat>)
    requires Distinct(a + b + c + d)
    ensures Distinct(a + c + b + d)
    ensures forall x :: x in a + b + c + d <==> x in a + c + b + d
  {
    hide Distinct;
    DistinctConcat(a + b + c, d);
    DistinctConcat(a + b, c);
    DistinctConcat(a, b);
    DistinctConcat(a, c);
    Apart(a, b, c);
    Apart(a + b, c, d);
    Apart(a, b, d);
    Apart(a, c, b);
    Apart(a + c, b, d);
    Apart(a, c, d);
    DistinctConcat(a + c, b);
    DistinctConcat(a + c + b, d);
  }

  /** Two lists joined have nothing in common with a third exactly when neither of them has. */
  lemma Apart(a: seq<nat>, b: seq<nat>, c: seq<nat>)
    ensures (forall i, j :: 0 <= i < |a + b| && 0 <= j < |c| ==> (a + b)[i] != c[j])
            <==> && (forall i, j :: 0 <= i < |a| && 0 <= j < |c| ==> a[i] != c[j])
                 && (forall i, j :: 0 <= i < |b| && 0 <= j < |c| ==> b[i] != c[j])
  {
    assert forall i :: 0 <= i < |a| ==> (a + b)[i] == a[i];
    assert forall i :: 0 <= i < |b| ==> (a + b)[|a| + i] == b[i];
  }

  datatype PollFd = PollFd(fd: nat, events: int, revents: int)

  /** Removal from a list by moving the last element into the gap. */
  function Without<T>(s: seq<T>, i: nat): (r: seq<T>)
    requires i < |s|
    ensures |r| == |s| - 1
  {
    if i == |s| - 1 then s[..i] else s[..|s| - 1][i := s[|s| - 1]]
  }

  lemma WithoutDistinct(s: seq<nat>, i: nat)
    requires i < |s| && Distinct(s)
    ensures Distinct(Without(s, i))
    ensures forall x :: x in Without(s, i) <==> x in s && x != s[i]
  {
    var r, n := Without(s, i), |s| - 1;
    forall x | x in s && x != s[i]
      ensures x in r
    {
      var k :| 0 <= k < |s| && s[k] == x;
      assert r[if k == n then i else k] == x;
    }
  }

  /** Distinct numbers below a bound are at most as many as the bound. */
  lemma {:induction false} Pigeonhole(s: seq<nat>, n: nat)
    requires Distinct(s) && forall i :: 0 <= i < |s| ==> s[i] < n
    ensures |s| <= n
    decreases n
  {
    if n > 0 {
      if n - 1 in s {
        var i :| 0 <= i < |s| && s[i] == n - 1;
        WithoutDistinct(s, i);
        var r := Without(s, i);
        assert forall k :: 0 <= k < |r| ==> r[k] in r;
        Pigeonhole(r, n - 1);
      } else {
        Pigeonhole(s, n - 1);
      }
    }
  }

  /** With a number below the bound missing, there are fewer. */
  lemma PigeonholeMissing(s: seq<nat>, n: nat, missing: nat)
    requires Distinct(s) && (forall i :: 0 <= i < |s| ==> s[i] < n) && missing < n && missing !in s
    ensures |s| < n
  {
    assert forall i :: 0 <= i < |s| ==> s[i] in s;
    Pigeonhole(s + [missing], n);
  }

  /** The map from descriptors to places and the list of descriptors undo each other. */
  ghost predicate Inverse(descriptors: seq<int>, list: seq<nat>) {
    && (forall i :: 0 <= i < |list| ==> list[i] < |descriptors| && descriptors[list[i]] == i)
    && (forall fd :: 0 <= fd < |descriptors| && descriptors[fd] != -1 ==>
          0 <= descriptors[fd] < |list| && list[descriptors[fd]] == fd)
  }

  /** The poll array follows the list. */
  ghost predicate Aligned(events: seq<PollFd>, list: seq<nat>) {
    |events| == |list| && forall i :: 0 <= i < |list| ==> events[i].fd == list[i]
  }

  lemma InverseDistinct(descriptors: seq<int>, list: seq<nat>)
    requires Inverse(descriptors, list)
    ensures Distinct(list) && forall fd :: fd in list <==> 0 <= fd < |descriptors| && descriptors[fd] != -1
  {
    forall fd | 0 <= fd < |descriptors| && descriptors[fd] != -1
      ensures fd in list
    {
      assert list[descriptors[fd]] == fd;
    }
  }

  lemma AddInverse(descriptors: seq<int>, list: seq<nat>, fd: nat)
    requires Inverse(descriptors, list) && fd < |descriptors| && descriptors[fd] == -1
    ensures Inverse(descriptors[fd := |list|], list + [fd])
  {
  }

  lemma RemoveInverse(descriptors: seq<int>, list: seq<nat>, fd: nat)
    requires Inverse(descriptors, list) && fd < |descriptors| && descriptors[fd] != -1
    ensures var i := descriptors[fd];
            && 0 <= i < |list|
            && var shorter := Without(list, i);
               var unset := descriptors[fd := -1];
               Inverse(if i < |shorter| then unset[shorter[i] := i] else unset, shorter)
  {
  }

  lemma AlignedWithout(events: seq<PollFd>, list: seq<nat>, i: nat)
    requires Aligned(events, list) && i < |list|
    ensures Aligned(Without(events, i), Without(list, i))
  {
  }

  /** Dropping one more descriptor behind the first. */
  lemma DropOne(list: seq<nat>, i: nat)
    requires Distinct(list) && 0 < i < |list|
    ensures var r := Without(list, i);
            && Distinct(r) && r[0] == list[0] && list[i] != list[0] && r[..i] == list[..i]
            && forall fd :: fd in r <==> fd in list && fd != list[i]
  {
    WithoutDistinct(list, i);
  }

  class Selector {
    const descriptors: array<int>
    const index: array<nat>
    const events: array<PollFd>
    var used: nat

    ghost predicate Valid()
      reads this, descriptors, index, events
    {
      && descriptors.Length == index.Length == events.Length && used <= index.Length
      && Inverse(descriptors[..], Set()) && Aligned(Polled(), Set())
    }

    ghost function Set(): seq<nat>
      requires used <= index.Length
      reads this, index
    {
      index[..used]
    }

    ghost function Polled(): seq<PollFd>
      requires used <= events.Length
      reads this, events
    {
      events[..used]
    }

    constructor (size: nat)
      ensures Valid() && Set() == [] && descriptors.Length == size
      ensures fresh(descriptors) && fresh(index) && fresh(events)
    {
      descriptors := new int[size](_ => -1);
      index := new nat[size](_ => 0);
      events := new PollFd[size](_ => PollFd(0, 0, 0));
      used := 0;
    }

    /** There is room for one more descriptor if it is not in the set. */
    lemma Room(fd: nat)
      requires Valid() && fd < descriptors.Length && descriptors[fd] == -1
      ensures used < index.Length
    {
      InverseDistinct(descriptors[..], Set());
      PigeonholeMissing(Set(), descriptors.Length, fd);
    }

    /** Adds a descriptor at the end, unless it is in the set. */
    method Add(fd: nat, wanted: int)
      requires Valid() && fd < descriptors.Length
      modifies this`used, descriptors, index, events
      ensures Valid()
      ensures fd in old(Set()) ==> Set() == old(Set()) && Polled() == old(Polled())
      ensures fd !in old(Set()) ==> Set() == old(Set()) + [fd] && Polled() == old(Polled()) + [PollFd(fd, wanted, 0)]
    {
      InverseDistinct(descriptors[..], Set());
      if descriptors[fd] != -1 {
        return;
      }
      Room(fd);
      AddInverse(descriptors[..], Set(), fd);
      hide Inverse;
      descriptors[fd] := used;
      index[used] := fd;
      used := used + 1;
      events[used - 1] := PollFd(fd, wanted, 0);
      assert Set() == old(Set()) + [fd];
      assert descriptors[..] == old(descriptors[..])[fd := used - 1];
      assert Polled() == old(Polled()) + [PollFd(fd, wanted, 0)];
    }

    /** Removes a descriptor; the last one takes its place, in the list and in the poll array. */
    method Remove(fd: nat)
      requires Valid() && fd < descriptors.Length
      modifies this`used, descriptors, index, events
      ensures Valid()
      ensures fd !in old(Set()) ==> Set() == old(Set()) && Polled() == old(Polled())
      ensures fd in old(Set()) ==>
                var i := old(descriptors[fd]);
                && 0 <= i < |old(Set())| && old(Set())[i] == fd
                && Set() == Without(old(Set()), i) && Polled() == Without(old(Polled()), i)
    {
      InverseDistinct(descriptors[..], Set());
      var i := descriptors[fd];
      if i == -1 {
        return;
      }
      RemoveInverse(descriptors[..], Set(), fd);
      AlignedWithout(Polled(), Set(), i);
      assert Set()[i] == fd;
      hide Inverse, Distinct, Aligned;
      descriptors[fd] := -1;
      used := used - 1;
      if i < used {
        index[i] := index[used];
        descriptors[index[i]] := i;
        events[i] := events[used];
      }
      assert Set() == Without(old(Set()), i);
      assert Polled() == Without(old(Polled()), i);
      assert descriptors[..] == var unset := old(descriptors[..])[fd := -1];
                                if i < used then unset[Set()[i] := i] else unset;
    }

    /** Changes what is waited for, and nothing else. */
    method Modify(fd: nat, wanted: int) returns (ok: bool)
      requires Valid() && fd < descriptors.Length
      modifies events
      ensures Valid() && Set() == old(Set()) && ok == (fd in Set())
      ensures ok ==> 0 <= descriptors[fd] < used && Polled() == old(Polled())[descriptors[fd] := PollFd(fd, wanted, 0)]
      ensures !ok ==> Polled() == old(Polled())
    {
      InverseDistinct(descriptors[..], Set());
      var i := descriptors[fd];
      if i < 0 {
        return false;
      }
      assert Polled()[i].fd == Set()[i] == fd;
      events[i] := PollFd(events[i].fd, wanted, 0);
      ok := true;
    }

    /**
     * Drops the connections that have been idle for too long: exactly those, and never the first descriptor,
     * which is the listener. The list is swept while removals move its last element into the gaps.
     */
    method HandleAlarm(timestamps: seq<int>, maxIdle: nat, now: int) returns (freed: seq<nat>)
      requires Valid() && |timestamps| == descriptors.Length
      modifies this`used, descriptors, index, events
      ensures Valid() && |Set()| + |freed| == |old(Set())|
      ensures |old(Set())| > 0 ==> |Set()| > 0 && Set()[0] == old(Set())[0]
      ensures forall fd :: fd in freed <==>
                fd in old(Set()) && fd != old(Set())[0] && Idle(timestamps, maxIdle, now, fd)
      ensures forall fd :: fd in Set() <==> fd in old(Set()) && fd !in freed
    {
      hide Inverse, Aligned, Distinct;
      freed := [];
      var i := 1;
      ghost var all := Set();
      while i < used
        invariant Valid() && i >= 1 && (|all| > 0 ==> i <= used && Set()[0] == all[0]) && used + |freed| == |all|
        invariant forall fd :: fd in freed ==> fd in all && fd != all[0] && Idle(timestamps, maxIdle, now, fd)
        invariant forall fd :: fd in Set() <==> fd in all && fd !in freed
        invariant forall k :: 1 <= k < i && k < used ==> !Idle(timestamps, maxIdle, now, Set()[k])
        decreases used - i
      {
        var fd := index[i];
        InverseDistinct(descriptors[..], Set());
        assert Set()[i] == fd && fd in Set();
        if timestamps[fd] + maxIdle < now {
          DropOne(Set(), i);
          ghost var before := Set();
          Remove(fd);
          freed := freed + [fd];
        } else {
          i := i + 1;
        }
      }
    }
  }

  /** The time of the last activity lies further back than allowed. */
  predicate Idle(timestamps: seq<int>, maxIdle: nat, now: int, fd: nat) {
    fd < |timestamps| && timestamps[fd] + maxIdle < now
  }
}
