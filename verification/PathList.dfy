/** A sorted index of paths over one block of bytes, and the directories it covers. */
module PathList {
  import opened Bytes
  import opened Sequences

  const PATH_MAX: nat := 4096

  /** Lexicographic order, a path before what it is a prefix of. */
  predicate Less(a: bytes, b: bytes) {
    b != [] && (a == [] || a[0] < b[0] || (a[0] == b[0] && Less(a[1..], b[1..])))
  }

  lemma {:induction false} LessTransitive(a: bytes, b: bytes, c: bytes)
    requires Less(a, b) && Less(b, c)
    ensures Less(a, c)
  {
    if a != [] && a[0] == b[0] && b[0] == c[0] {
      LessTransitive(a[1..], b[1..], c[1..]);
    }
  }

  lemma {:induction false} LessIsStrict(a: bytes, b: bytes)
    requires Less(a, b)
    ensures a != b && !Less(b, a)
  {
    if a != [] && a[0] == b[0] {
      LessIsStrict(a[1..], b[1..]);
    }
  }

  /** The sign of the first difference of two blocks of the same length. */
  function MemCmp(a: bytes, b: bytes): int
    requires |a| == |b|
  {
    if a == [] then 0 else if a[0] != b[0] then a[0] - b[0] else MemCmp(a[1..], b[1..])
  }

  /** Comparing as far as the shorter goes decides the order; of equal beginnings, the shorter comes first. */
  lemma {:induction false} MemCmpIsLess(a: bytes, b: bytes)
    ensures var n := if |a| <= |b| then |a| else |b|;
            var r := MemCmp(a[..n], b[..n]);
            && (r < 0 || (r == 0 && |a| < |b|) <==> Less(a, b))
            && (r > 0 || (r == 0 && |a| > |b|) <==> Less(b, a))
            && (r == 0 && |a| == |b| <==> a == b)
  {
    if a != [] && b != [] {
      var n := if |a| <= |b| then |a| else |b|;
      assert a[..n][1..] == a[1..][..n - 1] && b[..n][1..] == b[1..][..n - 1];
      MemCmpIsLess(a[1..], b[1..]);
      assert a == [a[0]] + a[1..] && b == [b[0]] + b[1..];
    }
  }

  predicate Sorted(paths: seq<bytes>) {
    forall i, j :: 0 <= i < j < |paths| ==> Less(paths[i], paths[j])
  }

  predicate AllRooted(paths: seq<bytes>) {
    forall i :: 0 <= i < |paths| ==> paths[i] != [] && paths[i][0] == SLASH
  }

  /** A path without its trailing slash, unless it is the root. */
  function Trimmed(path: bytes): bytes {
    if |path| > 1 && path[|path| - 1] == SLASH then path[..|path| - 1] else path
  }

  /** `dir` is `path`, or a directory on the way to it. */
  predicate Covers(dir: bytes, path: bytes) {
    dir == path || (dir <= path && |dir| >= 1 && (dir == [SLASH] || path[|dir|] == SLASH))
  }

  /** A path in the block. */
  datatype Entry = Entry(offset: nat, len: nat)

  class Index {
    var paths: seq<Entry>
    var data: bytes

    ghost predicate InData()
      reads this
    {
      forall i :: 0 <= i < |paths| ==> paths[i].offset + paths[i].len <= |data|
    }

    ghost function View(): (v: seq<bytes>)
      requires InData()
      reads this
      ensures |v| == |paths|
    {
      PathsIn(paths, data)
    }

    ghost predicate Valid()
      reads this
    {
      InData() && Sorted(View()) && AllRooted(View())
    }

    constructor ()
      ensures Valid() && View() == []
    {
      paths, data := [], [];
    }

    /** Finds a path, or the place where it belongs. */
    method Search(path: bytes) returns (found: bool, pos: nat)
      requires Valid()
      ensures pos <= |paths| && found == (path in View())
      ensures found ==> pos < |paths| && View()[pos] == path
      ensures !found ==> Place(View(), path, pos)
    {
      var i: int, j: int := 0, |paths| - 1;
      ghost var v := View();
      while i <= j
        invariant 0 <= i <= j + 1 <= |paths|
        invariant forall k :: 0 <= k < i ==> Less(v[k], path)
        invariant forall k :: j < k < |v| ==> Less(path, v[k])
        decreases j - i
      {
        var pivot := (i + j) / 2;
        var entry := paths[pivot];
        var stored := data[entry.offset..entry.offset + entry.len];
        var n := if |path| <= entry.len then |path| else entry.len;
        var ret := MemCmp(path[..n], stored[..n]);
        MemCmpIsLess(path, stored);
        if ret < 0 || (ret == 0 && |path| < entry.len) {
          BelowAll(v, path, pivot);
          j := pivot - 1;
        } else if ret == 0 && |path| == entry.len {
          return true, pivot;
        } else {
          AboveAll(v, path, pivot);
          i := pivot + 1;
        }
      }
      pos := i;
      found := false;
      NotAmong(v, path, i);
    }

    /** Adds a path in its place, without its trailing slash, unless it is there already. */
    method Add(path: bytes) returns (ok: bool)
      requires Valid()
      modifies this
      ensures ok == (path != [] && path[0] == SLASH && |path| <= 4096)
      ensures Valid() && forall p :: p in View() <==> p in old(View()) || (ok && p == Trimmed(path))
    {
      hide Less, Sorted, Place;
      if |path| == 0 || path[0] != SLASH || |path| > PATH_MAX {
        return false;
      }
      var len := |path|;
      if len > 1 {
        if path[len - 1] == SLASH {
          len := len - 1;
        }
      }
      var name := path[..len];
      assert name == Trimmed(path);
      ghost var before := View();
      var found, pos := Search(name);
      ok := true;
      if found {
        return;
      }
      var entry := Entry(|data|, len);
      Insert(before, name, pos);
      EntryInserted(paths, data, name, pos);
      data := data + name;
      paths := paths[..pos] + [entry] + paths[pos..];
    }

    /** Whether a stored path is the path asked for, or a directory on the way to it. */
    method Exists(path: bytes) returns (exists_: bool)
      requires Valid() && path != []
      ensures exists_ <==> exists dir :: dir in View() && Covers(dir, Trimmed(path))
    {
      hide Less, Sorted, Place, Covers, NoneShorter, AllRooted;
      var len := |path|;
      if len > 1 {
        if path[len - 1] == SLASH {
          len := len - 1;
        }
      }
      ghost var v, p := View(), Trimmed(path);
      assert p == path[..len];
      var l := 1;
      NoneEmpty(v, p);
      while true
        invariant 1 <= l <= len && NoneShorter(v, p, l)
        invariant l == 1 || l == len || path[l] == SLASH
        decreases len - l
      {
        var found, pos := Search(path[..l]);
        assert path[..l] == p[..l];
        if found {
          PrefixCovers(v, p, l);
          return true;
        }
        NextLonger(v, p, l);
        if l == len {
          NoneLeft(v, p);
          return false;
        }
        l := l + 1;
        while l < len && path[l] != SLASH
          invariant 1 < l <= len && NoneShorter(v, p, l)
        {
          NotHere(v, p, l);
          l := l + 1;
        }
      }
    }
  }

  /** No stored path shorter than `l` covers the path. */
  ghost predicate NoneShorter(v: seq<bytes>, p: bytes, l: nat) {
    forall dir :: dir in v && Covers(dir, p) ==> |dir| >= l
  }

  lemma NoneEmpty(v: seq<bytes>, p: bytes)
    requires p != []
    ensures NoneShorter(v, p, 1)
  {
  }

  lemma NotHere(v: seq<bytes>, p: bytes, l: nat)
    requires 1 < l < |p| && p[l] != SLASH && NoneShorter(v, p, l)
    ensures NoneShorter(v, p, l + 1)
  {
  }

  lemma NoneLeft(v: seq<bytes>, p: bytes)
    requires NoneShorter(v, p, |p| + 1)
    ensures !exists dir :: dir in v && Covers(dir, p)
  {
    forall dir | dir in v && Covers(dir, p)
      ensures false
    {
      CoversShort(dir, p);
    }
  }

  lemma PrefixCovers(v: seq<bytes>, p: bytes, l: nat)
    requires 1 <= l <= |p| && (l == 1 || l == |p| || p[l] == SLASH) && p[..l] in v && AllRooted(v)
    ensures exists dir :: dir in v && Covers(dir, p)
  {
    assert l == |p| ==> p[..l] == p;
    assert Covers(p[..l], p);
  }

  /** A covering path that is not the one of length `l` is longer, if none is shorter. */
  lemma NextLonger(v: seq<bytes>, p: bytes, l: nat)
    requires l <= |p| && p[..l] !in v && NoneShorter(v, p, l)
    ensures NoneShorter(v, p, l + 1)
  {
    forall dir | dir in v && Covers(dir, p)
      ensures |dir| >= l + 1
    {
      CoversShort(dir, p);
    }
  }

  lemma CoversShort(dir: bytes, p: bytes)
    requires Covers(dir, p)
    ensures |dir| <= |p| && dir == p[..|dir|]
  {
  }

  lemma Insert(v: seq<bytes>, path: bytes, pos: nat)
    requires Sorted(v) && Place(v, path, pos)
    ensures Sorted(v[..pos] + [path] + v[pos..])
    ensures forall p :: p in v[..pos] + [path] + v[pos..] <==> p in v || p == path
  {
    var w := v[..pos] + [path] + v[pos..];
    forall i, j | 0 <= i < j < |w|
      ensures Less(w[i], w[j])
    {
      var a, b := if i > pos then i - 1 else i, if j > pos then j - 1 else j;
      assert i != pos ==> w[i] == v[a];
      assert j != pos ==> w[j] == v[b];
    }
    assert v == v[..pos] + v[pos..];
  }

  /** A path appended to the block, with an entry among the others, is one more path among them. */
  lemma EntryInserted(paths: seq<Entry>, data: bytes, name: bytes, pos: nat)
    requires pos <= |paths| && forall i :: 0 <= i < |paths| ==> paths[i].offset + paths[i].len <= |data|
    ensures var longer := paths[..pos] + [Entry(|data|, |name|)] + paths[pos..];
            && (forall i :: 0 <= i < |longer| ==> longer[i].offset + longer[i].len <= |data + name|)
            && PathsIn(longer, data + name) == PathsIn(paths, data)[..pos] + [name] + PathsIn(paths, data)[pos..]
  {
    var longer := paths[..pos] + [Entry(|data|, |name|)] + paths[pos..];
    var v := PathsIn(paths, data);
    var w := v[..pos] + [name] + v[pos..];
    forall i | 0 <= i < |longer|
      ensures longer[i].offset + longer[i].len <= |data + name|
      ensures (data + name)[longer[i].offset..longer[i].offset + longer[i].len] == w[i]
    {
      if i == pos {
        SliceStays(data, name, 0, 0);
      } else {
        var k := if i < pos then i else i - 1;
        var e := paths[k];
        assert longer[i] == e && w[i] == v[k];
        SliceStays(data, name, e.offset, e.offset + e.len);
      }
    }
  }

  ghost function PathsIn(paths: seq<Entry>, data: bytes): (v: seq<bytes>)
    requires forall i :: 0 <= i < |paths| ==> paths[i].offset + paths[i].len <= |data|
    ensures |v| == |paths|
    ensures forall i :: 0 <= i < |v| ==> v[i] == data[paths[i].offset..paths[i].offset + paths[i].len]
  {
    seq(|paths|, i requires 0 <= i < |paths| => data[paths[i].offset..paths[i].offset + paths[i].len])
  }

  /** Everything before the place comes before the path, and everything from there on after it. */
  ghost predicate Place(v: seq<bytes>, path: bytes, pos: nat) {
    && pos <= |v| && (forall k :: 0 <= k < pos ==> Less(v[k], path))
    && (forall k :: pos <= k < |v| ==> Less(path, v[k]))
  }

  lemma BelowAll(v: seq<bytes>, path: bytes, pivot: nat)
    requires Sorted(v) && pivot < |v| && Less(path, v[pivot])
    ensures forall k :: pivot <= k < |v| ==> Less(path, v[k])
  {
    forall k | pivot < k < |v|
      ensures Less(path, v[k])
    {
      LessTransitive(path, v[pivot], v[k]);
    }
  }

  lemma AboveAll(v: seq<bytes>, path: bytes, pivot: nat)
    requires Sorted(v) && pivot < |v| && Less(v[pivot], path)
    ensures forall k :: 0 <= k <= pivot ==> Less(v[k], path)
  {
    forall k | 0 <= k < pivot
      ensures Less(v[k], path)
    {
      LessTransitive(v[k], v[pivot], path);
    }
  }

  lemma NotAmong(v: seq<bytes>, path: bytes, pos: nat)
    requires Place(v, path, pos)
    ensures path !in v
  {
    forall k | 0 <= k < |v|
      ensures v[k] != path
    {
      if k < pos {
        LessIsStrict(v[k], path);
      } else {
        LessIsStrict(path, v[k]);
      }
    }
  }
}
