/** Header names: a table of known ones in alphabetical order, and how a name is looked up in it. */
module HttpNames {
  import opened Bytes

  /** The last of the four kinds of headers, which are numbered from general ones on. */
  const ENTITY := 3

  const UNKNOWN := 0xff

  datatype KnownHeader = KnownHeader(name: bytes, kind: nat, commas: bool, single: bool, multiple: bool)

  type Dictionary = seq<KnownHeader>

  function Lower(c: byte): byte {
    if 0x41 <= c <= 0x5a then c + 0x20 else c
  }

  /** Two bytes are the same, or one is the capital of the letter that the other is. */
  predicate SameLetter(a: byte, b: byte) {
    a == b || ('A' <= a as char <= 'Z' && b == a + 0x20) || ('A' <= b as char <= 'Z' && a == b + 0x20)
  }

  /** `a` is the name `b`, with its letters in any case. */
  predicate IsSpelling(a: bytes, b: bytes) {
    |a| == |b| && forall i :: 0 <= i < |a| ==> SameLetter(a[i], b[i])
  }

  lemma SameNameIs(a: bytes, b: bytes)
    ensures SameName(a, b) <==> IsSpelling(a, b)
  {
    if |a| == |b| {
      forall i | 0 <= i < |a|
        ensures Lower(a[i]) == Lower(b[i]) <==> SameLetter(a[i], b[i])
      {
      }
    }
  }

  predicate SameName(a: bytes, b: bytes) {
    |a| == |b| && forall i :: 0 <= i < |a| ==> Lower(a[i]) == Lower(b[i])
  }

  /** A name that a header line can carry: printable, without a colon. */
  predicate IsToken(name: bytes) {
    name != [] && forall i :: 0 <= i < |name| ==> ' ' < name[i] as char <= '~' && name[i] as char != ':'
  }

  /** `strncasecmp(name, known, |name|)` against a NUL-terminated string: it stops at the first difference or NUL. */
  function Compare(name: bytes, known: bytes): int {
    if name == [] then 0
    else
      var a, b := Lower(name[0]), if known == [] then 0 else Lower(known[0]);
      if a != b then a - b else if a == 0 then 0 else Compare(name[1..], known[1..])
  }

  /** The names agree before `k`, and `a` comes first there. */
  ghost predicate LessAt(a: bytes, b: bytes, k: int) {
    && 0 <= k <= |a| && k < |b| && (k < |a| ==> Lower(a[k]) < Lower(b[k]))
    && forall i :: 0 <= i < k ==> Lower(a[i]) == Lower(b[i])
  }

  ghost predicate Less(a: bytes, b: bytes) {
    exists k :: LessAt(a, b, k)
  }

  lemma LessTransitive(a: bytes, b: bytes, c: bytes)
    requires Less(a, b) && Less(b, c)
    ensures Less(a, c)
  {
    var k :| LessAt(a, b, k);
    var l :| LessAt(b, c, l);
    assert LessAt(a, c, if k < l then k else l);
  }

  lemma LessIsStrict(a: bytes, b: bytes)
    requires Less(a, b)
    ensures !SameName(a, b) && !Less(b, a)
  {
    var k :| LessAt(a, b, k);
    forall l
      ensures !LessAt(b, a, l)
    {
    }
  }

  /** The three-way comparison of the search, in terms of the order. */
  lemma {:induction false} CompareIsLess(name: bytes, known: bytes)
    requires 0 !in known
    ensures Compare(name, known) < 0 || (Compare(name, known) == 0 && |name| < |known|) ==> Less(name, known)
    ensures Compare(name, known) > 0 || (Compare(name, known) == 0 && |name| > |known|) ==> Less(known, name)
    ensures Compare(name, known) == 0 && |name| == |known| ==> SameName(name, known)
  {
    if name == [] {
      if known != [] {
        assert LessAt(name, known, 0);
      }
    } else if known == [] || Lower(name[0]) != Lower(known[0]) {
      assert LessAt(name, known, 0) || LessAt(known, name, 0);
    } else {
      var n, k := name[1..], known[1..];
      CompareIsLess(n, k);
      LessTail(name, known);
      LessTail(known, name);
      if SameName(n, k) {
        assert forall j :: 1 <= j < |name| ==> name[j] == n[j - 1] && known[j] == k[j - 1];
      }
    }
  }

  lemma LessTail(a: bytes, b: bytes)
    requires a != [] && b != [] && Lower(a[0]) == Lower(b[0])
    ensures Less(a[1..], b[1..]) ==> Less(a, b)
  {
    if Less(a[1..], b[1..]) {
      var i :| LessAt(a[1..], b[1..], i);
      assert forall j :: 1 <= j < i + 1 ==> a[j] == a[1..][j - 1] && b[j] == b[1..][j - 1];
      assert LessAt(a, b, i + 1);
    }
  }

  lemma SameNameVia(a: bytes, b: bytes, c: bytes)
    ensures SameName(a, b) == SameName(b, a)
    ensures SameName(b, a) && SameName(b, c) ==> SameName(a, c)
  {
  }

  /** A table that can be searched: printable names, strictly ordered. */
  ghost predicate WellFormed(d: Dictionary) {
    && |d| <= UNKNOWN
    && (forall i :: 0 <= i < |d| ==> IsToken(d[i].name) && d[i].kind <= 3 && (d[i].multiple ==> d[i].commas))
    && (forall i, j :: 0 <= i < j < |d| ==> Less(d[i].name, d[j].name))
  }

  function LookupFrom(d: Dictionary, name: bytes, i: nat): (r: nat)
    requires i <= |d|
    ensures r < |d| || r == UNKNOWN
    decreases |d| - i
  {
    if i == |d| then UNKNOWN else if SameName(name, d[i].name) then i else LookupFrom(d, name, i + 1)
  }

  /** The known header of this name in any case, or UNKNOWN. */
  function Lookup(d: Dictionary, name: bytes): (r: nat)
    ensures r < |d| || r == UNKNOWN
  {
    LookupFrom(d, name, 0)
  }

  lemma {:induction false} LookupIs(d: Dictionary, name: bytes, i: nat, k: nat)
    requires WellFormed(d) && i <= k < |d| && SameName(name, d[k].name)
    ensures LookupFrom(d, name, i) == k
    decreases k - i
  {
    if i < k {
      LessIsStrict(d[i].name, d[k].name);
      SameNameVia(d[i].name, name, d[k].name);
      LookupIs(d, name, i + 1, k);
    }
  }

  lemma {:induction false} LookupIsNot(d: Dictionary, name: bytes, i: nat)
    requires i <= |d| && forall k :: i <= k < |d| ==> !SameName(name, d[k].name)
    ensures LookupFrom(d, name, i) == UNKNOWN
    decreases |d| - i
  {
    if i < |d| {
      LookupIsNot(d, name, i + 1);
    }
  }

  /** Any spelling of a known name is looked up as that header, and whatever is found has been spelled so. */
  lemma LookupSpelling(d: Dictionary, name: bytes, k: nat)
    requires WellFormed(d) && k < |d|
    ensures Lookup(d, name) == k <==> IsSpelling(name, d[k].name)
  {
    SameNameIs(name, d[k].name);
    if SameName(name, d[k].name) {
      LookupIs(d, name, 0, k);
    } else if Lookup(d, name) == k {
      LookupFinds(d, name, 0);
    }
  }

  lemma {:induction false} LookupFinds(d: Dictionary, name: bytes, i: nat)
    requires i <= |d| < UNKNOWN + 1
    ensures var k := LookupFrom(d, name, i); k < |d| ==> SameName(name, d[k].name)
    decreases |d| - i
  {
    if i < |d| {
      LookupFinds(d, name, i + 1);
    }
  }

  /** The binary search: it agrees with looking at every entry, and finds a header under any spelling of its name. */
  method GetHeader(d: Dictionary, name: bytes) returns (header: nat)
    requires WellFormed(d)
    ensures header == Lookup(d, name)
    ensures forall k :: 0 <= k < |d| ==> (header == k <==> IsSpelling(name, d[k].name))
  {
    forall k | 0 <= k < |d|
      ensures Lookup(d, name) == k <==> IsSpelling(name, d[k].name)
    {
      LookupSpelling(d, name, k);
    }
    hide IsSpelling;
    var i, j := 0, |d| - 1;
    while i <= j
      invariant 0 <= i <= |d| && -1 <= j < |d|
      invariant forall k :: 0 <= k < i ==> !SameName(name, d[k].name)
      invariant forall k :: j < k < |d| ==> !SameName(name, d[k].name)
      decreases j - i + 1
    {
      var pivot := (i + j) / 2;
      var ret := Compare(name, d[pivot].name);
      CompareIsLess(name, d[pivot].name);
      if Less(name, d[pivot].name) {
        NotFrom(d, name, pivot);
      }
      if Less(d[pivot].name, name) {
        NotUpTo(d, name, pivot);
      }
      if ret < 0 {
        j := pivot - 1;
      } else if ret == 0 {
        if |name| < |d[pivot].name| {
          j := pivot - 1;
        } else if |name| == |d[pivot].name| {
          LookupIs(d, name, 0, pivot);
          return pivot;
        } else {
          i := pivot + 1;
        }
      } else {
        i := pivot + 1;
      }
    }
    LookupIsNot(d, name, 0);
    header := UNKNOWN;
  }

  /** A NUL-terminated name, up to its NUL. */
  function UpToNul(name: bytes): bytes {
    if name == [] || name[0] == 0 then [] else [name[0]] + UpToNul(name[1..])
  }

  /** `strncasecmp` finds two names of one length equal if they agree up to their NULs. */
  lemma {:induction false} CompareEqual(a: bytes, b: bytes)
    requires |a| == |b|
    ensures Compare(a, b) == 0 <==> SameName(UpToNul(a), UpToNul(b))
  {
    if a != [] {
      CompareEqual(a[1..], b[1..]);
      var x, y := UpToNul(a), UpToNul(b);
      if a[0] != 0 && b[0] != 0 {
        assert x[1..] == UpToNul(a[1..]) && y[1..] == UpToNul(b[1..]);
        SameNameTail(x, y);
      }
    }
  }

  lemma SameNameTail(a: bytes, b: bytes)
    requires a != [] && b != []
    ensures SameName(a, b) <==> Lower(a[0]) == Lower(b[0]) && SameName(a[1..], b[1..])
  {
    if Lower(a[0]) == Lower(b[0]) && SameName(a[1..], b[1..]) {
      forall i | 0 <= i < |a|
        ensures Lower(a[i]) == Lower(b[i])
      {
        assert i > 0 ==> a[i] == a[1..][i - 1] && b[i] == b[1..][i - 1];
      }
    }
  }

  lemma NotFrom(d: Dictionary, name: bytes, p: nat)
    requires WellFormed(d) && p < |d| && Less(name, d[p].name)
    ensures forall k :: p <= k < |d| ==> !SameName(name, d[k].name)
  {
    forall k | p <= k < |d|
      ensures !SameName(name, d[k].name)
    {
      if p < k {
        LessTransitive(name, d[p].name, d[k].name);
      }
      LessIsStrict(name, d[k].name);
    }
  }

  lemma NotUpTo(d: Dictionary, name: bytes, p: nat)
    requires WellFormed(d) && p < |d| && Less(d[p].name, name)
    ensures forall k :: 0 <= k <= p ==> !SameName(name, d[k].name)
  {
    forall k | 0 <= k <= p
      ensures !SameName(name, d[k].name)
    {
      if k < p {
        LessTransitive(d[k].name, d[p].name, name);
      }
      LessIsStrict(d[k].name, name);
      SameNameVia(d[k].name, name, d[k].name);
    }
  }
}
