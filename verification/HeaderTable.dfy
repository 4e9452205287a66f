/**
 The header table as a list of (header, name, value): what adding and removing mean,
 and what every sequence of additions and removals keeps.
 */
module HeaderTable {
  import opened Bytes
  import opened HttpNames
  import opened Sequences

  datatype Header = Header(id: nat, name: bytes, value: bytes)

  type Table = seq<Header>

  datatype Option<T> = None | Some(value: T)

  /** Whose value it is: a known header, or a name of some length, in lower case up to its NUL if it has one. */
  datatype Key = KnownKey(id: nat) | OtherKey(size: nat, lower: bytes)

  const SEPARATOR: bytes := [COMMA, SPACE]

  function LowerAll(name: bytes): (r: bytes)
    ensures |r| == |name| && forall i :: 0 <= i < |name| ==> r[i] == Lower(name[i])
  {
    seq(|name|, i requires 0 <= i < |name| => Lower(name[i]))
  }

  function KeyFor(id: nat, name: bytes): Key {
    if id == UNKNOWN then OtherKey(|name|, LowerAll(UpToNul(name))) else KnownKey(id)
  }

  function KeyOf(h: Header): Key {
    KeyFor(h.id, h.name)
  }

  /** Headers that are kept as several fields instead of one joined value. */
  predicate IsMultiple(d: Dictionary, k: Key) {
    k.KnownKey? && k.id < |d| && d[k.id].multiple
  }

  /** Known headers come in the order of their kinds; unknown ones come last. */
  function Rank(d: Dictionary, id: nat): nat {
    if id < |d| then d[id].kind else ENTITY + 1
  }

  predicate IsHeader(d: Dictionary, h: Header) {
    h.id == UNKNOWN || (h.id < |d| && h.name == d[h.id].name)
  }

  predicate Ordered(d: Dictionary, t: Table) {
    forall i, j :: 0 <= i < j < |t| ==> Rank(d, t[i].id) <= Rank(d, t[j].id)
  }

  predicate Unique(d: Dictionary, t: Table) {
    forall i, j :: 0 <= i < j < |t| && KeyOf(t[i]) == KeyOf(t[j]) ==> IsMultiple(d, KeyOf(t[i]))
  }

  predicate Sound(d: Dictionary, t: Table) {
    forall i :: 0 <= i < |t| ==> IsHeader(d, t[i])
  }

  predicate Valid(d: Dictionary, t: Table) {
    Sound(d, t) && Ordered(d, t) && Unique(d, t)
  }

  /** Where the header with this key is, if it is one that can be found. */
  function Find(d: Dictionary, t: Table, k: Key): (r: Option<nat>)
    ensures r.Some? ==> r.value < |t| && KeyOf(t[r.value]) == k && !IsMultiple(d, k)
    ensures r.None? && !IsMultiple(d, k) ==> forall i :: 0 <= i < |t| ==> KeyOf(t[i]) != k
    ensures r.Some? ==> forall i :: 0 <= i < r.value ==> KeyOf(t[i]) != k
  {
    if IsMultiple(d, k) || t == [] then None
    else if KeyOf(t[0]) == k then Some(0)
    else
      match Find(d, t[1..], k)
      case None => assert forall i :: 1 <= i < |t| ==> t[i] == t[1..][i - 1]; None
      case Some(i) => assert forall j :: 1 <= j < i + 1 ==> t[j] == t[1..][j - 1]; Some(i + 1)
  }

  /** Where a new header goes: behind everything that does not rank higher. */
  function Slot(d: Dictionary, t: Table, id: nat): (r: nat)
    ensures r <= |t|
    ensures forall i :: 0 <= i < r ==> Rank(d, t[i].id) <= Rank(d, id)
    ensures r < |t| ==> Rank(d, t[r].id) > Rank(d, id)
  {
    if t == [] || Rank(d, t[0].id) > Rank(d, id) then 0
    else
      var r := Slot(d, t[1..], id);
      assert forall i :: 1 <= i < r + 1 ==> t[i] == t[1..][i - 1];
      1 + r
  }

  function Add(d: Dictionary, t: Table, id: nat, name: bytes, value: bytes, replace: bool): Table {
    match Find(d, t, KeyFor(id, name))
    case None => var s := Slot(d, t, id); t[..s] + [Header(id, name, value)] + t[s..]
    case Some(i) => t[i := t[i].(value := if replace then value else t[i].value + SEPARATOR + value)]
  }

  function Remove(d: Dictionary, t: Table, k: Key): Table {
    match Find(d, t, k)
    case None => t
    case Some(i) => t[..i] + t[i + 1..]
  }

  /** The values that are stored under a key, in order. */
  function Values(t: Table, k: Key): seq<bytes> {
    if t == [] then [] else (if KeyOf(t[0]) == k then [t[0].value] else []) + Values(t[1..], k)
  }

  lemma {:induction false} ValuesConcat(s: Table, t: Table, k: Key)
    ensures Values(s + t, k) == Values(s, k) + Values(t, k)
  {
    if s == [] {
      assert s + t == t;
    } else {
      assert (s + t)[1..] == s[1..] + t;
      ValuesFirst(s, k);
      ValuesFirst(s + t, k);
      hide Values;
      ValuesConcat(s[1..], t, k);
      Associative(if KeyOf(s[0]) == k then [s[0].value] else [], Values(s[1..], k), Values(t, k));
    }
  }

  lemma ValuesFirst(t: Table, k: Key)
    requires t != []
    ensures Values(t, k) == (if KeyOf(t[0]) == k then [t[0].value] else []) + Values(t[1..], k)
  {
  }

  lemma {:induction false} ValuesAbsent(t: Table, k: Key)
    requires forall i :: 0 <= i < |t| ==> KeyOf(t[i]) != k
    ensures Values(t, k) == []
  {
    if t != [] {
      ValuesAbsent(t[1..], k);
    }
  }

  lemma {:induction false} ValuesAround(s: Table, h: Header, t: Table, k: Key)
    ensures Values(s + [h] + t, k) == Values(s, k) + (if KeyOf(h) == k then [h.value] else []) + Values(t, k)
  {
    ValuesConcat(s + [h], t, k);
    ValuesConcat(s, [h], k);
    assert [h][1..] == [] && Values([h], k) == (if KeyOf(h) == k then [h.value] else []) + Values([], k);
  }

  /** Unless a header is kept as several fields, a valid table has at most one value for it. */
  lemma ValuesFound(d: Dictionary, t: Table, k: Key)
    requires Unique(d, t) && !IsMultiple(d, k)
    ensures Values(t, k) == match Find(d, t, k) case None => [] case Some(i) => [t[i].value]
  {
    match Find(d, t, k)
    case None => ValuesAbsent(t, k);
    case Some(i) =>
      assert t == t[..i] + [t[i]] + t[i + 1..];
      ValuesAround(t[..i], t[i], t[i + 1..], k);
      ValuesAbsent(t[..i], k);
      ValuesAbsent(t[i + 1..], k);
  }

  /** In an ordered table, nothing from the slot on has the same key. */
  lemma SlotBound(d: Dictionary, t: Table, id: nat, name: bytes)
    requires Sound(d, t) && Ordered(d, t) && (id < |d| <= UNKNOWN || id == UNKNOWN)
    ensures forall i :: Slot(d, t, id) <= i < |t| ==> Rank(d, t[i].id) > Rank(d, id) && KeyOf(t[i]) != KeyFor(id, name)
  {
  }

  lemma InsertValues(t: Table, s: nat, h: Header, k: Key)
    requires s <= |t| && forall i :: s <= i < |t| ==> KeyOf(t[i]) != KeyOf(h)
    ensures Values(t[..s] + [h] + t[s..], k) == if k == KeyOf(h) then Values(t, k) + [h.value] else Values(t, k)
  {
    var a, b := t[..s], t[s..];
    assert t == a + b;
    ValuesConcat(a, b, k);
    ValuesAround(a, h, b, k);
    if k == KeyOf(h) {
      ValuesAbsent(b, k);
    }
  }

  lemma UpdateValues(d: Dictionary, t: Table, i: nat, value: bytes, k: Key)
    requires Unique(d, t) && i < |t| && Find(d, t, KeyOf(t[i])) == Some(i)
    ensures Values(t[i := t[i].(value := value)], k) == if k == KeyOf(t[i]) then [value] else Values(t, k)
    ensures Values(t, KeyOf(t[i])) == [t[i].value]
  {
    var h := t[i].(value := value);
    assert t == t[..i] + [t[i]] + t[i + 1..];
    assert t[i := h] == t[..i] + [h] + t[i + 1..];
    ValuesAround(t[..i], t[i], t[i + 1..], k);
    ValuesAround(t[..i], h, t[i + 1..], k);
    ValuesFound(d, t, KeyOf(t[i]));
    if k == KeyOf(t[i]) {
      ValuesAbsent(t[..i], k);
      assert Values(t[i + 1..], k) == [];
    }
  }

  /** What one addition does: to the values of its own key, and to all others nothing. */
  lemma AddValues(d: Dictionary, t: Table, id: nat, name: bytes, value: bytes, replace: bool, k: Key)
    requires WellFormed(d) && Valid(d, t) && IsHeader(d, Header(id, name, value))
    ensures var own := KeyFor(id, name);
            Values(Add(d, t, id, name, value, replace), k) ==
            if k != own then Values(t, k)
            else if IsMultiple(d, own) then Values(t, k) + [value]
            else if Values(t, k) == [] || replace then [value]
            else [Values(t, k)[0] + SEPARATOR + value]
  {
    var own := KeyFor(id, name);
    match Find(d, t, own)
    case None =>
      SlotBound(d, t, id, name);
      InsertValues(t, Slot(d, t, id), Header(id, name, value), k);
      if !IsMultiple(d, own) {
        ValuesAbsent(t, own);
      }
    case Some(i) =>
      UpdateValues(d, t, i, if replace then value else t[i].value + SEPARATOR + value, k);
  }

  /** Adding keeps the order, the uniqueness and every name. */
  lemma AddValid(d: Dictionary, t: Table, id: nat, name: bytes, value: bytes, replace: bool)
    requires WellFormed(d) && Valid(d, t) && IsHeader(d, Header(id, name, value))
    ensures Valid(d, Add(d, t, id, name, value, replace))
  {
    var own := KeyFor(id, name);
    if Find(d, t, own).None? {
      SlotBound(d, t, id, name);
      var s, h := Slot(d, t, id), Header(id, name, value);
      InsertValid(d, t, s, h);
    }
  }

  lemma InsertValid(d: Dictionary, t: Table, s: nat, h: Header)
    requires Valid(d, t) && IsHeader(d, h) && s <= |t|
    requires forall i :: 0 <= i < s ==> Rank(d, t[i].id) <= Rank(d, h.id)
    requires forall i :: s <= i < |t| ==> Rank(d, t[i].id) > Rank(d, h.id)
    requires forall i :: 0 <= i < |t| && KeyOf(t[i]) == KeyOf(h) ==> IsMultiple(d, KeyOf(h))
    ensures Valid(d, t[..s] + [h] + t[s..])
  {
    hide IsHeader, Rank, IsMultiple;
    var t' := t[..s] + [h] + t[s..];
    assert forall i :: 0 <= i < |t'| ==> t'[i] == if i < s then t[i] else if i == s then h else t[i - 1];
  }

  lemma RemoveValues(d: Dictionary, t: Table, own: Key, k: Key)
    requires Unique(d, t)
    ensures Values(Remove(d, t, own), k) == if k == own && !IsMultiple(d, own) then [] else Values(t, k)
  {
    match Find(d, t, own)
    case None =>
      if !IsMultiple(d, own) {
        ValuesAbsent(t, own);
      }
    case Some(i) =>
      assert t == t[..i] + [t[i]] + t[i + 1..];
      ValuesAround(t[..i], t[i], t[i + 1..], k);
      ValuesConcat(t[..i], t[i + 1..], k);
      if k == own {
        ValuesFound(d, t, own);
        ValuesAbsent(t[..i], own);
        assert Values(t[i + 1..], own) == [];
      }
  }

  lemma RemoveValid(d: Dictionary, t: Table, k: Key)
    requires Valid(d, t)
    ensures Valid(d, Remove(d, t, k))
  {
    if Find(d, t, k).Some? {
      var i, t' := Find(d, t, k).value, Remove(d, t, k);
      assert forall j :: 0 <= j < |t'| ==> t'[j] == t[if j < i then j else j + 1];
    }
  }

  /** One call on the table. */
  datatype Edit =
    | AddEdit(id: nat, name: bytes, value: bytes, replace: bool)
    | RemoveEdit(key: Key)

  predicate IsEdit(d: Dictionary, e: Edit) {
    e.AddEdit? ==> IsHeader(d, Header(e.id, e.name, e.value))
  }

  function Apply(d: Dictionary, t: Table, e: Edit): Table {
    match e
    case AddEdit(id, name, value, replace) => Add(d, t, id, name, value, replace)
    case RemoveEdit(key) => Remove(d, t, key)
  }

  function ApplyAll(d: Dictionary, edits: seq<Edit>): Table {
    if edits == [] then [] else Apply(d, ApplyAll(d, edits[..|edits| - 1]), edits[|edits| - 1])
  }

  /** The values that the edits have left under a key, since its last replacement or removal. */
  function History(d: Dictionary, edits: seq<Edit>, k: Key): seq<bytes> {
    if edits == [] then []
    else
      var before, e := History(d, edits[..|edits| - 1], k), edits[|edits| - 1];
      match e
      case AddEdit(id, name, value, replace) =>
        if KeyFor(id, name) != k then before
        else if replace && !IsMultiple(d, k) then [value]
        else before + [value]
      case RemoveEdit(key) =>
        if key == k && !IsMultiple(d, k) then [] else before
  }

  function CommaJoin(values: seq<bytes>): bytes {
    if values == [] then []
    else if |values| == 1 then values[0]
    else CommaJoin(values[..|values| - 1]) + SEPARATOR + values[|values| - 1]
  }

  lemma CommaJoinSnoc(h: seq<bytes>, value: bytes)
    ensures CommaJoin(h + [value]) == if h == [] then value else CommaJoin(h) + SEPARATOR + value
  {
    assert (h + [value])[..|h|] == h;
  }

  lemma ApplyValid(d: Dictionary, t: Table, e: Edit)
    requires WellFormed(d) && IsEdit(d, e) && Valid(d, t)
    ensures Valid(d, Apply(d, t, e))
  {
    match e
    case AddEdit(id, name, value, replace) => AddValid(d, t, id, name, value, replace);
    case RemoveEdit(key) => RemoveValid(d, t, key);
  }

  lemma EditKeepsHistory(d: Dictionary, t: Table, before: seq<Edit>, e: Edit, k: Key)
    requires WellFormed(d) && IsEdit(d, e) && Valid(d, t)
    requires Values(t, k) == Joined(d, k, History(d, before, k))
    ensures Values(Apply(d, t, e), k) == Joined(d, k, History(d, before + [e], k))
  {
    var h := History(d, before, k);
    assert (before + [e])[..|before|] == before;
    match e
    case AddEdit(id, name, value, replace) =>
      AddValues(d, t, id, name, value, replace, k);
      CommaJoinSnoc(h, value);
      CommaJoinSnoc([], value);
      assert [] + [value] == [value];
    case RemoveEdit(key) =>
      RemoveValues(d, t, key, k);
  }

  lemma {:induction false} EditsValid(d: Dictionary, edits: seq<Edit>)
    requires WellFormed(d) && forall i :: 0 <= i < |edits| ==> IsEdit(d, edits[i])
    ensures Valid(d, ApplyAll(d, edits))
  {
    if edits != [] {
      EditsValid(d, edits[..|edits| - 1]);
      ApplyValid(d, ApplyAll(d, edits[..|edits| - 1]), edits[|edits| - 1]);
    }
  }

  /** What a key holds when its history is `h`. */
  function Joined(d: Dictionary, k: Key, h: seq<bytes>): seq<bytes> {
    if IsMultiple(d, k) || h == [] then h else [CommaJoin(h)]
  }

  /**
     After any sequence of edits the table is ordered and unique, and each key holds the ", "-join of its
     history, or its history field by field when it is kept as several fields.
   */
  lemma {:induction false} EditsKeepHistory(d: Dictionary, edits: seq<Edit>, k: Key)
    requires WellFormed(d) && forall i :: 0 <= i < |edits| ==> IsEdit(d, edits[i])
    ensures Valid(d, ApplyAll(d, edits))
    ensures Values(ApplyAll(d, edits), k) == Joined(d, k, History(d, edits, k))
  {
    EditsValid(d, edits);
    if edits != [] {
      var before, e := edits[..|edits| - 1], edits[|edits| - 1];
      EditsKeepHistory(d, before, k);
      EditKeepsHistory(d, ApplyAll(d, before), before, e, k);
      assert edits == before + [e];
    }
  }
}
