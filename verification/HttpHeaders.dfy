/**
 The header store: a table of entries that point into an append-only arena of bytes,
 with the positions of the parser and the serialiser that folds long lines.
 */
module HttpHeaders {
  import opened Bytes
  import opened HttpNames
  import opened HeaderTable
  import opened HeaderValues
  import opened HeaderParsing
  import opened HeaderRoundTrip
  import opened HeaderFolding
  import opened Sequences

  datatype Entry = Entry(header: nat, name: nat, namelen: nat, value: nat, valuelen: nat)

  datatype Code = ERROR_NO_MEMORY | ERROR_WRONG_HEADERS | ERROR_HEADERS_TOO_LARGE | NOT_END_OF_HEADER | END_OF_HEADER

  lemma {:induction false} FindIs(d: Dictionary, t: Table, k: Key, pos: nat)
    requires pos < |t| && KeyOf(t[pos]) == k && !IsMultiple(d, k) && forall i :: 0 <= i < pos ==> KeyOf(t[i]) != k
    ensures Find(d, t, k) == Some(pos)
  {
    hide Find;
    var found := Find(d, t, k);
  }

  lemma EmptyIsValid(d: Dictionary)
    ensures HeaderTable.Valid(d, []) && TidyValues([])
  {
  }

  lemma FindIsNot(d: Dictionary, t: Table, k: Key)
    requires IsMultiple(d, k) || forall i :: 0 <= i < |t| ==> KeyOf(t[i]) != k
    ensures Find(d, t, k) == None
  {
    hide Find;
    var found := Find(d, t, k);
  }

  lemma SlotIs(d: Dictionary, t: Table, id: nat, pos: nat)
    requires pos <= |t| && (pos < |t| ==> Rank(d, t[pos].id) > Rank(d, id))
    requires forall i :: 0 <= i < pos ==> Rank(d, t[i].id) <= Rank(d, id)
    ensures Slot(d, t, id) == pos
  {
    hide Slot;
    var slot := Slot(d, t, id);
  }

  ghost predicate InArena(d: Dictionary, arena: bytes, e: Entry) {
    && (e.header == UNKNOWN || (e.header < |d| && e.namelen == |d[e.header].name|))
    && (e.header == UNKNOWN ==> e.name + e.namelen <= |arena|)
    && e.value + e.valuelen <= |arena|
  }

  ghost predicate AllInArena(d: Dictionary, arena: bytes, entries: seq<Entry>) {
    forall i :: 0 <= i < |entries| ==> InArena(d, arena, entries[i])
  }

  /** The header that an entry stands for. */
  ghost function Meaning(d: Dictionary, arena: bytes, e: Entry): Header
    requires InArena(d, arena, e)
  {
    Header(e.header, if e.header == UNKNOWN then arena[e.name..e.name + e.namelen] else d[e.header].name,
           arena[e.value..e.value + e.valuelen])
  }

  ghost function Meanings(d: Dictionary, arena: bytes, entries: seq<Entry>): (t: Table)
    requires AllInArena(d, arena, entries)
    ensures |t| == |entries| && forall i :: 0 <= i < |t| ==> t[i] == Meaning(d, arena, entries[i])
  {
    seq(|entries|, i requires 0 <= i < |entries| => Meaning(d, arena, entries[i]))
  }

  /** Appending to the arena changes nothing that an entry stands for. */
  lemma MeaningsGrow(d: Dictionary, arena: bytes, more: bytes, entries: seq<Entry>)
    requires AllInArena(d, arena, entries)
    ensures AllInArena(d, arena + more, entries) && Meanings(d, arena + more, entries) == Meanings(d, arena, entries)
  {
    forall i | 0 <= i < |entries|
      ensures InArena(d, arena + more, entries[i]) && Meaning(d, arena + more, entries[i]) == Meaning(d, arena, entries[i])
    {
      var e := entries[i];
      SliceStays(arena, more, e.value, e.value + e.valuelen);
      if e.header == UNKNOWN {
        SliceStays(arena, more, e.name, e.name + e.namelen);
      }
    }
  }

  lemma MeaningExtended(d: Dictionary, arena: bytes, e: Entry, value: bytes)
    requires InArena(d, arena, e) && e.value + e.valuelen == |arena|
    ensures var arena', e' := arena + (value + [0]), e.(valuelen := e.valuelen + |value|);
            && InArena(d, arena', e')
            && Meaning(d, arena', e') == Meaning(d, arena, e).(value := Meaning(d, arena, e).value + value)
  {
    SliceGrows(arena, value, [0], e.value);
    if e.header == UNKNOWN {
      SliceStays(arena, value + [0], e.name, e.name + e.namelen);
    }
  }

  lemma SliceGrows(a: bytes, b: bytes, c: bytes, from: nat)
    requires from <= |a|
    ensures (a + (b + c))[from..|a| + |b|] == a[from..|a|] + b
  {
  }

  /** Cleaned values, joined or not, are tidy. */
  lemma AddTidy(d: Dictionary, t: Table, id: nat, name: bytes, raw: bytes, replace: bool)
    requires TidyValues(t)
    ensures TidyValues(Add(d, t, id, name, Clean(raw), replace))
  {
    hide Find, Slot, Clean, TidyFrom;
    CleanIsTidy(raw);
    match Find(d, t, KeyFor(id, name))
    case None =>
    case Some(i) => JoinTidy(t[i].value, Clean(raw));
  }

  lemma JoinTidy(a: bytes, b: bytes)
    requires Tidy(a) && Tidy(b)
    ensures Tidy(a + SEPARATOR + b)
  {
    var blank: bytes := [SPACE];
    assert blank[1..] == [] && TidyFrom(blank, false);
    assert SEPARATOR[1..] == blank && forall gap :: TidyFrom(SEPARATOR, gap);
    TidyConcat(a, SEPARATOR, true);
    TidyConcat(a + SEPARATOR, b, true);
    assert (a + SEPARATOR)[|a + SEPARATOR| - 1] == SPACE;
  }

  lemma RemoveTidy(d: Dictionary, t: Table, k: Key)
    requires TidyValues(t)
    ensures TidyValues(Remove(d, t, k))
  {
    hide Find, TidyFrom;
    var t' := Remove(d, t, k);
    if Find(d, t, k).Some? {
      var i := Find(d, t, k).value;
      assert forall j :: 0 <= j < |t'| ==> t'[j] == t[if j < i then j else j + 1];
    }
  }

  lemma RemoveIs(d: Dictionary, t: Table, k: Key)
    ensures Remove(d, t, k) == match Find(d, t, k) case None => t case Some(i) => t[..i] + t[i + 1..]
  {
  }

  /** An addition that was not refused leaves the store within its limits. */
  lemma AddFits(d: Dictionary, st: Store, id: nat, name: bytes, raw: bytes, replace: bool)
    requires !Full(d, st, id, name, |raw|, replace) && |st.table| <= MAX_ENTRIES
    ensures var st' := AddRaw(d, st, id, name, raw, replace).value; st'.used <= MAX_ARENA && |st'.table| <= MAX_ENTRIES
  {
    hide Find, Slot;
    CleanShortens(raw, 0);
  }

  lemma MeaningMoved(d: Dictionary, arena: bytes, e: Entry, value: bytes)
    requires InArena(d, arena, e)
    ensures var e' := e.(value := |arena|, valuelen := |value|);
            && InArena(d, arena + value, e')
            && Meaning(d, arena + value, e') == Meaning(d, arena, e).(value := value)
  {
    assert (arena + value)[|arena|..|arena| + |value|] == value;
    if e.header == UNKNOWN {
      assert (arena + value)[e.name..e.name + e.namelen] == arena[e.name..e.name + e.namelen];
    }
  }

  lemma MeaningsInsert(d: Dictionary, arena: bytes, entries: seq<Entry>, pos: nat, e: Entry)
    requires AllInArena(d, arena, entries) && InArena(d, arena, e) && pos <= |entries|
    ensures var es, t := entries[..pos] + [e] + entries[pos..], Meanings(d, arena, entries);
            AllInArena(d, arena, es) && Meanings(d, arena, es) == t[..pos] + [Meaning(d, arena, e)] + t[pos..]
  {
    var es := entries[..pos] + [e] + entries[pos..];
    assert forall i :: 0 <= i < |es| ==> es[i] == if i < pos then entries[i] else if i == pos then e else entries[i - 1];
  }

  lemma MeaningsUpdate(d: Dictionary, arena: bytes, entries: seq<Entry>, pos: nat, e: Entry)
    requires AllInArena(d, arena, entries) && InArena(d, arena, e) && pos < |entries|
    ensures AllInArena(d, arena, entries[pos := e])
    ensures Meanings(d, arena, entries[pos := e]) == Meanings(d, arena, entries)[pos := Meaning(d, arena, e)]
  {
  }

  /** Where the added value is. */
  function PlaceOf(d: Dictionary, t: Table, id: nat, name: bytes): nat {
    match Find(d, t, KeyFor(id, name))
    case None => Slot(d, t, id)
    case Some(i) => i
  }

  /** A value can be added empty and be filled in afterwards. */
  lemma AddExtend(d: Dictionary, t: Table, id: nat, name: bytes, value: bytes, replace: bool)
    ensures var pos, t' := PlaceOf(d, t, id, name), Add(d, t, id, name, [], replace);
            pos < |t'| && Add(d, t, id, name, value, replace) == t'[pos := t'[pos].(value := t'[pos].value + value)]
  {
    hide Find, Slot;
    var pos := PlaceOf(d, t, id, name);
    if Find(d, t, KeyFor(id, name)).Some? && !replace {
      assert t[pos].value + SEPARATOR + [] == t[pos].value + SEPARATOR;
    }
    assert [] + value == value;
  }

  class Headers {
    const dict: Dictionary
    var entries: seq<Entry>
    var arena: bytes
    var maxLineLen: nat
    var ignoreErrors: bool

    var offset: nat
    var token: nat
    var end: nat
    var name: nat
    var namelen: nat
    var state: nat
    var header: nat
    var nCRLFs: nat

    ghost predicate Slices()
      reads this
    {
      AllInArena(dict, arena, entries)
    }

    ghost function View(): Table
      requires Slices()
      reads this
    {
      Meanings(dict, arena, entries)
    }

    ghost predicate Valid()
      reads this
    {
      && WellFormed(dict) && Slices() && HeaderTable.Valid(dict, View()) && TidyValues(View())
      && |arena| <= MAX_ARENA && |entries| <= MAX_ENTRIES
    }

    ghost function Stored(): Store
      requires Slices()
      reads this
    {
      Store(View(), |arena|)
    }

    constructor (dict: Dictionary, maxLineLen: nat)
      requires WellFormed(dict)
      ensures Valid() && this.dict == dict && this.maxLineLen == maxLineLen && ignoreErrors
      ensures Scanned() == INITIAL
    {
      this.dict := dict;
      this.maxLineLen := maxLineLen;
      ignoreErrors := true;
      entries, arena := [], [];
      offset, token, end, name, namelen, state, header, nCRLFs := 0, 0, 0, 0, 0, 0, UNKNOWN, 1;
    }

    /** The positions of the parser, with the store. */
    ghost function Scanned(): Scan
      requires Slices()
      reads this
    {
      Scan(offset, token, end, name, namelen, state, header, nCRLFs, Stored())
    }

    method Reset()
      requires WellFormed(dict)
      modifies this
      ensures Valid() && Scanned() == INITIAL && maxLineLen == old(maxLineLen) && ignoreErrors == old(ignoreErrors)
    {
      hide WellFormed, HeaderTable.Valid, TidyValues;
      EmptyIsValid(dict);
      entries, arena := [], [];
      offset, token, end, name, namelen, state, header, nCRLFs := 0, 0, 0, 0, 0, 0, UNKNOWN, 1;
    }

    /** Search for a known header: its position, or the position where it belongs. */
    method SearchKnown(id: nat) returns (found: bool, pos: nat)
      requires Valid() && id < |dict|
      ensures found ==> Find(dict, View(), KnownKey(id)) == Some(pos)
      ensures !found ==> Find(dict, View(), KnownKey(id)) == None && pos == Slot(dict, View(), id)
    {
      ghost var t := View();
      pos := 0;
      while pos < |entries|
        invariant pos <= |entries|
        invariant forall i :: 0 <= i < pos ==> KeyOf(t[i]) != KnownKey(id) || dict[id].multiple
        invariant forall i :: 0 <= i < pos ==> Rank(dict, t[i].id) <= Rank(dict, id)
      {
        var e := entries[pos].header;
        assert t[pos] == Meaning(dict, arena, entries[pos]);
        if id == e && !dict[id].multiple {
          FindIs(dict, t, KnownKey(id), pos);
          return true, pos;
        } else if e == UNKNOWN || dict[id].kind < dict[e].kind {
          break;
        }
        pos := pos + 1;
      }
      SlotIs(dict, t, id, pos);
      SlotBound(dict, t, id, []);
      FindIsNot(dict, t, KnownKey(id));
      found := false;
    }

    /** Search for an unknown header by its name; a new one belongs at the end. */
    method SearchUnknown(wanted: bytes) returns (found: bool, pos: nat)
      requires Valid()
      ensures found ==> Find(dict, View(), KeyFor(UNKNOWN, wanted)) == Some(pos)
      ensures !found ==> Find(dict, View(), KeyFor(UNKNOWN, wanted)) == None && pos == Slot(dict, View(), UNKNOWN)
    {
      ghost var t, k := View(), KeyFor(UNKNOWN, wanted);
      pos := 0;
      while pos < |entries|
        invariant pos <= |entries|
        invariant forall i :: 0 <= i < pos ==> KeyOf(t[i]) != k
      {
        var e := entries[pos];
        assert t[pos] == Meaning(dict, arena, e);
        if e.header == UNKNOWN {
          var other := arena[e.name..e.name + e.namelen];
          KeyIsName(wanted, other);
          if |wanted| == e.namelen && Compare(wanted, other) == 0 {
            FindIs(dict, t, k, pos);
            return true, pos;
          }
        }
        pos := pos + 1;
      }
      SlotIs(dict, t, UNKNOWN, pos);
      FindIsNot(dict, t, k);
      found := false;
    }

    static lemma KeyIsName(a: bytes, b: bytes)
      ensures KeyFor(UNKNOWN, a) == KeyFor(UNKNOWN, b) <==> |a| == |b| && Compare(a, b) == 0
    {
      if |a| == |b| {
        CompareEqual(a, b);
        var x, y := UpToNul(a), UpToNul(b);
        if LowerAll(x) == LowerAll(y) {
          assert forall i :: 0 <= i < |x| ==> LowerAll(x)[i] == LowerAll(y)[i];
        }
      }
    }

    /** `allocate_data`: the arena grows in steps of 1024 bytes and must stay countable. */
    method CanAllocate(len: nat) returns (ok: bool)
      requires |arena| <= MAX_ARENA
      ensures ok <==> |arena| + len <= 64512
    {
      var size := |arena| + len;
      var quotient := size / 1024;
      if size % 1024 != 0 {
        quotient := quotient + 1;
      }
      ok := quotient * 1024 <= 0xffff;
    }

    /** Make room in the table and write the name of an unknown header to the arena. */
    method InsertEntry(id: nat, wanted: bytes, pos: nat)
      requires Slices() && pos <= |entries| && (id == UNKNOWN || (id < |dict| && wanted == dict[id].name))
      modifies `entries, `arena
      ensures Slices() && View() == old(View())[..pos] + [Header(id, wanted, [])] + old(View())[pos..]
      ensures |entries| == |old(entries)| + 1 && entries[pos].value == |arena| && entries[pos].valuelen == 0
      ensures |arena| == |old(arena)| + if id == UNKNOWN then |wanted| + 1 else 0
    {
      var e;
      if id == UNKNOWN {
        MeaningsGrow(dict, arena, wanted + [0], entries);
        var at := |arena|;
        arena := arena + (wanted + [0]);
        e := Entry(id, at, |wanted|, |arena|, 0);
        assert arena[at..at + |wanted|] == wanted;
      } else {
        e := Entry(id, 0, |dict[id].name|, |arena|, 0);
      }
      MeaningsInsert(dict, arena, entries, pos, e);
      assert Meaning(dict, arena, e) == Header(id, wanted, []);
      entries := entries[..pos] + [e] + entries[pos..];
    }

    /** Point an entry to the end of the arena, after copying its value and a separator there unless it is replaced. */
    method MoveEntry(pos: nat, replace: bool)
      requires Slices() && pos < |entries|
      modifies `entries, `arena
      ensures Slices() && |entries| == |old(entries)|
      ensures var t := old(View());
              View() == t[pos := t[pos].(value := if replace then [] else t[pos].value + SEPARATOR)]
      ensures entries[pos].value + entries[pos].valuelen == |arena|
      ensures |arena| == |old(arena)| + if replace then 0 else |old(View())[pos].value| + 2
    {
      hide Meanings;
      var e := entries[pos];
      var copied := if replace then [] else arena[e.value..e.value + e.valuelen] + [COMMA, SPACE];
      MeaningsGrow(dict, arena, copied, entries);
      e := e.(value := |arena|, valuelen := |copied|);
      arena := arena + copied;
      MeaningMoved(dict, old(arena), entries[pos], copied);
      MeaningsUpdate(dict, arena, entries, pos, e);
      entries := entries[pos := e];
    }

    /** Find or make the entry of a header, with room for a value of `valuelen` bytes at the end of the arena. */
    method AddHeader(id: nat, wanted: bytes, valuelen: nat, replace: bool) returns (ok: bool, pos: nat)
      requires Valid() && (id == UNKNOWN || (id < |dict| && wanted == dict[id].name))
      modifies `entries, `arena
      ensures ok <==> !Full(dict, old(Stored()), id, wanted, valuelen, replace)
      ensures !ok ==> entries == old(entries) && arena == old(arena)
      ensures ok ==> Slices() && View() == Add(dict, old(View()), id, wanted, [], replace)
      ensures ok ==> pos == PlaceOf(dict, old(View()), id, wanted) < |entries|
      ensures ok ==> entries[pos].value + entries[pos].valuelen == |arena|
      ensures ok ==> |arena| + 1 == |old(arena)| + Taken(dict, old(Stored()), id, wanted, [], replace)
    {
      hide HeaderTable.Valid, Find, Slot, WellFormed, Meanings;
      ok := false;
      var found;
      if id == UNKNOWN {
        found, pos := SearchUnknown(wanted);
      } else {
        found, pos := SearchKnown(id);
      }
      ghost var t := View();
      assert |t| == |entries|;
      if !found {
        ok := CanAllocate((if id == UNKNOWN then |wanted| + 1 else 0) + valuelen + 1);
        ok := ok && |entries| < MAX_ENTRIES;
        if ok {
          InsertEntry(id, wanted, pos);
        }
      } else {
        assert t[pos].value + SEPARATOR + [] == t[pos].value + SEPARATOR;
        ok := CanAllocate(if replace then valuelen + 1 else entries[pos].valuelen + valuelen + 3);
        if ok {
          MoveEntry(pos, replace);
        }
      }
    }

    /** Clean a value into the end of the arena, behind what its entry holds already. */
    method AppendValue(pos: nat, raw: bytes)
      requires Slices() && pos < |entries| && entries[pos].value + entries[pos].valuelen == |arena|
      modifies `entries, `arena
      ensures Slices() && |entries| == |old(entries)| && |arena| == |old(arena)| + |Clean(raw)| + 1
      ensures var t := old(View());
              View() == t[pos := t[pos].(value := t[pos].value + Clean(raw))]
    {
      hide Meanings, Clean;
      var data := CleanValue(raw);
      var e := entries[pos];
      MeaningExtended(dict, arena, e, data);
      MeaningsGrow(dict, arena, data + [0], entries);
      e := e.(valuelen := e.valuelen + |data|);
      arena := arena + (data + [0]);
      MeaningsUpdate(dict, arena, entries, pos, e);
      entries := entries[pos := e];
    }

    /** Add a header: what the class does is what `AddRaw` says, and a refused header changes nothing. */
    method AddTo(id: nat, wanted: bytes, raw: bytes, replace: bool) returns (ok: bool)
      requires Valid() && (id == UNKNOWN || (id < |dict| && wanted == dict[id].name))
      modifies `entries, `arena
      ensures Valid()
      ensures var r := AddRaw(dict, old(Stored()), id, wanted, raw, replace);
              ok == r.Some? && Stored() == if r.Some? then r.value else old(Stored())
    {
      hide Find, Slot, WellFormed, Meanings, Clean, Full, TidyValues;
      var pos;
      ghost var t := View();
      ok, pos := AddHeader(id, wanted, |raw|, replace);
      if ok {
        AppendValue(pos, raw);
        AddExtend(dict, t, id, wanted, Clean(raw), replace);
        AddValid(dict, t, id, wanted, Clean(raw), replace);
        AddTidy(dict, t, id, wanted, raw, replace);
        AddFits(dict, old(Stored()), id, wanted, raw, replace);
      }
    }

    method AddKnownHeader(id: nat, value: bytes, replace: bool) returns (ok: bool)
      requires Valid() && id < |dict|
      modifies `entries, `arena
      ensures Valid()
      ensures var r := AddRaw(dict, old(Stored()), id, dict[id].name, value, replace);
              ok == r.Some? && Stored() == if r.Some? then r.value else old(Stored())
    {
      ok := AddTo(id, dict[id].name, value, replace);
    }

    method AddUnknownHeader(wanted: bytes, value: bytes, replace: bool) returns (ok: bool)
      requires Valid()
      modifies `entries, `arena
      ensures Valid()
      ensures var r := AddRaw(dict, old(Stored()), UNKNOWN, wanted, value, replace);
              ok == r.Some? && Stored() == if r.Some? then r.value else old(Stored())
    {
      ok := AddTo(UNKNOWN, wanted, value, replace);
    }

    /** Remove a header by moving the entries behind it down; its bytes stay in the arena. */
    method RemoveAt(pos: nat)
      requires Slices() && pos < |entries|
      modifies `entries
      ensures Slices() && View() == old(View())[..pos] + old(View())[pos + 1..]
    {
      entries := entries[..pos] + entries[pos + 1..];
    }

    method RemoveKnownHeader(id: nat) returns (removed: bool)
      requires Valid() && id < |dict|
      modifies `entries
      ensures Valid() && View() == Remove(dict, old(View()), KnownKey(id))
      ensures removed <==> Find(dict, old(View()), KnownKey(id)).Some?
    {
      hide Find, Slot, Meanings, Remove, TidyValues, WellFormed, HeaderTable.Valid, AllInArena;
      var pos;
      ghost var t := View();
      removed, pos := SearchKnown(id);
      RemoveValid(dict, t, KnownKey(id));
      RemoveTidy(dict, t, KnownKey(id));
      RemoveIs(dict, t, KnownKey(id));
      if removed {
        RemoveAt(pos);
      }
    }

    method RemoveUnknownHeader(wanted: bytes) returns (removed: bool)
      requires Valid()
      modifies `entries
      ensures Valid() && View() == Remove(dict, old(View()), KeyFor(UNKNOWN, wanted))
      ensures removed <==> Find(dict, old(View()), KeyFor(UNKNOWN, wanted)).Some?
    {
      hide Find, Slot, Meanings, Remove, TidyValues, WellFormed, HeaderTable.Valid, AllInArena;
      var pos;
      ghost var t := View();
      removed, pos := SearchUnknown(wanted);
      RemoveValid(dict, t, KeyFor(UNKNOWN, wanted));
      RemoveTidy(dict, t, KeyFor(UNKNOWN, wanted));
      RemoveIs(dict, t, KeyFor(UNKNOWN, wanted));
      if removed {
        RemoveAt(pos);
      }
    }

    /** The value of a known header; a header that is kept as several fields is never found. */
    method GetValueKnownHeader(id: nat) returns (value: Option<bytes>)
      requires Valid() && id < |dict|
      ensures !dict[id].multiple ==>
                Values(View(), KnownKey(id)) == if value.Some? then [value.value] else []
      ensures dict[id].multiple ==> value == None
    {
      hide Slot, Meanings, Find, Values, WellFormed, TidyValues, Ordered, Sound;
      var found, pos := SearchKnown(id);
      if !dict[id].multiple {
        ValuesFound(dict, View(), KnownKey(id));
      }
      value := if found then Some(arena[entries[pos].value..entries[pos].value + entries[pos].valuelen]) else None;
    }

    /** Append the headers to a buffer, with long values folded. */
    method Serialize(buffer: bytes) returns (out: bytes)
      requires Valid()
      ensures buffer <= out && Written(View(), maxLineLen, out[|buffer|..])
    {
      hide Meanings, Lines, Unfold, IsFolding, AllFit, TidyFrom, WellFormed, HeaderTable.Valid;
      ghost var t := View();
      out := buffer;
      ghost var folds: seq<bytes>, lines: seq<seq<bytes>> := [], [];
      LinesNothing();
      assert t[..0] == [];
      var i := 0;
      while i < |entries|
        invariant i <= |entries| && |folds| == |lines| == i
        invariant out == buffer + Lines(t[..i], folds)
        invariant forall j :: 0 <= j < i ==> Unfold(folds[j]) == t[j].value
        invariant forall j :: 0 <= j < i ==>
                    IsFolding(folds[j], lines[j]) && AllFit(|t[j].name| + 2, lines[j], maxLineLen)
      {
        var e := entries[i];
        var n := if e.header != UNKNOWN then dict[e.header].name else arena[e.name..e.name + e.namelen];
        assert t[i] == Meaning(dict, arena, e);
        var f;
        ghost var ls;
        f, ls := FoldValue(e.namelen + 2, arena[e.value..e.value + e.valuelen], maxLineLen);
        LinesSnoc(t[..i], folds, t[i], f);
        assert t[..i + 1] == t[..i] + [t[i]];
        ghost var before := out;
        out := out + n + [COLON, SPACE];
        out := out + f + [CR, LF];
        LineAppended(before, t[i], f);
        assert out == buffer + (Lines(t[..i], folds) + Line(t[i], f));
        folds, lines := folds + [f], lines + [ls];
        i := i + 1;
      }
      assert t[..i] == t;
      out := out + [CR, LF];
      assert out[|buffer|..] == Serialized(t, folds);
      assert FoldedAs(t, maxLineLen, out[|buffer|..], folds, lines);
    }

    static lemma LinesNothing()
      ensures Lines([], []) == []
    {
    }

    static lemma LineAppended(before: bytes, h: Header, f: bytes)
      ensures before + h.name + [COLON, SPACE] + f + [CR, LF] == before + Line(h, f)
    {
    }

    /** What a call that ends with this code reports. */
    ghost predicate Reports(code: Code, bodyOffset: nat, result: Parsed)
      requires Slices()
      reads this
    {
      match result
      case NotEnd(scan) => code == NOT_END_OF_HEADER && Scanned() == scan
      case End(store, at) => code == END_OF_HEADER && bodyOffset == at && Stored() == store
      case WrongHeaders => code == ERROR_WRONG_HEADERS
      case TooLarge => code == ERROR_HEADERS_TOO_LARGE
      case NoMemory => code == ERROR_NO_MEMORY
    }

    /** The byte at `offset` was read as in `Step`: the parser goes on behind it, or the call ends. */
    ghost predicate Stepped(stop: Option<Code>, bodyOffset: nat, step: Stepped)
      requires Slices()
      reads this
    {
      match stop
      case None => step == Advance(Scanned())
      case Some(code) => step.Stop? && Reports(code, bodyOffset, step.result) && !step.result.NotEnd?
    }

    /** A header that may come only once is in the table already, as far as it is searched. */
    method IsRepeated(id: nat) returns (repeated: bool)
      requires Valid() && id < |dict|
      ensures repeated == Repeats(dict, View(), id)
    {
      hide WellFormed, HeaderTable.Valid, TidyValues;
      ghost var t := View();
      var i := 0;
      while i < |entries|
        invariant i <= |entries| && Repeats(dict, t[i..], id) == Repeats(dict, t, id)
      {
        assert t[i] == Meaning(dict, arena, entries[i]) && t[i..][0] == t[i] && t[i..][1..] == t[i + 1..];
        if id == entries[i].header {
          return true;
        } else if entries[i].header == UNKNOWN || dict[id].kind < dict[entries[i].header].kind {
          DictionaryIsSmall(dict);
          return false;
        }
        i := i + 1;
      }
      repeated := false;
    }

    static lemma DictionaryIsSmall(d: Dictionary)
      requires WellFormed(d)
      ensures |d| <= UNKNOWN && forall id :: 0 <= id < |d| ==> d[id].kind <= ENTITY
    {
    }

    /** ':' after the name. */
    method ReadColon(buf: bytes, len: nat) returns (stop: Option<Code>)
      requires Valid() && token + len <= |buf|
      modifies `namelen, `header, `name, `token, `state
      ensures Valid() && Stepped(stop, 0, Colon(dict, !ignoreErrors, buf, old(Scanned()), len))
    {
      hide WellFormed, HeaderTable.Valid, TidyValues, Meanings, AllInArena, Repeats, Lookup;
      namelen := len;
      var id := GetHeader(dict, buf[token..token + len]);
      if id != UNKNOWN {
        if !ignoreErrors && !dict[id].commas {
          var repeated := IsRepeated(id);
          if repeated {
            return Some(ERROR_WRONG_HEADERS);
          }
        }
      } else {
        name := token;
      }
      header := id;
      token := 0;
      state := 3;
      stop := None;
    }

    /** Before, in and behind a name. */
    method ReadName(buf: bytes) returns (stop: Option<Code>, bodyOffset: nat)
      requires Valid() && Within(dict, Scanned()) && offset < |buf| && state <= 2
      modifies `namelen, `header, `name, `token, `state, `nCRLFs
      ensures Valid() && Stepped(stop, bodyOffset, Step(dict, !ignoreErrors, buf, old(Scanned())))
    {
      hide WellFormed, HeaderTable.Valid, TidyValues, Meanings, AllInArena, Repeats, Lookup, Colon;
      var c := buf[offset];
      stop, bodyOffset := None, 0;
      if state == 0 {
        if c == COLON {
          stop := Some(ERROR_WRONG_HEADERS);
        } else if c > SPACE && c < 127 {
          token := offset;
          nCRLFs := 0;
          state := 1;
        } else if c == CR {
          state := 5;
        } else if c == LF {
          stop, bodyOffset := Some(END_OF_HEADER), offset + 1;
        } else {
          stop := Some(ERROR_WRONG_HEADERS);
        }
      } else if state == 1 {
        if c == COLON {
          stop := ReadColon(buf, offset - token);
        } else if IsBlank(c) {
          namelen := offset - token;
          state := 2;
        } else if c < SPACE || c >= 127 {
          stop := Some(ERROR_WRONG_HEADERS);
        }
      } else {
        if c == COLON {
          stop := ReadColon(buf, namelen);
        } else if !IsBlank(c) {
          stop := Some(ERROR_WRONG_HEADERS);
        }
      }
    }

    /** Before and in a value. */
    method ReadValue(buf: bytes) returns (stop: Option<Code>)
      requires Valid() && Within(dict, Scanned()) && offset < |buf| && (state == 3 || state == 4)
      modifies `token, `end, `state, `nCRLFs
      ensures Valid() && Stepped(stop, 0, Step(dict, !ignoreErrors, buf, old(Scanned())))
    {
      hide WellFormed, HeaderTable.Valid, TidyValues, Meanings, AllInArena;
      DictionaryIsSmall(dict);
      var c := buf[offset];
      stop := None;
      if state == 3 {
        if c == CR {
          state := 5;
        } else if c == LF {
          nCRLFs := 1;
          state := 6;
        } else if c > SPACE {
          token := offset;
          end := 0;
          state := 4;
        } else if !IsBlank(c) {
          stop := Some(ERROR_WRONG_HEADERS);
        }
      } else {
        if c == CR {
          if end == 0 {
            end := offset;
          }
          state := 5;
        } else if c == LF {
          if end == 0 {
            end := offset;
          }
          nCRLFs := 1;
          state := 6;
        } else if IsBlank(c) {
          if end == 0 {
            end := offset;
          }
        } else if c > SPACE {
          if end != 0 {
            if header != UNKNOWN && dict[header].single {
              if !ignoreErrors {
                stop := Some(ERROR_WRONG_HEADERS);
              }
            } else {
              end := 0;
            }
          }
        } else {
          stop := Some(ERROR_WRONG_HEADERS);
        }
      }
    }

    /** The header that was read last is complete; a header without a value is not added. */
    method AddPending(buf: bytes) returns (ok: bool)
      requires Valid() && Within(dict, Scanned()) && state == 6 && offset <= |buf|
      modifies `entries, `arena
      ensures Valid()
      ensures var r := Flush(dict, buf, old(Scanned()));
              ok == r.Some? && Stored() == if r.Some? then r.value else old(Stored())
    {
      hide WellFormed, HeaderTable.Valid, TidyValues, Meanings, AllInArena, AddRaw;
      ok := true;
      if token != 0 {
        if header != UNKNOWN {
          ok := AddKnownHeader(header, buf[token..end], false);
        } else {
          ok := AddUnknownHeader(buf[name..name + namelen], buf[token..end], false);
        }
      }
    }

    /** Line ends and continuations. */
    method ReadLineEnd(buf: bytes) returns (stop: Option<Code>, bodyOffset: nat)
      requires Valid() && Within(dict, Scanned()) && offset < |buf| && state >= 5
      modifies `entries, `arena, `token, `end, `state, `nCRLFs
      ensures Valid() && Stepped(stop, bodyOffset, Step(dict, !ignoreErrors, buf, old(Scanned())))
    {
      hide WellFormed, HeaderTable.Valid, TidyValues, Meanings, AllInArena, Flush;
      DictionaryIsSmall(dict);
      var c := buf[offset];
      stop, bodyOffset := None, 0;
      if state == 5 {
        if c == LF {
          if nCRLFs == 1 {
            return Some(END_OF_HEADER), offset + 1;
          }
          nCRLFs := 1;
          state := 6;
        } else {
          stop := Some(ERROR_WRONG_HEADERS);
        }
      } else if state == 6 {
        if c == CR || c == LF || (c > SPACE && c < 127 && c != COLON) {
          var ok := AddPending(buf);
          if !ok {
            return Some(ERROR_NO_MEMORY), 0;
          }
          if c == CR {
            state := 5;
          } else if c == LF {
            return Some(END_OF_HEADER), offset + 1;
          } else {
            token := offset;
            nCRLFs := 0;
            state := 1;
          }
        } else if IsBlank(c) {
          nCRLFs := 0;
          state := 7;
        } else {
          stop := Some(ERROR_WRONG_HEADERS);
        }
      } else {
        if c == CR {
          state := 5;
        } else if c == LF {
          nCRLFs := 1;
          state := 6;
        } else if c > SPACE {
          if token != 0 {
            if header != UNKNOWN && dict[header].single {
              if !ignoreErrors {
                return Some(ERROR_WRONG_HEADERS), 0;
              } else {
                return None, 0;
              }
            }
          } else {
            token := offset;
          }
          end := 0;
          state := 4;
        } else if !IsBlank(c) {
          stop := Some(ERROR_WRONG_HEADERS);
        }
      }
    }

    /** One call of the parser: it reports what `Run` says, and is left where a later call can go on. */
    method Parse(buf: bytes) returns (code: Code, bodyOffset: nat)
      requires Valid() && Within(dict, Scanned())
      modifies this
      ensures Valid() && Reports(code, bodyOffset, Run(dict, !ignoreErrors, buf, old(Scanned())))
      ensures ignoreErrors == old(ignoreErrors) && maxLineLen == old(maxLineLen)
    {
      hide WellFormed, HeaderTable.Valid, TidyValues, Meanings, AllInArena, Step, Within;
      bodyOffset := 0;
      while offset < |buf|
        invariant Valid() && Within(dict, Scanned())
        invariant Run(dict, !ignoreErrors, buf, Scanned()) == Run(dict, !ignoreErrors, buf, old(Scanned()))
        invariant ignoreErrors == old(ignoreErrors) && maxLineLen == old(maxLineLen)
        decreases |buf| - offset
      {
        var stop;
        ghost var before := Scanned();
        StepWithin(dict, !ignoreErrors, buf, before);
        if state <= 2 {
          stop, bodyOffset := ReadName(buf);
        } else if state <= 4 {
          bodyOffset := 0;
          stop := ReadValue(buf);
        } else {
          stop, bodyOffset := ReadLineEnd(buf);
        }
        if stop.Some? {
          return stop.value, bodyOffset;
        }
        offset := offset + 1;
        if offset > MAX_HEADERS_SIZE {
          return ERROR_HEADERS_TOO_LARGE, 0;
        }
      }
      code := NOT_END_OF_HEADER;
    }
  }
}
