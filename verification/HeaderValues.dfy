/** Cleaning of field values: every run of blanks and control characters becomes one space, a leading run nothing. */
module HeaderValues {
  import opened Bytes

  /** The rest of a value, from the start (0), inside a word (1) or inside a gap that was already written (2). */
  function CleanFrom(s: bytes, state: nat): bytes {
    if s == [] then []
    else if s[0] > SPACE then [s[0]] + CleanFrom(s[1..], 1)
    else if state == 1 then [SPACE] + CleanFrom(s[1..], 2)
    else CleanFrom(s[1..], state)
  }

  function Clean(s: bytes): bytes {
    CleanFrom(s, 0)
  }

  function StateAfter(s: bytes, state: nat): nat {
    if s == [] then state
    else StateAfter(s[1..], if s[0] > SPACE then 1 else if state == 1 then 2 else state)
  }

  lemma {:induction false} CleanConcat(a: bytes, b: bytes, state: nat)
    ensures CleanFrom(a + b, state) == CleanFrom(a, state) + CleanFrom(b, StateAfter(a, state))
  {
    if a == [] {
      assert a + b == b;
    } else {
      assert (a + b)[1..] == a[1..] + b;
      CleanConcat(a[1..], b, if a[0] > SPACE then 1 else if state == 1 then 2 else state);
    }
  }

  lemma {:induction false} StateConcat(a: bytes, b: bytes, state: nat)
    ensures StateAfter(a + b, state) == StateAfter(b, StateAfter(a, state))
  {
    if a == [] {
      assert a + b == b;
    } else {
      assert (a + b)[1..] == a[1..] + b;
      StateConcat(a[1..], b, if a[0] > SPACE then 1 else if state == 1 then 2 else state);
    }
  }

  /** No control characters and no two spaces in a row; no leading space either if `gap`. */
  predicate TidyFrom(v: bytes, gap: bool) {
    v == [] || (if v[0] > SPACE then TidyFrom(v[1..], false) else v[0] == SPACE && !gap && TidyFrom(v[1..], true))
  }

  predicate Tidy(v: bytes) {
    TidyFrom(v, true)
  }

  lemma {:induction false} CleanFromTidy(s: bytes, state: nat)
    ensures TidyFrom(CleanFrom(s, state), state != 1)
  {
    if s != [] {
      CleanFromTidy(s[1..], if s[0] > SPACE then 1 else if state == 1 then 2 else state);
    }
  }

  lemma {:induction false} TidyIsClean(v: bytes, state: nat)
    requires TidyFrom(v, state != 1)
    ensures CleanFrom(v, state) == v
  {
    if v != [] {
      TidyIsClean(v[1..], if v[0] > SPACE then 1 else 2);
    }
  }

  /** Cleaning makes a value tidy and leaves a tidy value alone. */
  lemma CleanIsTidy(s: bytes)
    ensures Tidy(Clean(s))
    ensures Tidy(s) ==> Clean(s) == s
  {
    CleanFromTidy(s, 0);
    if Tidy(s) {
      TidyIsClean(s, 0);
    }
  }

  lemma {:induction false} TidyConcat(a: bytes, b: bytes, gap: bool)
    ensures TidyFrom(a + b, gap) <==>
            TidyFrom(a, gap) && TidyFrom(b, if a == [] then gap else a[|a| - 1] == SPACE)
  {
    if a == [] {
      assert a + b == b;
    } else {
      assert (a + b)[1..] == a[1..] + b;
      TidyConcat(a[1..], b, a[0] == SPACE);
    }
  }

  /** The words of a text, the first of which has begun with `current`. */
  function WordsFrom(s: bytes, current: bytes): seq<bytes> {
    if s == [] then (if current == [] then [] else [current])
    else if s[0] > SPACE then WordsFrom(s[1..], current + [s[0]])
    else (if current == [] then [] else [current]) + WordsFrom(s[1..], [])
  }

  /** Cleaning keeps every word. */
  lemma {:induction false} CleanKeepsWords(s: bytes, state: nat, current: bytes)
    requires current != [] <==> state == 1
    ensures WordsFrom(CleanFrom(s, state), current) == WordsFrom(s, current)
  {
    if s != [] {
      if s[0] > SPACE {
        CleanKeepsWords(s[1..], 1, current + [s[0]]);
      } else {
        CleanKeepsWords(s[1..], if state == 1 then 2 else state, []);
      }
    }
  }

  lemma CleanSnoc(s: bytes, c: byte)
    ensures var state := StateAfter(s, 0);
            && Clean(s + [c]) == Clean(s) + (if c > SPACE then [c] else if state == 1 then [SPACE] else [])
            && StateAfter(s + [c], 0) == if c > SPACE then 1 else if state == 1 then 2 else state
  {
    CleanConcat(s, [c], 0);
    StateConcat(s, [c], 0);
    assert [c][1..] == [];
  }

  /** The loop that copies a value into the arena. */
  method CleanValue(value: bytes) returns (data: bytes)
    ensures data == Clean(value)
  {
    data := [];
    var pos, state := 0, 0;
    while pos < |value|
      invariant pos <= |value| && state == StateAfter(value[..pos], 0) < 3
      invariant data == Clean(value[..pos])
    {
      var c := value[pos];
      CleanSnoc(value[..pos], c);
      assert value[..pos + 1] == value[..pos] + [c];
      pos := pos + 1;
      match state
      case 0 =>
        if c > SPACE {
          data := data + [c];
          state := 1;
        }
      case 1 =>
        if c <= SPACE {
          data := data + [SPACE];
          state := 2;
        } else {
          data := data + [c];
        }
      case _ =>
        if c > SPACE {
          data := data + [c];
          state := 1;
        }
    }
    assert value[..pos] == value;
  }
}
