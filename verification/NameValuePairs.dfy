/** Writing a record of name-value pairs behind whatever the buffer holds already. */
module NameValuePairs {
  import opened Bytes
  import opened FastCgi
  import opened Sequences

  /** A record being written: its header, filled in at the end, and its pairs so far. */
  class Writer {
    var out: bytes
    var header: nat
    var contentLength: nat

    ghost var kind: byte
    ghost var requestId: nat
    ghost var pairs: seq<NameValue>

    ghost predicate Valid()
      reads this
    {
      && requestId < 0x1_0000 && contentLength < 0x1_0000 && header <= |out|
      && (forall p <- pairs :: Small(p)) && |EncodePairs(pairs)| == contentLength
      && out[header..] == Header(kind, requestId, 0, 0) + EncodePairs(pairs)
    }

    constructor (out: bytes, kind: byte, requestId: nat)
      requires requestId < 0x1_0000
      ensures Valid() && pairs == [] && this.kind == kind && this.requestId == requestId
      ensures this.out[..header] == out && header <= |this.out|
    {
      this.out := out + Header(kind, requestId, 0, 0);
      this.header := |out|;
      contentLength := 0;
      this.kind, this.requestId, pairs := kind, requestId, [];
    }

    /** Puts a length into one byte, or into four with the top bit set. */
    static method PutLength(out: bytes, n: nat) returns (r: bytes)
      requires n < 0x1_0000
      ensures r == out + WriteLength(n)
    {
      if n <= 127 {
        r := out + [n];
      } else {
        r := out + [0x80] + [0] + [n / 256] + [n % 256];
      }
    }

    /** Copies a name, changing letters to upper case and hyphens to underscores. */
    static method PutUpper(out: bytes, name: bytes) returns (r: bytes)
      ensures r == out + UpperName(name)
    {
      r := out;
      for i := 0 to |name|
        invariant r == out + UpperName(name)[..i]
      {
        r := r + [Upper(name[i])];
      }
    }

    /** The bytes of a pair. */
    static method PutPair(name: bytes, value: bytes, prepend: bool, upper: bool) returns (data: bytes)
      requires |VariableName(name, prepend, upper)| < 0x1_0000 && |value| < 0x1_0000
      ensures data == EncodePair(NameValue(VariableName(name, prepend, upper), value))
    {
      hide WriteLength, UpperName, HTTP;
      data := PutLength([], |name| + if prepend then 5 else 0);
      data := PutLength(data, |value|);
      ghost var lengths := data;
      if prepend {
        data := data + HTTP;
      }
      if upper {
        data := PutUpper(data, name);
      } else {
        data := data + name;
      }
      assert data == lengths + VariableName(name, prepend, upper);
      data := data + value;
    }

    /** Adds a pair, unless the record would become too long for its header. */
    method Add(name: bytes, value: bytes, prepend: bool, upper: bool) returns (ok: bool)
      requires Valid() && |VariableName(name, prepend, upper)| < 0x1_0000 && |value| < 0x1_0000
      modifies this`out, this`contentLength, this`pairs
      ensures Valid() && out[..header] == old(out[..header])
      ensures var p := NameValue(VariableName(name, prepend, upper), value);
              && ok == (|EncodePairs(old(pairs))| + |EncodePair(p)| <= 0xffff)
              && pairs == if ok then old(pairs) + [p] else old(pairs)
      ensures ok ==> pairs != [] && pairs[|pairs| - 1].value == value
      ensures ok && upper ==> IsVariable(name, prepend, pairs[|pairs| - 1].name)
      ensures ok && !upper ==> pairs[|pairs| - 1].name == (if prepend then Ascii("HTTP_") else []) + name
    {
      hide EncodePairs, VariableName, WriteLength, IsVariable, Ascii, Header;
      VariableIs(name, prepend);
      ghost var p := NameValue(VariableName(name, prepend, upper), value);
      PairLength(p);
      var namelen := |name| + if prepend then 5 else 0;
      var size := namelen + |value|;
      size := size + if namelen <= 127 then 1 else 4;
      size := size + if |value| <= 127 then 1 else 4;
      if contentLength + size > 0xffff {
        return false;
      }
      var data := PutPair(name, value, prepend, upper);
      OneMorePair(pairs, p);
      assert (out + data)[header..] == out[header..] + data;
      out := out + data;
      contentLength := contentLength + size;
      pairs := pairs + [p];
      ok := true;
    }

    /** Fills in the length and pads the record to a multiple of eight bytes. */
    method End()
      requires Valid()
      modifies this`out
      ensures out == old(out[..header]) + Record(kind, requestId, pairs)
    {
      hide EncodePairs;
      ghost var before, content := out[..header], EncodePairs(pairs);
      assert out == before + Header(kind, requestId, 0, 0) + content;
      var remainder := contentLength % 8;
      var padding: byte := if remainder == 0 then 0 else 8 - remainder;
      out := out[header + 4 := contentLength / 256];
      out := out[header + 5 := contentLength % 256];
      out := out[header + 6 := padding];
      assert out == before + Header(kind, requestId, contentLength, padding) + content;
      if padding > 0 {
        for i := 0 to padding
          invariant out == before + Header(kind, requestId, contentLength, padding) + content + Repeat(0, i)
        {
          out := out + [0];
          assert Repeat(0, i) + [0] == Repeat(0, i + 1);
        }
      }
      assert Repeat(0, 0) == [];
    }
  }

  /** A whole record of pairs. */
  function Record(kind: byte, requestId: nat, pairs: seq<NameValue>): bytes
    requires requestId < 0x1_0000 && (forall p <- pairs :: Small(p)) && |EncodePairs(pairs)| < 0x1_0000
  {
    var n := |EncodePairs(pairs)|;
    Header(kind, requestId, n, Padding(n)) + EncodePairs(pairs) + Repeat(0, Padding(n))
  }

  /** Reads a length of one byte, or of four. */
  method GetLength(data: bytes, ptr: nat) returns (ok: bool, n: nat, next: nat)
    requires ptr <= |data|
    ensures ok == ReadLength(data[ptr..]).SomeLength?
    ensures ok ==> ptr < next <= |data| && ReadLength(data[ptr..]) == SomeLength(n, next - ptr)
  {
    ok, n, next := false, 0, ptr;
    if ptr == |data| {
      return;
    }
    if data[ptr] < 0x80 {
      return true, data[ptr], ptr + 1;
    }
    if |data| - ptr < 4 {
      return;
    }
    n := (data[ptr] as int - 0x80) * 0x100_0000;
    n := n + data[ptr + 1] as int * 0x1_0000;
    n := n + data[ptr + 2] as int * 0x100;
    n := n + data[ptr + 3];
    if n <= 0xffff {
      ok, next := true, ptr + 4;
    }
  }

  /** Takes the pairs out of a record one by one. */
  method Decode(data: bytes) returns (pairs: seq<NameValue>)
    ensures pairs == DecodePairs(data)
  {
    hide ReadLength, DecodePairs;
    pairs := [];
    var ptr := 0;
    Nothing(data);
    while ptr < |data|
      invariant ptr <= |data| && DecodePairs(data) == pairs + DecodePairs(data[ptr..])
    {
      var ok, name, value, nameEnd, next;
      ok, name, nameEnd := GetLength(data, ptr);
      if !ok {
        NoPair(data, ptr, pairs);
        return;
      }
      ok, value, next := GetLength(data, nameEnd);
      DropMore(data, ptr, nameEnd);
      if !ok || |data| - next < name + value {
        NoPair(data, ptr, pairs);
        return;
      }
      NextPair(data, ptr, nameEnd, next, name, value);
      var pair := NameValue(data[next..next + name], data[next + name..next + name + value]);
      Associative(pairs, [pair], DecodePairs(data[next + name + value..]));
      pairs := pairs + [pair];
      ptr := next + name + value;
    }
    DecodeEnd(data, ptr, pairs);
  }

  lemma Nothing(data: bytes)
    ensures DecodePairs(data) == [] + DecodePairs(data[0..])
  {
    assert data[0..] == data;
  }

  lemma DropMore(data: bytes, i: nat, j: nat)
    requires i <= j <= |data|
    ensures data[i..][j - i..] == data[j..]
  {
  }

  lemma DecodeEnd(data: bytes, ptr: nat, pairs: seq<NameValue>)
    requires ptr == |data|
    ensures pairs + DecodePairs(data[ptr..]) == pairs
  {
    assert data[ptr..] == [];
  }

  /** Where no whole pair is left, nothing more is decoded. */
  lemma NoPair(data: bytes, ptr: nat, pairs: seq<NameValue>)
    requires ptr <= |data|
    requires var l := ReadLength(data[ptr..]);
             l.SomeLength? ==>
               var m := ReadLength(data[ptr..][l.size..]);
               m.SomeLength? ==> |data| - ptr < l.size + m.size + l.value + m.value
    ensures pairs + DecodePairs(data[ptr..]) == pairs
  {
    hide ReadLength;
  }

  lemma NextPair(data: bytes, ptr: nat, nameEnd: nat, next: nat, name: nat, value: nat)
    requires ptr < nameEnd < next && next + name + value <= |data|
    requires ReadLength(data[ptr..]) == SomeLength(name, nameEnd - ptr)
    requires ReadLength(data[nameEnd..]) == SomeLength(value, next - nameEnd)
    ensures DecodePairs(data[ptr..])
            == [NameValue(data[next..next + name], data[next + name..next + name + value])]
               + DecodePairs(data[next + name + value..])
  {
    hide ReadLength, DecodePairs;
    var d := data[ptr..];
    assert d[nameEnd - ptr..] == data[nameEnd..];
    FirstPair(d, name, nameEnd - ptr, value, next - nameEnd);
    var k := next - ptr;
    assert d[k..k + name] == data[next..next + name];
    assert d[k + name..k + name + value] == data[next + name..next + name + value];
    assert d[k + name + value..] == data[next + name + value..];
  }

  lemma PairLength(p: NameValue)
    requires Small(p)
    ensures |EncodePair(p)| == |p.name| + |p.value| + (if |p.name| <= 127 then 1 else 4) + if |p.value| <= 127 then 1 else 4
  {
  }

  lemma OneMorePair(pairs: seq<NameValue>, p: NameValue)
    requires (forall q <- pairs :: Small(q)) && Small(p)
    ensures EncodePairs(pairs + [p]) == EncodePairs(pairs) + EncodePair(p)
  {
    assert (pairs + [p])[..|pairs|] == pairs;
  }
}
