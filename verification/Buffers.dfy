/** The growing byte buffer that parsers and printers share. */
module Buffers {
  import opened Bytes

  class Buffer {
    var data: array<byte>
    var used: nat
    const increment: nat

    ghost predicate Valid()
      reads this
    {
      used <= data.Length && increment > 0
    }

    ghost function Contents(): bytes
      requires Valid()
      reads this, data
    {
      data[..used]
    }

    constructor (increment: nat)
      requires increment > 0
      ensures Valid() && fresh(data) && Contents() == []
    {
      this.increment := increment;
      data := new byte[0];
      used := 0;
    }

    /** Room for `size` more bytes; growing moves the bytes to a larger block, a multiple of the increment. */
    method Allocate(size: nat)
      requires Valid()
      modifies this`data
      ensures Valid() && used + size <= data.Length && Contents() == old(Contents())
      ensures data == old(data) || fresh(data)
    {
      if used + size > data.Length {
        var quotient := (used + size) / increment;
        if (used + size) % increment != 0 {
          quotient := quotient + 1;
        }
        RoundedUp(used + size, increment);
        var block := data;
        var grown := new byte[quotient * increment](_ => 0);
        for i := 0 to used
          invariant grown[..i] == block[..i] && used <= block.Length
        {
          grown[i] := block[i];
        }
        data := grown;
      }
    }

    /** Adds bytes behind those already there. */
    method Append(text: bytes)
      requires Valid()
      modifies this`data, this`used, data
      ensures Valid() && Contents() == old(Contents()) + text && (data == old(data) || fresh(data))
    {
      Allocate(|text|);
      ghost var before := data[..used];
      var block := data;
      for i := 0 to |text|
        invariant block == data && used == old(used) && block[..used] == before && block[used..used + i] == text[..i]
      {
        block[used + i] := text[i];
      }
      assert block[..used + |text|] == before + block[used..used + |text|];
      used := used + |text|;
    }

    static lemma RoundedUp(n: nat, d: nat)
      requires d > 0
      ensures n <= (if n % d != 0 then n / d + 1 else n / d) * d
    {
      assert n == n / d * d + n % d;
      if n % d != 0 {
        assert (n / d + 1) * d == n / d * d + d;
      }
    }
  }

  /** A `memmove` of `count` bytes to the start of the block they are in. */
  method MoveToFront(data: array<byte>, from: nat, count: nat)
    requires from + count <= data.Length
    modifies data
    ensures data[..count] == old(data[from..from + count])
  {
    for i := 0 to count
      invariant forall k :: 0 <= k < i ==> data[k] == old(data[from + k])
      invariant forall k :: from + i <= k < data.Length ==> data[k] == old(data[k])
    {
      data[i] := data[from + i];
    }
  }
}
