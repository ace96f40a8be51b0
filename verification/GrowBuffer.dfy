/** buf_t: an append-only byte buffer whose storage doubles on demand (paf_binary_delta.c). */
module GrowBuffer {
  import opened Bytes

  class Buffer {
    var data: array<byte>
    var len: nat

    ghost predicate Valid()
      reads this
    {
      len <= data.Length
    }

    ghost function Contents(): seq<byte>
      reads this, data
      requires Valid()
    {
      data[..len]
    }

    constructor ()
      ensures Valid() && Contents() == [] && fresh(data)
    {
      data := new byte[0];
      len := 0;
    }

    method Push(d: seq<byte>)
      requires Valid()
      modifies this, data
      ensures Valid() && Contents() == old(Contents()) + d
      ensures data == old(data) || fresh(data)
    {
      if len + |d| > data.Length {
        var cap := if data.Length > 0 then data.Length * 2 else 65536;
        while cap < len + |d|
          invariant cap > 0
          decreases len + |d| - cap
        {
          cap := cap * 2;
        }
        var was := data;
        data := new byte[cap];
        forall i | 0 <= i < len { data[i] := was[i]; }
      }
      assert data[..len] == old(data[..len]);
      forall i | 0 <= i < |d| { data[len + i] := d[i]; }
      assert data[..len] == old(data[..len]) && data[len..len + |d|] == d;
      len := len + |d|;
    }
  }
}
