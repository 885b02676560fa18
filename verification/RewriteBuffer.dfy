/** The growing array behind the rewrite buffer (append_aof_rewrite_buffer of src/kv.c). */
module RewriteBuffer {
  import opened Common

  const INITIAL: nat := 4096

  class GrowingBuffer {
    var buf: array?<byte>
    var len: nat
    var cap: nat

    ghost predicate Valid()
      reads this, buf
    {
      buf != null ==> len <= cap == buf.Length && cap > 0
    }

    /** What kv_merge_aof_rewrite would append to the compact file. */
    ghost function Contents(): bytes
      requires Valid()
      reads this, buf
    {
      if buf == null then [] else buf[..len]
    }

    constructor ()
      ensures Valid() && Contents() == [] && buf == null
    {
      buf, len, cap := null, 0, 0;
    }

    /** Appends `data`; `memOk` says whether an allocation succeeds.  A failed one loses the
        piece and everything buffered before it. */
    method Append(data: bytes, memOk: bool)
      requires Valid()
      modifies this, buf
      ensures Valid()
      ensures buf == old(buf) || buf == null || fresh(buf)
      ensures Contents() ==
              if data == [] then old(Contents())
              else if memOk || (old(buf) != null && old(len) + |data| <= old(cap)) then old(Contents()) + data
              else []
    {
      if data == [] {
        return;
      }
      if buf == null {
        cap := if |data| > INITIAL then |data| * 2 else INITIAL;
        if memOk {
          buf := new byte[cap](_ => 0);
        }
        len := 0;
      } else if len + |data| > cap {
        cap := Doubled(cap, len + |data|);
        Reallocate(memOk);
      }
      if buf != null {
        Copy(data);
      }
    }

    /** The doubling loop. */
    static method Doubled(cap: nat, need: nat) returns (c: nat)
      requires 0 < cap < need
      ensures need <= c < 2 * need
    {
      c := cap;
      while need > c
        invariant 0 < c < 2 * need
        decreases 2 * need - c
      {
        c := c * 2;
      }
    }

    /** realloc to `cap` bytes: the bytes so far move to the new block, or the block is lost. */
    method Reallocate(memOk: bool)
      requires buf != null && len <= buf.Length < cap
      modifies this`buf
      ensures if memOk then buf != null && fresh(buf) && buf.Length == cap && buf[..len] == old(buf[..len])
              else buf == null
    {
      if !memOk {
        buf := null;
        return;
      }
      var from, block := buf, new byte[cap](_ => 0);
      forall i | 0 <= i < len {
        block[i] := from[i];
      }
      buf := block;
    }

    /** memcpy to the end of the buffer. */
    method Copy(data: bytes)
      requires buf != null && len + |data| <= buf.Length
      modifies this`len, buf
      ensures len == old(len) + |data| && buf[..len] == old(buf[..len]) + data
    {
      forall i | 0 <= i < |data| {
        buf[len + i] := data[i];
      }
      len := len + |data|;
    }
  }
}
