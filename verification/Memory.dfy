// memory.c: byte loops over one shared memory, where source and destination may overlap.
module Memory {
  import opened Bytes

  /** What a move means: the destination receives the bytes the source held before the call. */
  function Moved(m: seq<byte>, dest: nat, src: nat, length: nat): (r: seq<byte>)
    requires dest + length <= |m| && src + length <= |m|
  {
    seq(|m|, i requires 0 <= i < |m| => if dest <= i < dest + length then m[i - dest + src] else m[i])
  }

  function Filled(m: seq<byte>, dest: nat, value: byte, length: nat): (r: seq<byte>)
    requires dest + length <= |m|
  {
    seq(|m|, i requires 0 <= i < |m| => if dest <= i < dest + length then value else m[i])
  }

  /** memory_set. */
  method Set(mem: array<byte>, dest: nat, value: int, length: nat)
    requires dest + length <= mem.Length
    modifies mem
    ensures mem[..] == Filled(old(mem[..]), dest, value % 256, length)
    ensures forall i :: 0 <= i < mem.Length ==>
              mem[i] == if dest <= i < dest + length then value % 256 else old(mem[..])[i]
  {
    var ptr := dest;
    var left := length;
    while left > 0
      invariant 0 <= left <= length && ptr == dest + length - left
      invariant forall i :: dest <= i < ptr ==> mem[i] == value % 256
      invariant forall i :: 0 <= i < mem.Length && !(dest <= i < ptr) ==> mem[i] == old(mem[i])
    {
      left := left - 1;
      mem[ptr] := value % 256;
      ptr := ptr + 1;
    }
    assert mem[..] == Filled(old(mem[..]), dest, value % 256, length);
  }

  /** memory_move: forward when the destination is lower, backward when it is higher. */
  method Move(mem: array<byte>, dest: nat, src: nat, length: nat)
    requires dest + length <= mem.Length && src + length <= mem.Length
    modifies mem
    ensures mem[..] == Moved(old(mem[..]), dest, src, length)
    ensures forall i :: 0 <= i < mem.Length ==>
              mem[i] == old(mem[..])[if dest <= i < dest + length then i - dest + src else i]
  {
    if dest < src {
      var d, s, left := dest, src, length;
      while left > 0
        invariant 0 <= left <= length && d == dest + length - left && s == src + length - left
        invariant forall i :: dest <= i < d ==> mem[i] == old(mem[..])[i - dest + src]
        invariant forall i :: 0 <= i < mem.Length && !(dest <= i < d) ==> mem[i] == old(mem[i])
      {
        left := left - 1;
        mem[d] := mem[s];
        d, s := d + 1, s + 1;
      }
    } else if dest > src {
      var d, s, left := dest + length, src + length, length;
      while left > 0
        invariant 0 <= left <= length && d == dest + left && s == src + left
        invariant forall i :: d <= i < dest + length ==> mem[i] == old(mem[..])[i - dest + src]
        invariant forall i :: 0 <= i < mem.Length && !(d <= i < dest + length) ==> mem[i] == old(mem[i])
      {
        left := left - 1;
        d, s := d - 1, s - 1;
        mem[d] := mem[s];
      }
    }
    assert mem[..] == Moved(old(mem[..]), dest, src, length);
  }

  /** memory_copy: the same loops under another name, with the same promise. */
  method Copy(mem: array<byte>, dest: nat, src: nat, length: nat)
    requires dest + length <= mem.Length && src + length <= mem.Length
    modifies mem
    ensures mem[..] == Moved(old(mem[..]), dest, src, length)
    ensures forall i :: 0 <= i < mem.Length ==>
              mem[i] == old(mem[..])[if dest <= i < dest + length then i - dest + src else i]
  {
    Move(mem, dest, src, length);
  }
}
