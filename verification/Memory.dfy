/**
 The boot loader's memory primitives, on physical memory as an array of bytes.
 */
module Memory {
  import opened Bytes

  /** Memory with bytes laid over it at an address. */
  function Overlay(m: seq<byte>, at: nat, s: seq<byte>): (r: seq<byte>)
    requires at + |s| <= |m|
    ensures |r| == |m|
  {
    m[..at] + s + m[at + |s|..]
  }

  /** uiox_boot_memcpy. */
  method CopyBytes(mem: array<byte>, at: nat, src: seq<byte>, from: nat, n: nat)
    requires at + n <= mem.Length && from + n <= |src|
    modifies mem
    ensures mem[..] == Overlay(old(mem[..]), at, src[from..from + n])
  {
    var i := 0;
    while i < n
      invariant 0 <= i <= n
      invariant forall k :: 0 <= k < mem.Length ==>
                  mem[k] == if at <= k < at + i then src[from + (k - at)] else old(mem[k])
    {
      mem[at + i] := src[from + i];
      i := i + 1;
    }
  }

  /** uiox_boot_memset to zero. */
  method ZeroBytes(mem: array<byte>, at: nat, n: nat)
    requires at + n <= mem.Length
    modifies mem
    ensures mem[..] == Overlay(old(mem[..]), at, Zeros(n))
  {
    var i := 0;
    while i < n
      invariant 0 <= i <= n
      invariant forall k :: 0 <= k < mem.Length ==> mem[k] == if at <= k < at + i then 0 else old(mem[k])
    {
      mem[at + i] := 0;
      i := i + 1;
    }
  }
}
