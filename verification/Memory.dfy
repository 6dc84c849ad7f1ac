/** The memory primitives of lib.c, as loops over a flat byte-addressed memory. The index of a
    byte is its address, so alignment is the index modulo 4. */
module Memory {
  import opened Bytes

  /** A simultaneous copy: every byte is read before any byte is written. */
  function Copied(m: seq<Byte>, dest: nat, src: nat, n: nat): seq<Byte>
    requires dest + n <= |m| && src + n <= |m|
  {
    seq(|m|, i requires 0 <= i < |m| => if dest <= i < dest + n then m[src + (i - dest)] else m[i])
  }

  /** The n bytes at src, in order, stand at dest, and the rest is as it was. */
  lemma CopiedIs(m: seq<Byte>, dest: nat, src: nat, n: nat)
    requires dest + n <= |m| && src + n <= |m|
    ensures Copied(m, dest, src, n) == m[..dest] + m[src..src + n] + m[dest + n..]
  {
  }

  lemma FilledIs(m: seq<Byte>, s: nat, c: Byte, n: nat)
    requires s + n <= |m|
    ensures Filled(m, s, c, n) == m[..s] + Fill(c, n) + m[s + n..]
  {
  }

  function Filled(m: seq<Byte>, s: nat, c: Byte, n: nat): seq<Byte>
    requires s + n <= |m|
  {
    seq(|m|, i requires 0 <= i < |m| => if s <= i < s + n then c else m[i])
  }

  /** `.memcpy_top`: single bytes until the destination is aligned or the count runs out. */
  method CopyToAlignment(mem: array<Byte>, dest: nat, src: nat, n: nat) returns (k: nat)
    requires dest + n <= mem.Length && src + n <= mem.Length
    requires dest <= src || src + n <= dest
    modifies mem
    ensures k <= n && (k < n ==> (dest + k) % 4 == 0)
    ensures mem[..] == Copied(old(mem[..]), dest, src, k)
  {
    k := 0;
    while k < n && (dest + k) % 4 != 0
      invariant 0 <= k <= n && mem[..] == Copied(old(mem[..]), dest, src, k)
    {
      mem[dest + k] := mem[src + k];
      k := k + 1;
    }
  }

  /** `rep movsl`, continuing a copy of which k bytes are done: each dword is read whole before it is
      written. */
  method RepMovsl(mem: array<Byte>, dest: nat, src: nat, k: nat, ecx: nat, ghost was: seq<Byte>)
    requires dest + k + 4 * ecx <= mem.Length && src + k + 4 * ecx <= mem.Length == |was|
    requires dest <= src || src + k + 4 * ecx <= dest
    requires mem[..] == Copied(was, dest, src, k)
    modifies mem
    ensures mem[..] == Copied(was, dest, src, k + 4 * ecx)
  {
    var j, left := k, ecx;
    while left > 0
      invariant 0 <= left && j == k + 4 * (ecx - left) && k <= j && mem[..] == Copied(was, dest, src, j)
    {
      var b0, b1, b2, b3 := mem[src + j], mem[src + j + 1], mem[src + j + 2], mem[src + j + 3];
      assert b0 == was[src + j] && b1 == was[src + j + 1] && b2 == was[src + j + 2] && b3 == was[src + j + 3];
      mem[dest + j], mem[dest + j + 1], mem[dest + j + 2], mem[dest + j + 3] := b0, b1, b2, b3;
      j, left := j + 4, left - 1;
    }
  }

  /** `.memcpy_bottom` and the upward `rep movsb`, continuing a copy of which k bytes are done. */
  method CopyBytesUp(mem: array<Byte>, dest: nat, src: nat, k: nat, n: nat, ghost was: seq<Byte>)
    requires k <= n && dest + n <= mem.Length && src + n <= mem.Length == |was|
    requires dest <= src || src + n <= dest
    requires mem[..] == Copied(was, dest, src, k)
    modifies mem
    ensures mem[..] == Copied(was, dest, src, n)
  {
    var j := k;
    while j < n
      invariant k <= j <= n && mem[..] == Copied(was, dest, src, j)
    {
      mem[dest + j] := mem[src + j];
      j := j + 1;
    }
  }

  /** The alignment prefix, the dword loop and the tail of memcpy. The regions may overlap as long as
      the destination is not above the source. */
  method Memcpy(mem: array<Byte>, dest: nat, src: nat, n: nat)
    requires dest + n <= mem.Length && src + n <= mem.Length
    requires dest <= src || src + n <= dest
    modifies mem
    ensures mem[..] == Copied(old(mem[..]), dest, src, n)
  {
    ghost var was := mem[..];
    var k := CopyToAlignment(mem, dest, src, n);
    var dwords := (n - k) / 4;
    RepMovsl(mem, dest, src, k, dwords, was);
    CopyBytesUp(mem, dest, src, k + 4 * dwords, n, was);
  }

  /** memcpy from one buffer to another, side by side in one memory. */
  method MemcpyTo(dest: array<Byte>, bytes: seq<Byte>)
    requires |bytes| <= dest.Length
    modifies dest
    ensures dest[..] == bytes + old(dest[|bytes|..])
  {
    var d := dest.Length;
    var both := dest[..] + bytes;
    var mem := new Byte[|both|](i requires 0 <= i < |both| => both[i]);
    assert mem[..] == both;
    Memcpy(mem, 0, d, |bytes|);
    forall i | 0 <= i < d {
      dest[i] := mem[..][i];
    }
  }

  /** memset replicates the low byte of c into a dword and stores dwords once the address is aligned. */
  method Memset(mem: array<Byte>, s: nat, c: int, n: nat)
    requires s + n <= mem.Length
    modifies mem
    ensures mem[..] == Filled(old(mem[..]), s, c % 256, n)
  {
    ghost var was := mem[..];
    var al: Byte := c % 256;
    var k := 0;
    while k < n && (s + k) % 4 != 0
      invariant 0 <= k <= n && mem[..] == Filled(was, s, al, k)
    {
      mem[s + k] := al;
      k := k + 1;
    }
    var dwords, tail := (n - k) / 4, (n - k) % 4;
    while dwords != 0
      invariant 0 <= k && 0 <= dwords && k + 4 * dwords + tail == n && mem[..] == Filled(was, s, al, k)
    {
      mem[s + k], mem[s + k + 1], mem[s + k + 2], mem[s + k + 3] := al, al, al, al;
      k, dwords := k + 4, dwords - 1;
    }
    while tail != 0
      invariant 0 <= k && 0 <= tail && k + tail == n && mem[..] == Filled(was, s, al, k)
    {
      mem[s + k] := al;
      k, tail := k + 1, tail - 1;
    }
  }

  /** memmove copies upward when the source is at or above the destination and downward otherwise,
      which is a simultaneous copy for every overlap. */
  method Memmove(mem: array<Byte>, dest: nat, src: nat, n: nat)
    requires dest + n <= mem.Length && src + n <= mem.Length
    modifies mem
    ensures mem[..] == Copied(old(mem[..]), dest, src, n)
  {
    ghost var was := mem[..];
    if src >= dest {
      CopyBytesUp(mem, dest, src, 0, n, was);
    } else {
      var k := n;
      while k > 0
        invariant 0 <= k <= n && mem[..] == Copied(was, dest + k, src + k, n - k)
      {
        k := k - 1;
        mem[dest + k] := mem[src + k];
      }
    }
  }
}
