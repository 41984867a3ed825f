/** liballoc's own memset and memcpy (kernel/src/MM/LibAlloc.c), on the bytes of the address space. */
module Bytes {

  type Byte = b: nat | b < 256

  /** Memory with the n bytes from s on copied to d. */
  function Copied(mem: seq<Byte>, d: nat, s: nat, n: nat): (r: seq<Byte>)
    requires d + n <= |mem| && s + n <= |mem|
    ensures |r| == |mem|
  {
    mem[..d] + mem[s..s + n] + mem[d + n..]
  }

  lemma CopiedByte(mem: seq<Byte>, d: nat, s: nat, n: nat, k: nat)
    requires d + n <= |mem| && s + n <= |mem| && k < |mem|
    ensures Copied(mem, d, s, n)[k] == if d <= k < d + n then mem[k - d + s] else mem[k]
  {
  }

  function Filled(mem: seq<Byte>, d: nat, n: nat, v: Byte): (r: seq<Byte>)
    requires d + n <= |mem|
    ensures |r| == |mem|
    ensures forall k :: 0 <= k < |mem| ==> r[k] == if d <= k < d + n then v else mem[k]
  {
    mem[..d] + seq(n, _ => v) + mem[d + n..]
  }

  method MemSet(mem: array<Byte>, d: nat, v: Byte, n: nat)
    requires d + n <= mem.Length
    modifies mem
    ensures mem[..] == Filled(old(mem[..]), d, n, v)
  {
    for i := 0 to n
      invariant forall k :: 0 <= k < mem.Length ==> mem[k] == if d <= k < d + i then v else old(mem[k])
    {
      mem[d + i] := v;
    }
  }

  lemma CopiedSlice(mem: seq<Byte>, d: nat, s: nat, n: nat)
    requires d + n <= |mem| && s + n <= |mem|
    ensures Copied(mem, d, s, n)[d..d + n] == mem[s..s + n]
  {
    var r := Copied(mem, d, s, n);
    forall k | d <= k < d + n ensures r[k] == mem[k - d + s] {
      CopiedByte(mem, d, s, n, k);
    }
    hide Copied;
    assert r[d..d + n] == mem[s..s + n];
  }

  lemma CopiedNone(mem: seq<Byte>, d: nat, s: nat)
    requires d <= |mem| && s <= |mem|
    ensures Copied(mem, d, s, 0) == mem
  {
    forall k | 0 <= k < |mem| ensures Copied(mem, d, s, 0)[k] == mem[k] {
      CopiedByte(mem, d, s, 0, k);
    }
  }

  /** Copying front to back in pieces is copying in one piece whenever the target does not start inside
      the source. */
  lemma CopiedInPieces(mem: seq<Byte>, d: nat, s: nat, a: nat, b: nat)
    requires d + a + b <= |mem| && s + a + b <= |mem|
    requires d <= s || s + a + b <= d
    ensures Copied(Copied(mem, d, s, a), d + a, s + a, b) == Copied(mem, d, s, a + b)
  {
    var twice, whole := Copied(Copied(mem, d, s, a), d + a, s + a, b), Copied(mem, d, s, a + b);
    forall k | 0 <= k < |mem| ensures twice[k] == whole[k] {
      ByteInPieces(mem, d, s, a, b, k);
    }
    hide Copied;
    assert twice == whole;
  }

  lemma ByteInPieces(mem: seq<Byte>, d: nat, s: nat, a: nat, b: nat, k: nat)
    requires d + a + b <= |mem| && s + a + b <= |mem| && k < |mem|
    requires d <= s || s + a + b <= d
    ensures Copied(Copied(mem, d, s, a), d + a, s + a, b)[k] == Copied(mem, d, s, a + b)[k]
  {
    hide Copied;
    var from := if d + a <= k < d + a + b then k - d + s else k;
    CopiedByte(Copied(mem, d, s, a), d + a, s + a, b, k);
    CopiedByte(mem, d, s, a + b, k);
    CopiedByte(mem, d, s, a, from);
  }

  /** One step of the word loop: the whole word is read before it is written. */
  method CopyWord(mem: array<Byte>, d: nat, s: nat)
    requires d + 4 <= mem.Length && s + 4 <= mem.Length
    modifies mem
    ensures mem[..] == Copied(old(mem[..]), d, s, 4)
  {
    ghost var was := mem[..];
    mem[d], mem[d + 1], mem[d + 2], mem[d + 3] := mem[s], mem[s + 1], mem[s + 2], mem[s + 3];
    hide Copied;
    forall k | 0 <= k < mem.Length ensures mem[k] == Copied(was, d, s, 4)[k] {
      CopiedByte(was, d, s, 4, k);
    }
  }

  method CopyByte(mem: array<Byte>, d: nat, s: nat)
    requires d < mem.Length && s < mem.Length
    modifies mem
    ensures mem[..] == Copied(old(mem[..]), d, s, 1)
  {
    ghost var was := mem[..];
    mem[d] := mem[s];
    hide Copied;
    forall k | 0 <= k < mem.Length ensures mem[k] == Copied(was, d, s, 1)[k] {
      CopiedByte(was, d, s, 1, k);
    }
  }

  /** The word loop: copies all but the last few bytes and says how many it copied. */
  method CopyWords(mem: array<Byte>, d: nat, s: nat, n: nat) returns (done: nat)
    requires d + n <= mem.Length && s + n <= mem.Length
    requires d <= s || s + n <= d
    modifies mem
    ensures n - 4 < done <= n && mem[..] == Copied(old(mem[..]), d, s, done)
  {
    hide Copied;
    ghost var was := mem[..];
    done := 0;
    CopiedNone(was, d, s);
    while n - done >= 4
      invariant 0 <= done <= n && mem[..] == Copied(was, d, s, done)
    {
      CopyWord(mem, d + done, s + done);
      CopiedInPieces(was, d, s, done, 4);
      done := done + 4;
    }
  }

  /** Whole words first, then single bytes. */
  method MemCpy(mem: array<Byte>, d: nat, s: nat, n: nat)
    requires d + n <= mem.Length && s + n <= mem.Length
    requires d <= s || s + n <= d
    modifies mem
    ensures mem[d..d + n] == old(mem[s..s + n])
    ensures forall k :: 0 <= k < mem.Length && !(d <= k < d + n) ==> mem[k] == old(mem[k])
  {
    CopyPieces(mem, d, s, n);
    hide Copied;
    CopiedSlice(old(mem[..]), d, s, n);
    assert old(mem[s..s + n]) == old(mem[..])[s..s + n];
    assert mem[d..d + n] == mem[..][d..d + n];
    forall k | 0 <= k < mem.Length && !(d <= k < d + n) ensures mem[k] == old(mem[k]) {
      CopiedByte(old(mem[..]), d, s, n, k);
      assert mem[k] == mem[..][k];
    }
  }

  method CopyPieces(mem: array<Byte>, d: nat, s: nat, n: nat)
    requires d + n <= mem.Length && s + n <= mem.Length
    requires d <= s || s + n <= d
    modifies mem
    ensures mem[..] == Copied(old(mem[..]), d, s, n)
  {
    hide Copied;
    ghost var was := mem[..];
    var done := CopyWords(mem, d, s, n);
    while done < n
      invariant 0 <= done <= n && mem[..] == Copied(was, d, s, done)
    {
      CopyByte(mem, d + done, s + done);
      CopiedInPieces(was, d, s, done, 1);
      done := done + 1;
    }
  }
}
