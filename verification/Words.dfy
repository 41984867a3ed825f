/** Machine words, the option type and a few facts shared by the whole model. */
module Words {

  datatype Option<+T> = None | Some(value: T)

  /** Number of values of a 32-bit word, which is also the size of the address space. */
  const WORD: nat := 0x1_0000_0000

  const PAGE_SIZE: nat := 4096

  /** Number of 4 KiB frames of a 32-bit physical address space. */
  const FRAMES: nat := 0x10_0000

  /** The value a 32-bit unsigned variable holds after being assigned x. */
  function Wrap32(x: int): (r: nat)
    ensures r < WORD
  {
    x % WORD
  }

  /** C's decrement of an unsigned 32-bit variable: zero becomes the largest word. */
  function Dec32(x: nat): (r: nat)
    requires x < WORD
    ensures r < WORD
    ensures r == Wrap32(x - 1)
    ensures r == 0 <==> x == 1
  {
    if x == 0 then WORD - 1 else x - 1
  }

  /** C's conversion of an unsigned 32-bit value to a signed one. */
  function AsSigned32(x: nat): (r: int)
    requires x < WORD
    ensures -0x8000_0000 <= r < 0x8000_0000 && Wrap32(r) == x
  {
    if x < WORD / 2 then x else x - WORD
  }

  ghost predicate NoRepeat(s: seq<nat>) {
    forall i, j :: 0 <= i < j < |s| ==> s[i] != s[j]
  }

  /** The remainder is the only one. */
  lemma ModIsUnique(x: nat, a: nat, q: nat, r: nat)
    requires a > 0 && x == q * a + r && r < a
    ensures x % a == r
  {
    var q', r' := x / a, x % a;
    assert q' * a + r' == x;
    if q > q' {
      AtLeastOnce(q, q', a);
    } else if q < q' {
      AtLeastOnce(q', q, a);
    }
  }

  lemma {:induction false} AtLeastOnce(m: nat, n: nat, a: nat)
    requires m > n
    ensures m * a >= n * a + a
  {
    assert m * a == (m - 1) * a + a;
    if m > n + 1 {
      AtLeastOnce(m - 1, n, a);
    }
  }
}
