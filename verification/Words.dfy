/** Machine words and the smaller and larger of two numbers. */
module Words {

  const WORD32: nat := 0x1_0000_0000
  const WORD64: nat := 0x1_0000_0000_0000_0000

  function Min(a: nat, b: nat): nat {
    if b < a then b else a
  }

  function Max(a: nat, b: nat): nat {
    if a < b then b else a
  }

  function Add64(a: nat, b: nat): nat {
    (a + b) % WORD64
  }

  function Mul64(a: nat, b: nat): nat {
    a * b % WORD64
  }

  function Wrap64(a: nat): nat {
    a % WORD64
  }

  /** Wrapping before an addition makes no difference after it. */
  lemma AddWraps(a: nat, b: nat)
    ensures Add64(Wrap64(a), b) == Wrap64(a + b) == Add64(Wrap64(a), Wrap64(b))
  {
    WrapMultiple(Wrap64(a) + b, a / WORD64);
    WrapMultiple(Wrap64(a) + Wrap64(b), b / WORD64);
  }

  lemma WrapMultiple(x: nat, k: nat)
    ensures Wrap64(x + k * WORD64) == Wrap64(x)
  {
  }
}
