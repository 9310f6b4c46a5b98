/** 32-bit unsigned arithmetic. */
module Words {

  const WORD: int := 0x1_0000_0000

  /** What a 32-bit unsigned variable holds. */
  function Word(x: int): (w: nat)
    ensures w < WORD
    ensures 0 <= x < WORD ==> w == x
  { x % WORD }

  lemma WordIs(x: int)
    ensures 0 <= x < WORD ==> Word(x) == x
    ensures -WORD <= x < 0 ==> Word(x) == x + WORD
    ensures WORD <= x < 2 * WORD ==> Word(x) == x - WORD
  {}

  lemma Wraps(x: int)
    ensures x == WORD * (x / WORD) + Word(x)
  {}
}
