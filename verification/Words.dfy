/** The 32-bit machine word. */
module Words {
  const WORD: nat := 0x1_0000_0000

  type Word = w: nat | w < WORD
}
