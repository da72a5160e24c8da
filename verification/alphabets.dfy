/** What the two Vigenère decryptions that look symbols up in a Python
    dictionary share: a symbol's place in the alphabet, and the forward
    shift their decryptions undo. */
module Alphabets {
  import opened Seqs

  /** `{c: i for i, c in enumerate(alphabet)}[c]`: built from `enumerate`,
      so a repeated symbol keeps its last place. */
  function Place(alphabet: string, c: char): (r: nat)
    requires c in alphabet
    ensures r < |alphabet| && alphabet[r] == c
  {
    LastIndexOf(alphabet, c)
  }

  /** The encryption step the decryptions undo: an alphabet symbol moves
      forward by the shift the key pointer `k` selects; any other
      character stays. */
  function ShiftForward(c: char, alphabet: string, shifts: seq<nat>, k: nat): (e: char)
    requires |shifts| > 0
    ensures e in alphabet <==> c in alphabet
  {
    if c in alphabet then alphabet[(Place(alphabet, c) + shifts[k % |shifts|]) % |alphabet|] else c
  }
}
