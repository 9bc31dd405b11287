/** NUL-terminated character buffers, as the C sources see them. */
module CStrings {

  const NUL: char := '\0'

  /** A value a C string can hold: no NUL before its terminator. */
  predicate NulFree(s: string) {
    forall i :: 0 <= i < |s| ==> s[i] != NUL
  }

  /** The string that starts at index i of a buffer: everything before the next NUL. */
  function StringAt(mem: seq<char>, i: nat): string
    requires i <= |mem|
    decreases |mem| - i
  {
    if i == |mem| || mem[i] == NUL then "" else [mem[i]] + StringAt(mem, i + 1)
  }

  lemma {:induction false} StringAtIs(mem: seq<char>, i: nat, j: nat)
    requires i <= j < |mem| && mem[j] == NUL
    requires forall k :: i <= k < j ==> mem[k] != NUL
    ensures StringAt(mem, i) == mem[i..j]
    decreases j - i
  {
    if i < j {
      StringAtIs(mem, i + 1, j);
      assert mem[i..j] == [mem[i]] + mem[i + 1..j];
    }
  }
}
