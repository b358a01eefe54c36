/** Concatenation of a list of sequences, shared by the text and
    orchestration modules. */
module Seqs {

  /** Concatenation of a list of sequences, as Python's `''.join` on strings. */
  function Flatten<T>(xss: seq<seq<T>>): seq<T> {
    if |xss| == 0 then [] else xss[0] + Flatten(xss[1..])
  }

  lemma {:induction false} FlattenAppend<T>(xss: seq<seq<T>>, ys: seq<T>)
    ensures Flatten(xss + [ys]) == Flatten(xss) + ys
  {
    if |xss| == 0 {
      assert xss + [ys] == [ys];
    } else {
      assert (xss + [ys])[1..] == xss[1..] + [ys];
      FlattenAppend(xss[1..], ys);
    }
  }
}
