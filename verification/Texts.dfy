/** Texts that are put together from pieces. */
module Texts {

  function Concat(list: seq<string>): string {
    if list == [] then [] else list[0] + Concat(list[1..])
  }

  lemma {:induction false} ConcatSnoc(list: seq<string>, s: string)
    ensures Concat(list + [s]) == Concat(list) + s
  {
    if list == [] {
      assert list + [s] == [s];
    } else {
      ConcatSnoc(list[1..], s);
      assert (list + [s])[1..] == list[1..] + [s];
    }
  }
}
