/** How buffered output cuts a text into chunks, in numbers. */
module FioChunks {
  import opened Fio

  /** How many chunks in a row are taken before the first that is not. */
  function Leading(outcomes: seq<bool>): (k: nat)
    ensures k <= |outcomes| && (forall i :: 0 <= i < k ==> outcomes[i]) && (k < |outcomes| ==> !outcomes[k])
  {
    if outcomes == [] || !outcomes[0] then 0 else 1 + Leading(outcomes[1..])
  }

  function Least(a: nat, b: nat): nat { if a < b then a else b }

  lemma OneLess(c: int, limit: int)
    ensures (c - 1) * limit == c * limit - limit
  {
  }

  /** A text takes as many chunks as there are limits in its length, rounded up; without a limit it takes one. */
  lemma {:induction false} ChunksAre(len: nat, limit: nat)
    ensures var c := Chunks(len, limit);
            && (c == 0 <==> len == 0)
            && (limit == 0 && len > 0 ==> c == 1)
            && (limit > 0 && len > 0 ==> (c - 1) * limit < len <= c * limit)
    decreases len
  {
    if len > 0 {
      var left := len - Chunk(len, limit);
      ChunksAre(left, limit);
      OneLess(Chunks(len, limit), limit);
      OneLess(Chunks(left, limit), limit);
    }
  }

  /** What goes out are all chunks up to the first that is not taken: that many times the limit, or the whole
      text if that is less. */
  lemma {:induction false} TakenAre(len: nat, limit: nat, outcomes: seq<bool>)
    ensures var k := Leading(outcomes);
            Taken(len, limit, outcomes) == if limit == 0 then (if k > 0 then len else 0) else Least(len, k * limit)
    decreases len
  {
    if len > 0 && outcomes != [] && outcomes[0] {
      TakenAre(len - Chunk(len, limit), limit, outcomes[1..]);
      OneLess(Leading(outcomes), limit);
    }
  }

  /** The sink is asked for each of them and for the one that fails, as long as there is something to write. */
  lemma {:induction false} UsedAre(len: nat, limit: nat, outcomes: seq<bool>)
    ensures Used(len, limit, outcomes) == Least(Chunks(len, limit), Least(Leading(outcomes) + 1, |outcomes|))
    decreases len
  {
    hide Chunk;
    if len > 0 && outcomes != [] && outcomes[0] { UsedAre(len - Chunk(len, limit), limit, outcomes[1..]); }
  }
}
