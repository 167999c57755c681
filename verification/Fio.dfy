/** Buffered output: text goes to a base sink in chunks of a limited size. */
module Fio {
  import opened Decimals
  import opened Resp
  import opened Texts

  /** The size of the next chunk. */
  function Chunk(len: nat, limit: nat): (n: nat)
    ensures n <= len && (len > 0 ==> n > 0)
  {
    if limit != 0 && limit < len then limit else len
  }

  /** How much of a text goes out. `outcomes` says of each base write to come whether the sink takes the chunk;
      where there is none any more, it does not. The first chunk that is not taken ends the writing. */
  function Taken(len: nat, limit: nat, outcomes: seq<bool>): (t: nat)
    ensures t <= len
    decreases len
  {
    if len == 0 || outcomes == [] || !outcomes[0] then 0
    else Chunk(len, limit) + Taken(len - Chunk(len, limit), limit, outcomes[1..])
  }

  /** How many base writes are made that have an outcome. */
  function Used(len: nat, limit: nat, outcomes: seq<bool>): (n: nat)
    ensures n <= |outcomes|
    decreases len
  {
    if len == 0 || outcomes == [] then 0
    else if !outcomes[0] then 1
    else 1 + Used(len - Chunk(len, limit), limit, outcomes[1..])
  }

  /** One more chunk. */
  lemma TakenStep(len: nat, limit: nat, outcomes: seq<bool>)
    requires len > 0
    ensures Chunk(len, limit) > 0
    ensures outcomes == [] ==> Taken(len, limit, outcomes) == 0 && Used(len, limit, outcomes) == 0
    ensures outcomes != [] && !outcomes[0] ==> Taken(len, limit, outcomes) == 0 && Used(len, limit, outcomes) == 1
    ensures outcomes != [] && outcomes[0] ==>
              && Taken(len, limit, outcomes) == Chunk(len, limit) + Taken(len - Chunk(len, limit), limit, outcomes[1..])
              && Used(len, limit, outcomes) == 1 + Used(len - Chunk(len, limit), limit, outcomes[1..])
  {
  }

  /** The number of chunks a text of this length goes out in. */
  function Chunks(len: nat, limit: nat): nat
    decreases len
  {
    if len == 0 then 0 else 1 + Chunks(len - Chunk(len, limit), limit)
  }

  /** The next `n` chunks are taken. */
  predicate Takes(outcomes: seq<bool>, n: nat) { n <= |outcomes| && forall i :: 0 <= i < n ==> outcomes[i] }

  /** A text goes out whole exactly when all its chunks are taken, and then that is how many were. */
  lemma {:induction false} WholeExactly(len: nat, limit: nat, outcomes: seq<bool>)
    ensures Taken(len, limit, outcomes) == len <==> Takes(outcomes, Chunks(len, limit))
    ensures Takes(outcomes, Chunks(len, limit)) ==> Used(len, limit, outcomes) == Chunks(len, limit)
    decreases len
  {
    hide Chunk;
    if len > 0 && outcomes != [] {
      var left := len - Chunk(len, limit);
      WholeExactly(left, limit, outcomes[1..]);
      assert Takes(outcomes, 1 + Chunks(left, limit)) <==> outcomes[0] && Takes(outcomes[1..], Chunks(left, limit)) by {
        TakesCons(outcomes, Chunks(left, limit));
      }
    }
  }

  lemma TakesCons(outcomes: seq<bool>, n: nat)
    requires outcomes != []
    ensures Takes(outcomes, 1 + n) <==> outcomes[0] && Takes(outcomes[1..], n)
  {
    if outcomes[0] && Takes(outcomes[1..], n) {
      forall i | 0 <= i < 1 + n ensures outcomes[i] { if i > 0 { assert outcomes[1..][i - 1]; } }
    }
  }

  lemma TakesSum(outcomes: seq<bool>, m: nat, n: nat)
    ensures Takes(outcomes, m + n) <==> Takes(outcomes, m) && Takes(outcomes[m..], n)
  {
    if Takes(outcomes, m) && Takes(outcomes[m..], n) {
      forall i | 0 <= i < m + n ensures outcomes[i] { if i >= m { assert outcomes[m..][i - m]; } }
    }
  }

  // --- several writes in a row -----------------------------------------------------------------------------------

  /** What goes out of several texts: of each the part that is taken, whatever became of those before it. */
  function Written(parts: seq<string>, limit: nat, outcomes: seq<bool>): string {
    if parts == [] then []
    else
      parts[0][..Taken(|parts[0]|, limit, outcomes)]
      + Written(parts[1..], limit, outcomes[Used(|parts[0]|, limit, outcomes)..])
  }

  /** The outcomes that are still to come. */
  function Remaining(parts: seq<string>, limit: nat, outcomes: seq<bool>): seq<bool> {
    if parts == [] then outcomes
    else Remaining(parts[1..], limit, outcomes[Used(|parts[0]|, limit, outcomes)..])
  }

  function AllChunks(parts: seq<string>, limit: nat): nat {
    if parts == [] then 0 else Chunks(|parts[0]|, limit) + AllChunks(parts[1..], limit)
  }

  lemma {:induction false} WrittenBound(parts: seq<string>, limit: nat, outcomes: seq<bool>)
    ensures |Written(parts, limit, outcomes)| <= |Concat(parts)|
    decreases |parts|
  {
    hide Taken, Used;
    if parts != [] { WrittenBound(parts[1..], limit, outcomes[Used(|parts[0]|, limit, outcomes)..]); }
  }

  /** All of several texts goes out exactly when every chunk of every one is taken. */
  lemma {:induction false} WrittenExactly(parts: seq<string>, limit: nat, outcomes: seq<bool>)
    ensures Written(parts, limit, outcomes) == Concat(parts) <==> Takes(outcomes, AllChunks(parts, limit))
    decreases |parts|
  {
    hide Taken, Used, Chunks, Takes;
    if parts == [] {
      assert Takes(outcomes, 0) by { NoneTaken(outcomes); }
    } else {
      var head, more := parts[0], parts[1..];
      var t, after := Taken(|head|, limit, outcomes), outcomes[Used(|head|, limit, outcomes)..];
      WholeExactly(|head|, limit, outcomes);
      WrittenExactly(more, limit, after);
      WrittenBound(more, limit, after);
      TakesSum(outcomes, Chunks(|head|, limit), AllChunks(more, limit));
      if t == |head| {
        assert head[..t] == head;
        assert head + Written(more, limit, after) == head + Concat(more) <==>
            Written(more, limit, after) == Concat(more)
          by { SameTail(head, Written(more, limit, after), Concat(more)); }
      } else {
        assert |head[..t] + Written(more, limit, after)| < |Concat(parts)|;
      }
    }
  }

  lemma NoneTaken(outcomes: seq<bool>)
    ensures Takes(outcomes, 0)
  {
  }

  lemma SameTail(head: string, a: string, b: string)
    ensures head + a == head + b <==> a == b
  {
    if head + a == head + b {
      assert (head + a)[|head|..] == a && (head + b)[|head|..] == b;
    }
  }

  lemma {:induction false} WrittenAppend(parts: seq<string>, more: seq<string>, limit: nat, outcomes: seq<bool>)
    ensures Written(parts + more, limit, outcomes)
         == Written(parts, limit, outcomes) + Written(more, limit, Remaining(parts, limit, outcomes))
    ensures Remaining(parts + more, limit, outcomes) == Remaining(more, limit, Remaining(parts, limit, outcomes))
    decreases |parts|
  {
    hide Taken, Used;
    if parts == [] {
      assert parts + more == more;
    } else {
      assert (parts + more)[1..] == parts[1..] + more;
      WrittenAppend(parts[1..], more, limit, outcomes[Used(|parts[0]|, limit, outcomes)..]);
    }
  }

  lemma OneWritten(text: string, limit: nat, outcomes: seq<bool>)
    ensures Written([text], limit, outcomes) == text[..Taken(|text|, limit, outcomes)]
    ensures Remaining([text], limit, outcomes) == outcomes[Used(|text|, limit, outcomes)..]
  {
    assert [text][1..] == [];
  }

  lemma NothingTaken(limit: nat, outcomes: seq<bool>)
    ensures Taken(0, limit, outcomes) == 0 && Used(0, limit, outcomes) == 0 && outcomes[0..] == outcomes
    ensures Chunk(0, limit) == 0
  {
  }

  lemma ThreeWritten(a: string, b: string, c: string, limit: nat, outcomes: seq<bool>)
    ensures var second := Remaining([a], limit, outcomes); var third := Remaining([b], limit, second);
            && Written([a, b, c], limit, outcomes) ==
               Written([a], limit, outcomes) + Written([b], limit, second) + Written([c], limit, third)
            && Remaining([a, b, c], limit, outcomes) == Remaining([c], limit, third)
  {
    hide Written, Remaining;
    assert [a, b, c] == [a] + ([b] + [c]);
    WrittenAppend([a], [b] + [c], limit, outcomes);
    WrittenAppend([b], [c], limit, Remaining([a], limit, outcomes));
  }

  // --- the output ------------------------------------------------------------------------------------------------

  function CountLine(prefix: char, count: nat): string { [prefix] + ToString(count) + CRLF }

  /** The three writes that an argument goes out in. */
  function BulkParts(str: string): seq<string> { [CountLine('$', |str|), str, CRLF] }

  lemma PartsAre(str: string)
    ensures BulkParts(str) == [CountLine('$', |str|), str, CRLF]
  {
  }

  lemma BulkLength(str: string)
    ensures |BulkText(str)| == |CountLine('$', |str|)| + |str| + 2
  {
  }

  lemma BulkPartsText(str: string)
    ensures Concat(BulkParts(str)) == BulkText(str)
  {
    hide ToString;
    var line := CountLine('$', |str|);
    assert BulkParts(str)[1..] == [str, CRLF] && [str, CRLF][1..] == [CRLF] && [CRLF][1..] == [];
    assert Concat([CRLF]) == CRLF && Concat([str, CRLF]) == str + Concat([CRLF]);
    assert line + (str + CRLF) == "$" + ToString(|str|) + CRLF + str + CRLF;
  }

  /** A base sink that takes the chunks it is given, or does not, as `outcomes` says. */
  class Output {
    var maxProcessingChunk: nat
    var processedBytes: nat
    var sink: string
    var outcomes: seq<bool>

    constructor (chunk: nat, outcomes: seq<bool>)
      ensures maxProcessingChunk == chunk && sink == "" && processedBytes == 0 && this.outcomes == outcomes
    {
      maxProcessingChunk := chunk;
      processedBytes := 0;
      sink := "";
      this.outcomes := outcomes;
    }

    method BaseWrite(buf: string) returns (n: int)
      modifies `sink, `outcomes
      ensures if old(outcomes) != [] && old(outcomes)[0] then n == |buf| && sink == old(sink) + buf
              else n == 0 && sink == old(sink)
      ensures outcomes == if old(outcomes) == [] then [] else old(outcomes)[1..]
    {
      if outcomes == [] {
        return 0;
      }
      var taken := outcomes[0];
      outcomes := outcomes[1..];
      if !taken {
        return 0;
      }
      sink := sink + buf;
      return |buf|;
    }

    /** What goes out is a prefix, the whole text if every chunk is taken. The count that is returned includes
        the chunk that failed, so that it is never zero for a text that is not empty. */
    method Write(text: string) returns (totalWrite: nat)
      modifies `sink, `outcomes, `processedBytes
      ensures var t := Taken(|text|, maxProcessingChunk, old(outcomes));
              && sink == old(sink) + text[..t] && processedBytes == old(processedBytes) + t
              && totalWrite == t + Chunk(|text| - t, maxProcessingChunk)
      ensures outcomes == old(outcomes)[Used(|text|, maxProcessingChunk, old(outcomes))..]
      ensures totalWrite == 0 <==> text == []
    {
      hide Chunk, Taken, Used;
      totalWrite := 0;
      var buf := text;
      ghost var limit, k := maxProcessingChunk, 0;
      while |buf| > 0
        invariant |buf| <= |text| && buf == text[|text| - |buf|..] && sink == old(sink) + text[..|text| - |buf|]
        invariant totalWrite == |text| - |buf| && processedBytes == old(processedBytes) + totalWrite
        invariant k <= |old(outcomes)| && outcomes == old(outcomes)[k..] && maxProcessingChunk == limit
        invariant Taken(|text|, limit, old(outcomes)) == totalWrite + Taken(|buf|, limit, outcomes)
        invariant Used(|text|, limit, old(outcomes)) == k + Used(|buf|, limit, outcomes)
      {
        var writeBytes := Chunk(|buf|, maxProcessingChunk);
        TakenStep(|buf|, limit, outcomes);
        totalWrite := totalWrite + writeBytes;
        ghost var before := outcomes;
        var written := BaseWrite(buf[..writeBytes]);
        assert before != [] ==> outcomes == old(outcomes)[k + 1..];
        if written == 0 {
          return;
        }
        assert buf[..writeBytes] == text[|text| - |buf|..|text| - |buf| + writeBytes];
        buf := buf[writeBytes..];
        processedBytes := processedBytes + writeBytes;
        k := k + 1;
      }
      NothingTaken(limit, outcomes);
    }

    /** The answer is the length of the line, whether or not it has gone out. */
    method WriteBulkCount(prefix: char, count: nat) returns (n: int)
      modifies `sink, `outcomes, `processedBytes
      ensures var line, limit := CountLine(prefix, count), maxProcessingChunk;
              && n == |line| && sink == old(sink) + Written([line], limit, old(outcomes))
              && outcomes == Remaining([line], limit, old(outcomes))
              && (sink == old(sink) + line <==> Takes(old(outcomes), Chunks(|line|, limit)))
    {
      hide Chunk, ToString, Taken, Used, Chunks, Takes;
      var str := [prefix] + ToString(count) + CRLF;
      OneWritten(str, maxProcessingChunk, outcomes);
      WholeExactly(|str|, maxProcessingChunk, outcomes);
      var written := Write(str);
      if written <= 0 {
        return 0;
      }
      return |str|;
    }

    /** An argument with its length. The answer is the same whatever the sink has taken; it is right exactly
        when every chunk of the three writes was taken. */
    method WriteBulkString(str: string) returns (n: int)
      modifies `sink, `outcomes, `processedBytes
      ensures var parts, limit := BulkParts(str), maxProcessingChunk;
              && n == |BulkText(str)| && sink == old(sink) + Written(parts, limit, old(outcomes))
              && outcomes == Remaining(parts, limit, old(outcomes))
              && (sink == old(sink) + BulkText(str) <==> Takes(old(outcomes), AllChunks(parts, limit)))
    {
      hide Chunk, ToString, Taken, Used, Chunks, Takes, Written, Remaining, AllChunks, Concat, BulkParts, BulkText;
      ghost var limit, line, before := maxProcessingChunk, CountLine('$', |str|), sink;
      BulkLength(str);
      BulkPartsText(str);
      ghost var first := outcomes;
      WrittenExactly(BulkParts(str), limit, first);
      var written := WriteBulkCount('$', |str|);
      if written == 0 {
        return 0;
      }
      ghost var second := outcomes;
      OneWritten(str, limit, second);
      NothingTaken(limit, second);
      if |str| > 0 {
        var body := Write(str);
        if body == 0 {
          return 0;
        }
      }
      ghost var third := outcomes;
      assert sink == before + (Written([line], limit, first) + Written([str], limit, second));
      OneWritten(CRLF, limit, third);
      var end := Write(CRLF);
      if end == 0 {
        return 0;
      }
      ThreeWritten(line, str, CRLF, limit, first);
      assert BulkParts(str) == [line, str, CRLF] by { PartsAre(str); }
      assert sink == before + Written(BulkParts(str), limit, first);
      SameTail(before, Written(BulkParts(str), limit, first), BulkText(str));
      return written + |str| + 2;
    }
  }

  /** The answer does not tell: a sink that takes the length and the line break but not the text between them
      leaves a text that no parser reads, and the length of the whole is returned. */
  lemma HoleInTheMiddle(str: string)
    requires str != ""
    ensures Written(BulkParts(str), 0, [true, false, true]) == CountLine('$', |str|) + CRLF
    ensures Written(BulkParts(str), 0, [true, false, true]) != BulkText(str)
  {
    hide ToString;
    var line, parts := CountLine('$', |str|), BulkParts(str);
    assert parts[1..] == [str, CRLF] && [str, CRLF][1..] == [CRLF] && [CRLF][1..] == [];
    assert Taken(|line|, 0, [true, false, true]) == |line| && Used(|line|, 0, [true, false, true]) == 1;
    assert [true, false, true][1..] == [false, true] && [false, true][1..] == [true];
    assert Taken(|str|, 0, [false, true]) == 0 && Used(|str|, 0, [false, true]) == 1;
    assert Taken(2, 0, [true]) == 2;
    assert line[..|line|] == line && CRLF[..2] == CRLF && str[..0] == "";
    assert Written([CRLF], 0, [true]) == CRLF by { OneWritten(CRLF, 0, [true]); }
    assert Written([str, CRLF], 0, [false, true]) == str[..0] + Written([CRLF], 0, [true]);
    assert "" + CRLF == CRLF;
    BulkLength(str);
  }
}
