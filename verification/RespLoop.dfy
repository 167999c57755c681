/** From the printer to the parser: a request written through chunked output and read by a client. */
module RespLoop {
  import opened Decimals
  import opened Resp
  import opened RespRuns
  import opened Pipelines
  import opened Texts
  import opened RespClient
  import opened Fio

  /** The writes that a request goes out in: the count, then three for every argument. */
  function Parts(args: seq<string>): seq<string> { [CountLine('*', |args|)] + ArgumentParts(args) }

  function ArgumentParts(args: seq<string>): seq<string> {
    if args == [] then [] else BulkParts(args[0]) + ArgumentParts(args[1..])
  }

  lemma {:induction false} ConcatAppend(a: seq<string>, b: seq<string>)
    ensures Concat(a + b) == Concat(a) + Concat(b)
  {
    if a == [] {
      assert a + b == b;
    } else {
      assert (a + b)[1..] == a[1..] + b;
      ConcatAppend(a[1..], b);
    }
  }

  lemma {:induction false} ArgumentsText(args: seq<string>)
    ensures Concat(ArgumentParts(args)) == BulkTexts(args)
  {
    hide BulkParts, BulkText;
    if args != [] {
      ArgumentsText(args[1..]);
      ConcatAppend(BulkParts(args[0]), ArgumentParts(args[1..]));
      BulkPartsText(args[0]);
    }
  }

  lemma PartsText(args: seq<string>)
    ensures Concat(Parts(args)) == Wire(args)
  {
    hide ToString;
    ArgumentsText(args);
    assert Parts(args)[1..] == ArgumentParts(args);
    assert CountLine('*', |args|) == Header(|args|);
  }

  lemma {:induction false} ArgumentPartsSnoc(args: seq<string>, s: string)
    ensures ArgumentParts(args + [s]) == ArgumentParts(args) + BulkParts(s)
  {
    hide BulkParts;
    if args == [] {
      assert [s][1..] == [] && args + [s] == [s];
    } else {
      ArgumentPartsSnoc(args[1..], s);
      assert (args + [s])[1..] == args[1..] + [s];
    }
  }

  /** A request as its writers make it. All of it goes out exactly when the sink takes every chunk of it. */
  method WriteRequest(out: Output, args: seq<string>)
    modifies out
    ensures out.sink == old(out.sink) + Written(Parts(args), old(out.maxProcessingChunk), old(out.outcomes))
    ensures out.sink == old(out.sink) + Wire(args) <==>
            Takes(old(out.outcomes), AllChunks(Parts(args), old(out.maxProcessingChunk)))
  {
    hide BulkText, ToString, Wire, Written, Remaining, Takes, AllChunks, BulkParts, CountLine, Concat;
    ghost var limit, first, before, parts := out.maxProcessingChunk, out.outcomes, out.sink, [CountLine('*', |args|)];
    var head := out.WriteBulkCount('*', |args|);
    assert args[..|args|] == args;
    for i := 0 to |args|
      invariant out.maxProcessingChunk == limit && parts == [CountLine('*', |args|)] + ArgumentParts(args[..i])
      invariant out.sink == before + Written(parts, limit, first) && out.outcomes == Remaining(parts, limit, first)
    {
      assert args[..i + 1] == args[..i] + [args[i]];
      ArgumentPartsSnoc(args[..i], args[i]);
      WrittenAppend(parts, BulkParts(args[i]), limit, first);
      parts := parts + BulkParts(args[i]);
      var n := out.WriteBulkString(args[i]);
    }
    PartsText(args);
    WrittenExactly(Parts(args), limit, first);
    SameTail(before, Written(Parts(args), limit, first), Wire(args));
  }

  /** The parser undoes the printer, whatever the chunk limit of the output and however the text is cut on
      its way in, when the sink takes every chunk. */
  method SendAndReceive(limit: nat, outcomes: seq<bool>, args: seq<string>, cuts: seq<nat>)
      returns (handed: seq<seq<string>>)
    requires Sendable(args)
    requires forall i :: 0 <= i < |cuts| ==> 0 < cuts[i]
    ensures Takes(outcomes, AllChunks(Parts(args), limit)) ==> handed == [args]
  {
    hide Wire, Reads, BulkTexts, Sendable, Parser.ProcessInput, Parser.Valid, Concat, Written, Takes, AllChunks, Parts;
    var out := new Output(limit, outcomes);
    WriteRequest(out, args);
    var text := out.sink;
    ghost var whole := Takes(outcomes, AllChunks(Parts(args), limit));
    assert whole ==> text == Wire(args);
    var reader := new RequestReader();
    ghost var p := reader.State();
    ghost var pieces := Deliver(reader, text, cuts);
    if whole { RequestArrives(p, Array(args), pieces); }
    return reader.handed;
  }

  /** All reads of a client until a text has arrived. */
  method Deliver(reader: RequestReader, text: string, cuts: seq<nat>) returns (ghost pieces: seq<string>)
    requires reader.Valid() && reader.handed == [] && forall i :: 0 <= i < |cuts| ==> 0 < cuts[i]
    modifies reader, reader.argv
    ensures reader.Valid() && Concat(pieces) == text && NoneEmpty(pieces)
    ensures ReadsAs(old(reader.State()), pieces, reader.State(), reader.handed)
  {
    hide Reads, Parser.ProcessInput, Parser.Valid, Concat, ReadsAs;
    ghost var p := reader.State();
    pieces := [];
    ReadsNone(p);
    var at, i := 0, 0;
    while at < |text|
      invariant at <= |text| && i <= |cuts|
      invariant reader.Valid() && (reader.argv == old(reader.argv) || fresh(reader.argv))
      invariant Concat(pieces) == text[..at] && NoneEmpty(pieces)
      invariant ReadsAs(p, pieces, reader.State(), reader.handed)
    {
      var n := if i < |cuts| && cuts[i] < |text| - at then cuts[i] else |text| - at;
      ReadPiece(reader, text[at..at + n], p, pieces);
      ConcatSnoc(pieces, text[at..at + n]);
      pieces := pieces + [text[at..at + n]];
      assert text[..at] + text[at..at + n] == text[..at + n];
      at := at + n;
      if i < |cuts| { i := i + 1; }
    }
    assert text[..at] == text;
  }

  /** One read of a client. */
  method ReadPiece(reader: RequestReader, piece: string, ghost p: Parser, ghost pieces: seq<string>)
    requires reader.Valid() && ReadsAs(p, pieces, reader.State(), reader.handed)
    modifies reader, reader.argv
    ensures reader.Valid() && (reader.argv == old(reader.argv) || fresh(reader.argv))
    ensures ReadsAs(p, pieces + [piece], reader.State(), reader.handed)
  {
    hide Reads, Parser.ProcessInput;
    ReadsSnoc(p, pieces, piece);
    reader.AddToQueryBuf(piece);
    var res := reader.ProcessInputBuffer();
  }

  lemma ReadsNone(p: Parser)
    requires p.Valid() && (p.want > 0 ==> p.multi)
    ensures ReadsAs(p, [], p, []) && Reads(p, []) == (p, []) && Concat([]) == []
  {
  }

  lemma {:induction false} ReadsSnoc(p: Parser, pieces: seq<string>, s: string)
    requires p.Valid() && (p.want > 0 ==> p.multi)
    ensures var (q, handed) := Reads(p, pieces);
            var (t, res) := Fed(q, s).ProcessInput();
            Reads(p, pieces + [s]) == (t, if res == 0 then handed + [t.argv] else handed)
    decreases |pieces|
  {
    hide Parser.ProcessInput;
    if pieces == [] {
      var t := Fed(p, s).ProcessInput().0;
      ReadsNone(t);
      assert pieces + [s] == [s] && [s][1..] == [];
      assert [t.argv] + [] == [] + [t.argv];
    } else {
      assert (pieces + [s])[1..] == pieces[1..] + [s];
      var first := Fed(p, pieces[0]).ProcessInput().0;
      ReadsSnoc(first, pieces[1..], s);
      var (q, handed) := Reads(first, pieces[1..]);
      var t := Fed(q, s).ProcessInput().0;
      assert ([first.argv] + handed) + [t.argv] == [first.argv] + (handed + [t.argv]);
    }
  }
}
