/** The fields of a client that hold its input, and the methods that read requests out of it. */
module RespClient {
  import opened Decimals
  import opened Splitting
  import opened Resp

  const REQ_MULTIBULK: int := 2

  class RequestReader {
    var queryBuf: string
    var argv: array?<string>
    var argc: nat
    var multiBulkLen: nat
    var reqType: int
    var closeAfterReply: bool
    var thrown: bool
    var handed: seq<seq<string>>  // the argument vectors that commands were looked up for

    function Args(): seq<string>
      requires Room()
      reads this, argv
    {
      if argv == null then [] else argv[..argc]
    }

    predicate Room()
      reads this, argv
    {
      argc <= if argv == null then 0 else argv.Length
    }

    function State(): Parser
      requires Room()
      reads this, argv
    {
      Parser(queryBuf, Args(), if argv == null then 0 else argv.Length, multiBulkLen, reqType == REQ_MULTIBULK,
             closeAfterReply, thrown)
    }

    predicate Valid()
      reads this, argv
    {
      Room() && State().Valid() && (multiBulkLen > 0 ==> reqType == REQ_MULTIBULK)
    }

    constructor ()
      ensures Valid() && argv == null && State() == Parser("", [], 0, 0, false, false, false) && handed == []
    {
      queryBuf, argv, argc, multiBulkLen := "", null, 0, 0;
      reqType, closeAfterReply, thrown, handed := 0, false, false, [];
    }

    method AddToQueryBuf(s: string)
      requires Room()
      modifies `queryBuf
      ensures State() == old(State()).(buf := old(queryBuf) + s)
    {
      queryBuf := queryBuf + s;
    }

    /** Drop what is before `begin`; past the end this throws. */
    method TrimQueryBuf(begin: nat)
      requires Room()
      modifies `queryBuf, `thrown
      ensures if begin <= old(|queryBuf|) then State() == old(State()).(buf := old(queryBuf)[begin..])
              else State() == old(State()).(thrown := true)
    {
      if begin <= |queryBuf| {
        queryBuf := queryBuf[begin..];
      } else {
        thrown := true;
      }
    }

    method SetProtocolError(pos: nat)
      requires Room()
      modifies `queryBuf, `thrown, `closeAfterReply
      ensures State() == old(State()).Failed(pos)
    {
      closeAfterReply := true;
      TrimQueryBuf(pos + 2);
    }

    method AllocArgv(count: nat)
      modifies `argv, `argc
      ensures fresh(argv) && argv.Length == count && argc == 0
    {
      argv := new string[count](i => "");
      argc := 0;
    }

    method AddArgv(s: string)
      requires argv != null && argc < argv.Length
      modifies `argc, argv
      ensures Room() && State() == old(State()).(argv := old(Args()) + [s])
    {
      argv[argc] := s;
      argc := argc + 1;
      assert argv[..argc] == old(argv[..argc]) + [s];
    }

    method AnalyseMultiBulkLen() returns (res: int)
      requires Room()
      modifies this
      ensures Room() && (State(), res) == old(State()).MultiBulkLen()
      ensures handed == old(handed) && (argv == old(argv) || fresh(argv))
    {
      hide FindCrlf, Numeric, Number, Parser.Failed;
      var pos := FindCrlf(queryBuf, 0);
      if pos == -1 {
        if |queryBuf| > INLINE_MAX {
          SetProtocolError(0);
        }
        return -1;
      }
      var subStr := if pos == 0 then queryBuf[1..] else queryBuf[1..pos];
      var ok, len := String2Int64(subStr, 0);
      if ok == -1 || len > MULTIBULK_MAX {
        SetProtocolError(pos);
        return -1;
      }
      if len < 0 {
        TrimQueryBuf(pos + 2);
        return 1;
      }
      TakeCount(len, pos + 2);
      return 1;
    }

    /** Make room for the arguments and drop the line. */
    method TakeCount(len: nat, begin: nat)
      requires Room() && begin <= |queryBuf|
      modifies this
      ensures Room() && handed == old(handed) && fresh(argv)
      ensures State() == old(State()).(buf := old(queryBuf)[begin..], want := len, argv := [], cap := len)
    {
      multiBulkLen := len;
      AllocArgv(len);
      TrimQueryBuf(begin);
      assert argv[..argc] == [];
    }

    method AnalyseBulk() returns (res: int)
      requires argv != null && argc < argv.Length
      modifies `queryBuf, `thrown, `closeAfterReply, `argc, argv
      ensures Room() && (State(), res) == old(State()).Bulk()
    {
      hide FindCrlf, Numeric, Number, Parser.BulkBody, Parser.Failed;
      if |queryBuf| == 0 {
        return -1;
      }
      if queryBuf[0] != '$' {
        SetProtocolError(0);
        return -1;
      }
      var begin := 1;
      var pos := FindCrlf(queryBuf, begin);
      if pos == -1 {
        if |queryBuf| > INLINE_MAX {
          SetProtocolError(0);
        }
        return -1;
      }
      var ok, bulkLen := String2Int64(queryBuf[begin..pos], 0);
      if ok == -1 || bulkLen < 0 || bulkLen > BULK_MAX {
        SetProtocolError(pos);
      }
      res := AnalyseBulkBody(pos + 2, bulkLen);
    }

    method AnalyseBulkBody(begin: nat, bulkLen: int) returns (res: int)
      requires argv != null && argc < argv.Length
      modifies `queryBuf, `thrown, `closeAfterReply, `argc, argv
      ensures Room() && (State(), res) == old(State()).BulkBody(begin, bulkLen)
    {
      hide FindCrlf;
      var pos := FindCrlf(queryBuf, begin);
      if pos == -1 {
        return -1;
      }
      if pos - begin != bulkLen {
        SetProtocolError(pos);
        return -1;
      }
      AddArgv(queryBuf[begin..pos]);
      TrimQueryBuf(pos + 2);
      return 1;
    }

    method AnalyseMultiBulk() returns (res: int)
      requires Room() && State().Valid()
      modifies `queryBuf, `thrown, `closeAfterReply, `argc, argv
      ensures Room() && (State(), res) == old(State()).MultiBulk()
    {
      hide Parser.Bulk;
      for i := argc to if argc < multiBulkLen then multiBulkLen else argc
        invariant Room() && (argc < multiBulkLen ==> argv != null && multiBulkLen <= argv.Length)
        invariant argc == i && State().MultiBulk() == old(State()).MultiBulk()
      {
        var one := AnalyseBulk();
        if one == -1 {
          return -1;
        }
      }
      return 1;
    }

    method ProcessMultiBulkBuffer() returns (res: int)
      requires Valid()
      modifies this, argv
      ensures Valid() && (State(), res) == old(State()).MultiBulkBuffer()
      ensures handed == old(handed) && (argv == old(argv) || fresh(argv))
    {
      hide Parser.MultiBulk, Parser.MultiBulkLen;
      reqType := REQ_MULTIBULK;
      ghost var p := State();
      assert p == old(State()).(multi := true);
      if multiBulkLen == 0 {
        var one := AnalyseMultiBulkLen();
        assert (State(), one) == p.MultiBulkLen();
        if one == -1 {
          return -1;
        }
      }
      ghost var q := State();
      assert q == if p.want == 0 then p.MultiBulkLen().0 else p;
      var all := AnalyseMultiBulk();
      assert (State(), all) == q.MultiBulk() && (all == 1 || all == -1);
      if all == -1 {
        return -1;
      }
      multiBulkLen := 0;
      reqType := 0;
      return 1;
    }

    method ProcessInlineBuffer() returns (res: int)
      requires Valid() && multiBulkLen == 0
      modifies this, argv
      ensures Valid() && (State(), res) == old(State()).InlineBuffer()
      ensures handed == old(handed) && (argv == old(argv) || fresh(argv))
    {
      hide FindCrlf, Split, Parser.Failed;
      var pos := FindCrlf(queryBuf, 0);
      if pos == -1 {
        if |queryBuf| > INLINE_MAX {
          SetProtocolError(0);
        }
        return -1;
      }
      var words := SplitString(queryBuf[..pos], " ");
      if |words| == 0 {
        return -1;
      }
      SetArgv(words);
      TrimQueryBuf(pos + 2);
      return 1;
    }

    /** One argument after the other. */
    method SetArgv(words: seq<string>)
      requires Room()
      modifies this
      ensures Room() && State() == old(State()).(argv := words, cap := |words|)
      ensures handed == old(handed) && fresh(argv) && queryBuf == old(queryBuf)
    {
      ghost var p := State();
      AllocArgv(|words|);
      for i := 0 to |words|
        invariant fresh(argv) && argc == i && argv.Length == |words| && Args() == words[..i]
        invariant State() == p.(argv := words[..i], cap := |words|) && handed == old(handed)
      {
        AddArgv(words[i]);
        assert words[..i + 1] == words[..i] + [words[i]];
      }
      assert words[..|words|] == words;
    }

    /** Read all requests of the buffer, then look the command up: of the last one read. */
    method ProcessInputBuffer() returns (res: int)
      requires Valid()
      modifies this, argv
      ensures Valid() && (State(), res) == old(State()).ProcessInput()
      ensures handed == if res == 0 then old(handed) + [State().argv] else old(handed)
      ensures argv == old(argv) || fresh(argv)
    {
      hide Parser.MultiBulkBuffer, Parser.InlineBuffer;
      while |queryBuf| > 0
        invariant Valid() && State().ProcessInput() == old(State()).ProcessInput() && handed == old(handed)
        invariant argv == old(argv) || fresh(argv)
        decreases |queryBuf|
      {
        var one;
        if queryBuf[0] == '*' || reqType == REQ_MULTIBULK {
          one := ProcessMultiBulkBuffer();
        } else {
          one := ProcessInlineBuffer();
        }
        if one == -1 {
          return -1;
        }
      }
      handed := handed + [Args()];
      return 0;
    }
  }
}
