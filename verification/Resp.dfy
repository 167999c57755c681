/** Requests of the RESP protocol: how they are written, and the parser that a client keeps between reads.
    The parser is resumable: what has been read so far stays in its buffer and its fields. */
module Resp {
  import opened Decimals
  import opened Splitting

  const MULTIBULK_MAX: int := 1024 * 1024
  const BULK_MAX: int := 512 * 1024 * 1024
  const INLINE_MAX: int := 1024 * 64

  const CRLF: string := "\r\n"

  /** Where a line break starts at or after a place; -1 if there is none. */
  function FindCrlf(s: string, from: nat): (pos: int)
    ensures pos == -1 || (from <= pos && pos + 1 < |s| && s[pos] == '\r' && s[pos + 1] == '\n')
    ensures forall i :: from <= i && i + 1 < |s| && (pos == -1 || i < pos) ==> !(s[i] == '\r' && s[i + 1] == '\n')
    decreases |s| - from
  {
    if from + 1 >= |s| then -1
    else if s[from] == '\r' && s[from + 1] == '\n' then from
    else FindCrlf(s, from + 1)
  }

  function ReadNumber(text: string): (r: (bool, int)) {
    if Numeric(text) then (true, Number(text)) else (false, 0)
  }

  /** The part of a client that reads requests. `cap` is the room its argument vector has. */
  datatype Parser = Parser(buf: string, argv: seq<string>, cap: nat, want: nat, multi: bool, closing: bool,
      thrown: bool) {

    /** An unfinished request has arguments missing, and room for them. */
    predicate Valid() { want > 0 ==> |argv| < want == cap }

    /** What a protocol error does: reply, close afterwards, and drop the line. Dropping more than there is
        throws an exception. */
    function Failed(pos: nat): Parser {
      if pos + 2 <= |buf| then this.(closing := true, buf := buf[pos + 2..])
      else this.(closing := true, thrown := true)
    }

    /** The line that starts with a star. */
    function MultiBulkLen(): (r: (Parser, int))
      ensures r.0.multi == multi && (r.1 == 1 || r.1 == -1) && (r.1 == 1 ==> |r.0.buf| < |buf|)
      ensures want == 0 ==> r.0.Valid()
    {
      var pos := FindCrlf(buf, 0);
      if pos == -1 then (if |buf| > INLINE_MAX then Failed(0) else this, -1)
      else
        var text := if pos == 0 then buf[1..] else buf[1..pos];
        var (ok, len) := ReadNumber(text);
        if !ok || len > MULTIBULK_MAX then (Failed(pos), -1)
        else if len < 0 then (this.(buf := buf[pos + 2..]), 1)
        else (this.(buf := buf[pos + 2..], want := len, argv := [], cap := len), 1)
    }

    /** One argument: its length on a line, then its text up to the next line break. A bad length is an error
        but does not end the attempt. */
    function Bulk(): (r: (Parser, int))
      ensures r.1 == 1 ==> |r.0.buf| < |buf| && |r.0.argv| == |argv| + 1
      ensures r.1 != 1 ==> r.1 == -1 && r.0.argv == argv
      ensures r.0.want == want && r.0.cap == cap && r.0.multi == multi
    {
      if buf == [] then (this, -1)
      else if buf[0] != '$' then (Failed(0), -1)
      else
        var pos := FindCrlf(buf, 1);
        if pos == -1 then (if |buf| > INLINE_MAX then Failed(0) else this, -1)
        else
          var (ok, len) := ReadNumber(buf[1..pos]);
          (if !ok || len < 0 || len > BULK_MAX then Failed(pos) else this).BulkBody(pos + 2, len)
    }

    /** The text of the argument. */
    function BulkBody(begin: nat, len: int): (r: (Parser, int))
      ensures r.1 == 1 ==> |r.0.buf| < |buf| && |r.0.argv| == |argv| + 1
      ensures r.1 != 1 ==> r.1 == -1 && r.0.argv == argv
      ensures r.0.want == want && r.0.cap == cap && r.0.multi == multi
    {
      var end := FindCrlf(buf, begin);
      if end == -1 then (this, -1)
      else if end - begin != len then (Failed(end), -1)
      else (this.(argv := argv + [buf[begin..end]], buf := buf[end + 2..]), 1)
    }

    /** As many arguments as are missing. */
    function MultiBulk(): (r: (Parser, int))
      ensures r.1 == 1 || r.1 == -1
      ensures r.0.want == want && r.0.cap == cap && r.0.multi == multi && |r.0.argv| >= |argv|
      ensures r.1 == 1 ==> |r.0.argv| >= want && (|argv| < want ==> |r.0.buf| < |buf|) && |r.0.buf| <= |buf|
      ensures r.1 == -1 ==> |r.0.argv| < want
      decreases want - |argv|
    {
      if |argv| >= want then (this, 1)
      else
        var (p, res) := Bulk();
        if res == -1 then (p, -1) else p.MultiBulk()
    }

    /** A request in array form, from wherever it was left. */
    function MultiBulkBuffer(): (r: (Parser, int))
      requires Valid()
      ensures r.0.Valid() && (r.1 == 1 || r.1 == -1)
      ensures r.1 == 1 ==> |r.0.buf| < |buf|
    {
      var p := this.(multi := true);
      var (q, res) := if want == 0 then p.MultiBulkLen() else (p, 1);
      if res == -1 then (q, -1)
      else
        var (t, res) := q.MultiBulk();
        if res == -1 then (t, -1) else (t.(want := 0, multi := false), 1)
    }

    /** A request on one line: its words. */
    function InlineBuffer(): (r: (Parser, int))
      requires Valid() && want == 0
      ensures r.0.Valid() && (r.1 == 1 || r.1 == -1)
      ensures r.1 == 1 ==> |r.0.buf| < |buf|
    {
      var pos := FindCrlf(buf, 0);
      if pos == -1 then (if |buf| > INLINE_MAX then Failed(0) else this, -1)
      else
        var words := Split(buf[..pos], " ", 0);
        if words == [] then (this, -1)
        else (this.(argv := words, cap := |words|, buf := buf[pos + 2..]), 1)
    }

    /** One turn of the loop over the buffer. */
    function Turn(): (r: (Parser, int))
      requires Valid() && buf != [] && (want > 0 ==> multi)
      ensures r.0.Valid() && (r.0.want > 0 ==> r.0.multi) && (r.1 == 1 || r.1 == -1)
      ensures r.1 == 1 ==> |r.0.buf| < |buf|
    {
      if buf[0] == '*' || multi then MultiBulkBuffer() else InlineBuffer()
    }

    /** Read requests until the buffer is empty, or until one is unfinished or wrong. */
    function ProcessInput(): (r: (Parser, int))
      requires Valid() && (want > 0 ==> multi)
      ensures r.0.Valid() && (r.0.want > 0 ==> r.0.multi) && (r.1 == 0 || r.1 == -1) && (r.1 == 0 ==> r.0.buf == [])
      decreases |buf|
    {
      if buf == [] then (this, 0)
      else
        var (p, res) := Turn();
        if res == -1 then (p, -1) else p.ProcessInput()
    }
  }

  // --- how requests are written ----------------------------------------------------------------------------------

  function Header(n: nat): string { "*" + ToString(n) + CRLF }

  function BulkText(s: string): string { "$" + ToString(|s|) + CRLF + s + CRLF }

  function BulkTexts(args: seq<string>): string {
    if args == [] then [] else BulkText(args[0]) + BulkTexts(args[1..])
  }

  function Wire(args: seq<string>): string { Header(|args|) + BulkTexts(args) }

  predicate CrlfFree(s: string) { forall i :: 0 <= i && i + 1 < |s| ==> !(s[i] == '\r' && s[i + 1] == '\n') }

  predicate Sendable(args: seq<string>) {
    |args| <= MULTIBULK_MAX && forall i :: 0 <= i < |args| ==> CrlfFree(args[i]) && |args[i]| <= BULK_MAX
  }
}
