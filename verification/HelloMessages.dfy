/** The hello message: eight fields with commas between them. */
module HelloMessages {
  import opened Decimals
  import opened Splitting
  import opened Options

  const PAYLOAD_BYTES: nat := 46 + 1024
  const FIELDS: nat := 8

  // --- fields and commas -----------------------------------------------------------------------------------------

  /** A field that splitting gives back: no comma in it and no space in front. */
  predicate Clean(f: string) { ',' !in f && (f != [] ==> f[0] != ' ') }

  /** Fields with a comma after each. */
  function Terminated(fields: seq<string>): string {
    if fields == [] then [] else fields[0] + "," + Terminated(fields[1..])
  }

  lemma OccursIs(s: string, i: nat)
    ensures Occurs(s, ",", i) <==> i < |s| && s[i] == ','
  {
    if i < |s| { assert s[i..i + 1] == [s[i]]; }
  }

  lemma PieceAt(s: string, pos: nat, f: string, rest: string)
    requires pos <= |s| && s[pos..] == f + "," + rest
    ensures |s| == pos + |f| + 1 + |rest| && s[pos..pos + |f|] == f && s[pos + |f|] == ',' && s[pos + |f| + 1..] == rest
  {
    var t := f + "," + rest;
    assert |s| - pos == |t|;
    assert s[pos + |f|] == s[pos..][|f|] == t[|f|];
    assert s[pos..pos + |f|] == s[pos..][..|f|] == t[..|f|];
    assert s[pos + |f| + 1..] == s[pos..][|f| + 1..] == t[|f| + 1..];
  }

  /** Where the comma after a clean field is found. */
  lemma FieldEnds(s: string, at: nat, f: string)
    requires Clean(f) && at + |f| < |s| && s[at..at + |f|] == f && s[at + |f|] == ','
    ensures SkipSpaces(s, at) == at && Find(s, ",", at) == at + |f|
  {
    hide Occurs, Find, SkipSpaces;
    OccursIs(s, at + |f|);
    forall i | at <= i < at + |f| ensures !Occurs(s, ",", i) {
      OccursIs(s, i);
      assert s[i] == f[i - at];
    }
    FindIs(s, at, at + |f|);
    if f != [] { assert s[at] == f[0]; }
    SkipsNothing(s, at);
  }

  lemma FindIs(s: string, from: nat, at: nat)
    requires from <= at <= |s| && Occurs(s, ",", at) && forall i :: from <= i < at ==> !Occurs(s, ",", i)
    ensures Find(s, ",", from) == at
  {
    hide Occurs, Find;
  }

  lemma FindNone(s: string, from: nat)
    requires from <= |s| && forall i :: from <= i < |s| ==> s[i] != ','
    ensures Find(s, ",", from) == -1
  {
    hide Find;
    forall i: nat | from <= i ensures !Occurs(s, ",", i) { OccursIs(s, i); }
  }

  /** Splitting gives back clean fields; an empty last one is dropped. */
  lemma {:induction false} SplitFields(s: string, pos: nat, fields: seq<string>, last: string)
    requires (forall i :: 0 <= i < |fields| ==> Clean(fields[i])) && Clean(last)
    requires pos <= |s| && s[pos..] == Terminated(fields) + last
    ensures Split(s, ",", pos) == fields + if last == [] then [] else [last]
    decreases |fields|
  {
    hide Split, Find, SkipSpaces, Occurs, Clean;
    if fields == [] {
      assert s[pos..] == last;
      SplitLast(s, pos, last);
    } else {
      var f, rest := fields[0], Terminated(fields[1..]) + last;
      hide Terminated;
      TerminatedCons(fields, last);
      PieceAt(s, pos, f, rest);
      SplitStep(s, ",", pos);
      FieldEnds(s, pos, f);
      SplitFields(s, pos + |f| + 1, fields[1..], last);
      HeadAndRest(fields, if last == [] then [] else [last]);
    }
  }

  lemma TerminatedCons(fields: seq<string>, last: string)
    requires fields != []
    ensures Terminated(fields) + last == fields[0] + "," + (Terminated(fields[1..]) + last)
  {
  }

  lemma HeadAndRest(fields: seq<string>, more: seq<string>)
    requires fields != []
    ensures [fields[0]] + (fields[1..] + more) == fields + more
  {
  }

  lemma SplitLast(s: string, pos: nat, last: string)
    requires Clean(last) && pos <= |s| && s[pos..] == last
    ensures Split(s, ",", pos) == if last == [] then [] else [last]
  {
    hide Split, Find, SkipSpaces, Occurs;
    if last == [] {
      SplitNothing(s, ",", pos);
    } else {
      assert forall i :: pos <= i < |s| ==> s[i] == last[i - pos];
      SplitStep(s, ",", pos);
      SkipsNothing(s, pos);
      FindNone(s, pos);
    }
  }

  lemma SkipsNothing(s: string, pos: nat)
    requires pos < |s| && s[pos] != ' '
    ensures SkipSpaces(s, pos) == pos
  {
  }

  /** Whatever is split: every piece is clean. */
  lemma {:induction false} PiecesClean(s: string, pos: nat)
    ensures forall i :: 0 <= i < |Split(s, ",", pos)| ==> Clean(Split(s, ",", pos)[i])
    decreases if pos < |s| then |s| - pos else 0
  {
    hide Find, SkipSpaces;
    if pos < |s| {
      var start := SkipSpaces(s, pos);
      if start < |s| {
        var at := Find(s, ",", start);
        NoCommaBefore(s, start);
        if at >= 0 { PiecesClean(s, at + 1); }
      }
    }
  }

  lemma NoCommaBefore(s: string, start: nat)
    requires start < |s| && s[start] != ' '
    ensures var at := Find(s, ",", start);
            Clean(if at < 0 then s[start..] else s[start..at])
  {
    hide Find, Occurs;
    var at := Find(s, ",", start);
    var f := if at < 0 then s[start..] else s[start..at];
    forall i | 0 <= i < |f| ensures f[i] != ',' { OccursIs(s, start + i); }
  }

  /** Fields joined by commas are recovered by splitting exactly when they are clean and the last is not empty. */
  lemma SplitExactly(fields: seq<string>, last: string)
    ensures Split(Terminated(fields) + last, ",", 0) == fields + [last] <==>
            (forall i :: 0 <= i < |fields| ==> Clean(fields[i])) && Clean(last) && last != []
  {
    hide Split, Clean;
    var s := Terminated(fields) + last;
    PiecesClean(s, 0);
    assert s[0..] == s;
    if (forall i :: 0 <= i < |fields| ==> Clean(fields[i])) && Clean(last) {
      SplitFields(s, 0, fields, last);
      assert last == [] ==> |Split(s, ",", 0)| == |fields|;
    } else {
      PartsClean(Split(s, ",", 0), fields, last);
    }
  }

  lemma PartsClean(pieces: seq<string>, fields: seq<string>, last: string)
    requires forall i :: 0 <= i < |pieces| ==> Clean(pieces[i])
    ensures pieces == fields + [last] ==> (forall i :: 0 <= i < |fields| ==> Clean(fields[i])) && Clean(last)
  {
    hide Clean;
    if pieces == fields + [last] {
      assert pieces[|fields|] == last;
      assert forall i :: 0 <= i < |fields| ==> pieces[i] == fields[i];
    }
  }

  // --- numbers in fields -----------------------------------------------------------------------------------------

  const UINT64: nat := 0x1_0000_0000_0000_0000

  function DigitPrefix(s: string): (n: nat)
    ensures n <= |s| && Digits(s[..n]) && (n < |s| ==> !IsDigit(s[n]))
  {
    if s == [] || !IsDigit(s[0]) then 0
    else
      var n := DigitPrefix(s[1..]) + 1;
      assert s[..n] == [s[0]] + s[1..][..n - 1];
      n
  }

  predicate IsSpace(c: char) { c == ' ' || 9 as char <= c <= 13 as char }

  function WithoutSpaces(s: string): (t: string)
    ensures t != [] ==> !IsSpace(t[0])
  {
    if s != [] && IsSpace(s[0]) then WithoutSpaces(s[1..]) else s
  }

  /** The number at the start of a text, up to the first character that is no digit; white space in front of it
      is passed over. */
  function ReadDecimal(s: string): int { Signed(WithoutSpaces(s)) }

  function Signed(s: string): int {
    if s != [] && s[0] == '-' then var v: int := Value(s[1..][..DigitPrefix(s[1..])]); -v
    else var t := if s != [] && s[0] == '+' then s[1..] else s; Value(t[..DigitPrefix(t)])
  }

  /** Reading an unsigned number of 64 bits stops at the largest; a minus sign wraps around. */
  function ReadUnsigned(s: string): nat {
    var v := ReadDecimal(s);
    if v >= UINT64 || -v >= UINT64 then UINT64 - 1 else v % UINT64
  }

  lemma WholePrefix(s: string)
    requires Digits(s)
    ensures DigitPrefix(s) == |s|
  {
  }

  lemma ReadsBack(n: int)
    ensures ReadDecimal(ToString(n)) == n
    ensures 0 <= n < UINT64 ==> ReadUnsigned(ToString(n)) == n
  {
    hide Value, Decimal, DigitPrefix;
    var d := Decimal(if n < 0 then -n else n);
    ValueOfDecimal(if n < 0 then -n else n);
    WholePrefix(d);
    assert d[..|d|] == d;
    if n < 0 { assert ToString(n)[1..] == d; }
  }

  lemma PrintedClean(n: int)
    ensures Clean(ToString(n)) && ToString(n) != []
  {
    hide ToString;
  }

  // --- the message -----------------------------------------------------------------------------------------------

  datatype Hello = Hello(ip: string, port: int, runid: string, epoch: nat,
                         masterName: string, masterIp: string, masterPort: int, masterEpoch: nat) {

    function Fields(): (f: seq<string>)
      ensures |f| == FIELDS - 1
    {
      [ip, ToString(port), runid, ToString(epoch), masterName, masterIp, ToString(masterPort)]
    }

    /** The whole text, and what of it the payload holds. */
    function Text(): string { Terminated(Fields()) + ToString(masterEpoch) }

    function Payload(): string { if |Text()| < PAYLOAD_BYTES then Text() else Text()[..PAYLOAD_BYTES - 1] }

    /** The fields of text can be told apart. */
    predicate CleanText() { Clean(ip) && Clean(runid) && Clean(masterName) && Clean(masterIp) }
  }

  /** A message that does not have eight fields is ignored. */
  function Parse(hello: string): Option<Hello> {
    var f := Split(hello, ",", 0);
    if |f| != FIELDS then None
    else Some(Hello(f[0], ReadDecimal(f[1]), f[2], ReadUnsigned(f[3]),
                    f[4], f[5], ReadDecimal(f[6]), ReadUnsigned(f[7])))
  }

  /** The same with the loop that splits. */
  method ProcessHello(hello: string) returns (h: Option<Hello>)
    ensures h == Parse(hello)
  {
    hide Split, ReadDecimal, ReadUnsigned;
    var f := SplitString(hello, ",");
    if FIELDS != |f| {
      return None;
    }
    return Some(Hello(f[0], ReadDecimal(f[1]), f[2], ReadUnsigned(f[3]),
                    f[4], f[5], ReadDecimal(f[6]), ReadUnsigned(f[7])));
  }

  /** A message that fits the payload is read back as it was written exactly when none of its four fields of
      text has a comma in it or a space in front. */
  lemma HelloExactly(h: Hello)
    requires |h.Text()| < PAYLOAD_BYTES && h.epoch < UINT64 && h.masterEpoch < UINT64
    ensures Parse(h.Payload()) == Some(h) <==> h.CleanText()
  {
    hide Split, ReadDecimal, ReadUnsigned, ToString, Clean, Terminated;
    if h.CleanText() {
      ReadsAll(h);
    } else {
      PiecesClean(h.Payload(), 0);
    }
  }

  lemma ReadsAll(h: Hello)
    requires h.CleanText() && |h.Text()| < PAYLOAD_BYTES && h.epoch < UINT64 && h.masterEpoch < UINT64
    ensures Parse(h.Payload()) == Some(h)
  {
    hide Split, ReadDecimal, ReadUnsigned, ToString, Clean, Terminated;
    PrintedClean(h.port);
    PrintedClean(h.epoch);
    PrintedClean(h.masterPort);
    PrintedClean(h.masterEpoch);
    assert h.Payload()[0..] == Terminated(h.Fields()) + ToString(h.masterEpoch);
    SplitFields(h.Payload(), 0, h.Fields(), ToString(h.masterEpoch));
    ReadsBack(h.port);
    ReadsBack(h.epoch);
    ReadsBack(h.masterPort);
    ReadsBack(h.masterEpoch);
  }
}
