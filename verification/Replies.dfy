/** A client's output: a fixed buffer first, then a list of strings, and one counter for what has been sent
    of whichever comes first. */
module Replies {
  import opened Texts

  const CHUNK_BYTES: nat := 16 * 1024
  const MESSAGE_BYTES: nat := 1024
  const WRITES_PER_EVENT: nat := 1024 * 64

  datatype Out = Out(fixed: string, sendLen: nat, replies: seq<string>, replyBytes: int) {

    ghost predicate Valid() {
      && |fixed| <= CHUNK_BYTES
      && (forall i :: 0 <= i < |replies| ==> 0 < |replies[i]| <= CHUNK_BYTES)
      && replyBytes == |Concat(replies)|
      && (if fixed != [] then sendLen < |fixed| else if replies != [] then sendLen < |replies[0]| else sendLen == 0)
    }

    predicate NothingPending() { fixed == [] && replies == [] }

    /** What is still to be sent, in order. */
    function Pending(): string
      requires Valid()
    {
      if fixed != [] then fixed[sendLen..] + Concat(replies)
      else if replies != [] then replies[0][sendLen..] + Concat(replies[1..])
      else []
    }

    /** Room in the fixed buffer counts only while the list is empty. */
    predicate Fits(s: string) { replies == [] && |fixed| + |s| <= CHUNK_BYTES }

    function ToList(s: string): Out {
      if replies != [] && |replies[|replies| - 1]| + |s| <= CHUNK_BYTES then
        this.(replies := replies[..|replies| - 1] + [replies[|replies| - 1] + s], replyBytes := replyBytes + |s|)
      else this.(replies := replies + [s], replyBytes := replyBytes + |s|)
    }

    /** A client that is to be closed after its reply takes no more. */
    function Add(s: string, closing: bool): Out {
      if closing then this else if Fits(s) then this.(fixed := fixed + s) else ToList(s)
    }

    /** What the next write to the socket is given. */
    function Offer(): string
      requires Valid()
    {
      if fixed != [] then fixed[sendLen..] else if replies != [] then replies[0][sendLen..] else []
    }

    /** The output after `n` characters of the offer have gone out. */
    function Advance(n: nat): Out
      requires Valid() && !NothingPending() && n <= |Offer()|
    {
      if fixed != [] then
        if sendLen + n == |fixed| then this.(fixed := [], sendLen := 0) else this.(sendLen := sendLen + n)
      else if sendLen + n == |replies[0]| then
        this.(sendLen := 0, replies := replies[1..], replyBytes := replyBytes - |replies[0]|)
      else this.(sendLen := sendLen + n)
    }
  }

  const EMPTY: Out := Out([], 0, [], 0)

  /** Accepting a reply puts it behind all that is pending. No string in the list is ever empty, so that a
      write of nothing is never attempted. */
  lemma AddAppends(o: Out, s: string, closing: bool)
    requires o.Valid() && |s| < MESSAGE_BYTES
    ensures o.Add(s, closing).Valid()
    ensures o.Add(s, closing).Pending() == o.Pending() + if closing then [] else s
  {
    hide Concat;
    if closing {
      assert o.Pending() + [] == o.Pending();
    } else if o.Fits(s) {
      Fixed(o, s);
    } else if o.replies == [] {
      ListedFirst(o, s);
    } else {
      Listed(o, s);
    }
  }

  lemma Fixed(o: Out, s: string)
    requires o.Valid() && o.Fits(s)
    ensures var o' := o.(fixed := o.fixed + s); o'.Valid() && o'.Pending() == o.Pending() + s
  {
    hide Concat;
    NothingConcat();
    if o.fixed != [] { assert (o.fixed + s)[o.sendLen..] == o.fixed[o.sendLen..] + s; }
  }

  lemma ListedFirst(o: Out, s: string)
    requires o.Valid() && 0 < |s| <= CHUNK_BYTES && o.replies == [] && o.fixed != []
    ensures o.ToList(s).Valid() && o.ToList(s).Pending() == o.Pending() + s
  {
    ConcatSnoc([], s);
    assert [] + [s] == [s];
  }

  lemma ConcatFrom(list: seq<string>)
    requires list != []
    ensures Concat(list) == list[0] + Concat(list[1..])
  {
  }

  /** Text added to the last string of a list. */
  lemma ConcatLonger(list: seq<string>, s: string)
    requires list != []
    ensures var list' := list[..|list| - 1] + [list[|list| - 1] + s];
            Concat(list') == Concat(list) + s
  {
    hide Concat;
    var front, back := list[..|list| - 1], list[|list| - 1];
    assert list == front + [back];
    ConcatSnoc(front, back);
    ConcatSnoc(front, back + s);
    assert Concat(front) + (back + s) == (Concat(front) + back) + s;
  }

  lemma Lengthened(o: Out, s: string)
    requires o.Valid() && o.replies != [] && |o.replies[|o.replies| - 1]| + |s| <= CHUNK_BYTES
    ensures o.ToList(s).Valid() && o.ToList(s).Pending() == o.Pending() + s
  {
    hide Concat;
    var list, n := o.replies, |o.replies|;
    var list' := list[..n - 1] + [list[n - 1] + s];
    assert o.ToList(s).replies == list';
    ConcatLonger(list, s);
    if n > 1 {
      ConcatLonger(list[1..], s);
      assert list'[1..] == list[1..][..n - 2] + [list[1..][n - 2] + s];
      if o.fixed == [] { assert o.ToList(s).Pending() == list[0][o.sendLen..] + (Concat(list[1..]) + s); }
    } else {
      assert list' == [list[0] + s] && list'[1..] == [] && list[1..] == [];
      if o.fixed == [] { assert (list[0] + s)[o.sendLen..] == list[0][o.sendLen..] + s; }
      NothingConcat();
    }
  }

  lemma NothingConcat()
    ensures Concat([]) == []
  {
  }

  lemma Pushed(o: Out, s: string)
    requires o.Valid() && o.replies != [] && 0 < |s| <= CHUNK_BYTES
    ensures var o' := o.(replies := o.replies + [s], replyBytes := o.replyBytes + |s|);
            o'.Valid() && o'.Pending() == o.Pending() + s
  {
    hide Concat;
    var list := o.replies;
    ConcatSnoc(list, s);
    ConcatSnoc(list[1..], s);
    assert (list + [s])[1..] == list[1..] + [s];
    if o.fixed == [] {
      assert list[0][o.sendLen..] + (Concat(list[1..]) + s) == (list[0][o.sendLen..] + Concat(list[1..])) + s;
    } else {
      assert o.fixed[o.sendLen..] + (Concat(list) + s) == (o.fixed[o.sendLen..] + Concat(list)) + s;
    }
  }

  lemma Listed(o: Out, s: string)
    requires o.Valid() && |s| < MESSAGE_BYTES && o.replies != []
    ensures o.ToList(s).Valid() && o.ToList(s).Pending() == o.Pending() + s
  {
    hide Concat, Out.Pending;
    if |o.replies[|o.replies| - 1]| + |s| <= CHUNK_BYTES {
      Lengthened(o, s);
    } else {
      Pushed(o, s);
    }
  }

  /** What goes out is the front of what is pending, and the rest stays. */
  lemma AdvanceSends(o: Out, n: nat)
    requires o.Valid() && !o.NothingPending() && n <= |o.Offer()|
    ensures 0 < |o.Offer()| && o.Advance(n).Valid()
    ensures o.Offer()[..n] + o.Advance(n).Pending() == o.Pending()
  {
    hide Concat, Out.Pending;
    if o.fixed != [] { FixedSent(o, n); } else { FrontSent(o, n); }
  }

  lemma FixedSent(o: Out, n: nat)
    requires o.Valid() && o.fixed != [] && n <= |o.fixed| - o.sendLen
    ensures o.Advance(n).Valid() && o.fixed[o.sendLen..][..n] + o.Advance(n).Pending() == o.Pending()
  {
    hide Concat, Out.Pending;
    PendingFixed(o);
    CutInTwo(o.fixed, o.sendLen, n, Concat(o.replies));
    if o.sendLen + n == |o.fixed| {
      AfterFixed(o);
    } else {
      PendingFixed(o.(sendLen := o.sendLen + n));
    }
  }

  lemma PendingFixed(o: Out)
    requires o.Valid() && o.fixed != []
    ensures o.Pending() == o.fixed[o.sendLen..] + Concat(o.replies)
  {
  }

  lemma FrontSent(o: Out, n: nat)
    requires o.Valid() && o.fixed == [] && o.replies != [] && n <= |o.replies[0]| - o.sendLen
    ensures o.Advance(n).Valid() && o.replies[0][o.sendLen..][..n] + o.Advance(n).Pending() == o.Pending()
  {
    hide Concat, Out.Pending, Out.Valid;
    FrontPending(o);
    CutInTwo(o.replies[0], o.sendLen, n, Concat(o.replies[1..]));
    if o.sendLen + n == |o.replies[0]| { AfterFront(o); } else { MoreOfFront(o, n); }
  }

  lemma FrontPending(o: Out)
    requires o.Valid() && o.fixed == [] && o.replies != []
    ensures o.sendLen < |o.replies[0]| && o.Pending() == o.replies[0][o.sendLen..] + Concat(o.replies[1..])
  {
    hide Concat;
  }

  lemma MoreOfFront(o: Out, n: nat)
    requires o.Valid() && o.fixed == [] && o.replies != [] && o.sendLen + n < |o.replies[0]|
    ensures var o' := o.(sendLen := o.sendLen + n);
            o'.Valid() && o'.Pending() == o.replies[0][o.sendLen + n..] + Concat(o.replies[1..])
  {
    hide Concat;
  }

  lemma CutInTwo(s: string, from: nat, n: nat, rest: string)
    requires from + n <= |s|
    ensures s[from..] + rest == s[from..][..n] + (s[from + n..] + rest)
    ensures from + n == |s| ==> s[from + n..] + rest == rest
  {
  }

  lemma AfterFixed(o: Out)
    requires o.Valid() && o.fixed != []
    ensures var o' := o.(fixed := [], sendLen := 0); o'.Valid() && o'.Pending() == Concat(o.replies)
  {
  }

  lemma AfterFront(o: Out)
    requires o.Valid() && o.fixed == [] && o.replies != []
    ensures var o' := o.(sendLen := 0, replies := o.replies[1..], replyBytes := o.replyBytes - |o.replies[0]|);
            o'.Valid() && o'.Pending() == Concat(o.replies[1..])
  {
    if |o.replies| > 1 { ConcatFrom(o.replies[1..]); }
  }

  // --- the write loop --------------------------------------------------------------------------------------------

  /** What the socket does with one write: takes a part, or fails. */
  function Accepted(offer: string, answer: int): (n: int)
    ensures n <= |offer|
  {
    if answer > |offer| then |offer| else answer
  }

  /** The loop for given answers of the socket; answers that are missing are failures. The result has the
      output that is left, what was sent, and the last answer. */
  function WriteAll(o: Out, answers: seq<int>, total: nat): (r: (Out, string, int))
    requires o.Valid() && !o.NothingPending()
    decreases |o.Pending()|
  {
    AdvanceSends(o, 0);
    var n := Accepted(o.Offer(), if answers == [] then -1 else answers[0]);
    if n <= 0 then (o, [], n)
    else
      AdvanceSends(o, n);
      var o' := o.Advance(n);
      var sent := o.Offer()[..n];
      if total + n > WRITES_PER_EVENT || o'.NothingPending() then (o', sent, n)
      else
        var (last, more, res) := WriteAll(o', answers[1..], total + n);
        (last, sent + more, res)
  }

  /** Whatever the socket takes in whatever pieces: what is sent, followed by what is left, is what was
      pending. */
  lemma {:induction false} WriteKeepsOrder(o: Out, answers: seq<int>, total: nat)
    requires o.Valid() && !o.NothingPending()
    ensures var (o', sent, last) := WriteAll(o, answers, total);
            && o'.Valid() && sent + o'.Pending() == o.Pending()
            && (last <= 0 ==> !o'.NothingPending())
    decreases |o.Pending()|
  {
    hide Out.Pending, Out.Offer, Out.Advance, Out.Valid;
    AdvanceSends(o, 0);
    var n := Accepted(o.Offer(), if answers == [] then -1 else answers[0]);
    if n > 0 {
      AdvanceSends(o, n);
      var o' := o.Advance(n);
      if !(total + n > WRITES_PER_EVENT || o'.NothingPending()) { WriteKeepsOrder(o', answers[1..], total + n); }
    }
  }

  // --- whole runs ------------------------------------------------------------------------------------------------

  datatype OutEvent = Replied(text: string, closing: bool) | Written(answers: seq<int>)

  /** A message is cut to what its buffer holds. */
  function Cut(text: string): (s: string)
    ensures |s| < MESSAGE_BYTES
  {
    if |text| < MESSAGE_BYTES then text else text[..MESSAGE_BYTES - 1]
  }

  function Run(o: Out, events: seq<OutEvent>): (r: (Out, string))
    requires o.Valid()
    ensures r.0.Valid()
    decreases |events|
  {
    if events == [] then (o, [])
    else
      match events[0]
      case Replied(text, closing) =>
        AddAppends(o, Cut(text), closing);
        Run(o.Add(Cut(text), closing), events[1..])
      case Written(answers) =>
        if o.NothingPending() then Run(o, events[1..])
        else
          WriteKeepsOrder(o, answers, 0);
          var (o', sent, last) := WriteAll(o, answers, 0);
          var (end, more) := Run(o', events[1..]);
          (end, sent + more)
  }

  /** The replies accepted by a run, in order. */
  function AcceptedBy(events: seq<OutEvent>): string {
    if events == [] then []
    else (match events[0]
          case Replied(text, closing) => if closing then [] else Cut(text)
          case Written(_) => []) + AcceptedBy(events[1..])
  }

  /** What is sent first, and then what is sent of the rest. */
  lemma Joined(sent: string, left: string, more: string, end: string, accepted: string)
    requires more + end == left + accepted
    ensures (sent + more) + end == (sent + left) + accepted
  {
    assert (sent + more) + end == sent + (more + end);
    assert (sent + left) + accepted == sent + (left + accepted);
  }

  lemma Regroup(a: string, b: string, c: string)
    ensures (a + b) + c == a + (b + c)
  {
  }

  /** Delivery is in order and exactly once: over any run, what was sent followed by what is pending is what
      was pending at first followed by all replies accepted. */
  lemma {:induction false} DeliveredInOrder(o: Out, events: seq<OutEvent>)
    requires o.Valid()
    ensures var (o', sent) := Run(o, events);
            sent + o'.Pending() == o.Pending() + AcceptedBy(events)
    decreases |events|
  {
    hide Out.Pending, Out.Add, Out.Valid, Out.NothingPending, WriteAll, Cut;
    if events != [] {
      hide Run, AcceptedBy;
      match events[0]
      case Replied(text, closing) =>
        AddAppends(o, Cut(text), closing);
        DeliveredInOrder(o.Add(Cut(text), closing), events[1..]);
        ReplyRun(o, events);
        Regroup(o.Pending(), if closing then [] else Cut(text), AcceptedBy(events[1..]));
      case Written(answers) =>
        WriteRun(o, events);
        if o.NothingPending() {
          DeliveredInOrder(o, events[1..]);
        } else {
          WriteKeepsOrder(o, answers, 0);
          var (o', sent, last) := WriteAll(o, answers, 0);
          DeliveredInOrder(o', events[1..]);
          var (end, more) := Run(o', events[1..]);
          Joined(sent, o'.Pending(), more, end.Pending(), AcceptedBy(events[1..]));
        }
    }
  }

  lemma ReplyRun(o: Out, events: seq<OutEvent>)
    requires o.Valid() && events != [] && events[0].Replied?
    ensures var c := events[0].closing; var text := Cut(events[0].text);
            && o.Add(text, c).Valid() && Run(o, events) == Run(o.Add(text, c), events[1..])
            && AcceptedBy(events) == (if c then [] else text) + AcceptedBy(events[1..])
  {
    hide Out.Pending, Out.Add, Out.Valid, WriteAll, Cut;
    AddAppends(o, Cut(events[0].text), events[0].closing);
  }

  lemma WriteRun(o: Out, events: seq<OutEvent>)
    requires o.Valid() && events != [] && events[0].Written?
    ensures AcceptedBy(events) == AcceptedBy(events[1..])
    ensures o.NothingPending() ==> Run(o, events) == Run(o, events[1..])
    ensures !o.NothingPending() ==>
              var (o', sent, last) := WriteAll(o, events[0].answers, 0);
              o'.Valid() && Run(o, events) == (Run(o', events[1..]).0, sent + Run(o', events[1..]).1)
  {
    hide Out.Pending, Out.Add, Out.Valid, Out.NothingPending, WriteAll, Cut;
    if !o.NothingPending() { WriteKeepsOrder(o, events[0].answers, 0); }
    assert [] + AcceptedBy(events[1..]) == AcceptedBy(events[1..]);
  }
}
