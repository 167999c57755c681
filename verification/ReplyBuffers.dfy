/** The output fields of a client: a fixed array filled from the front, and a list of strings behind it. */
module ReplyBuffers {
  import opened Replies
  import opened Texts

  class Output {
    const buf: array<char>
    var bufpos: nat
    var replies: seq<string>
    var replyBytes: int
    var sendLen: nat
    var wire: string  // what the socket has taken

    function State(): Out
      requires bufpos <= buf.Length
      reads this, buf
    {
      Out(buf[..bufpos], sendLen, replies, replyBytes)
    }

    ghost predicate Valid()
      reads this, buf
    {
      bufpos <= buf.Length == CHUNK_BYTES && State().Valid()
    }

    constructor ()
      ensures Valid() && State() == EMPTY && wire == "" && fresh(buf)
    {
      buf := new char[CHUNK_BYTES];
      bufpos, replies, replyBytes, sendLen, wire := 0, [], 0, 0, "";
    }

    predicate HasNoPending()
      reads this
    {
      0 == bufpos && 0 == |replies|
    }

    method AddReplyToBuffer(s: string, closing: bool) returns (res: int)
      requires Valid() && |s| < MESSAGE_BYTES
      modifies `bufpos, buf
      ensures res == if closing || old(State()).Fits(s) then 1 else -1
      ensures Valid() && State() == if res == 1 then old(State()).Add(s, closing) else old(State())
    {
      if closing {
        return 1;
      }
      if |replies| > 0 {
        return -1;
      }
      if buf.Length - bufpos < |s| {
        return -1;
      }
      forall i | 0 <= i < |s| {
        buf[bufpos + i] := s[i];
      }
      assert buf[..bufpos + |s|] == old(buf[..bufpos]) + s;
      AddAppends(old(State()), s, closing);
      bufpos := bufpos + |s|;
      return 1;
    }

    method AddReplyToReplyList(s: string, closing: bool) returns (res: int)
      requires Valid() && |s| < MESSAGE_BYTES && !State().Fits(s)
      modifies `replies, `replyBytes
      ensures res == 1 && Valid() && State() == old(State()).Add(s, closing)
    {
      hide Out.Pending, Concat;
      AddAppends(old(State()), s, closing);
      if closing {
        return 1;
      }
      if |replies| > 0 && |replies[|replies| - 1]| + |s| <= CHUNK_BYTES {
        replies := replies[..|replies| - 1] + [replies[|replies| - 1] + s];
      } else {
        replies := replies + [s];
      }
      replyBytes := replyBytes + |s|;
      return 1;
    }

    /** A message of any length: cut, then buffered behind what is pending. */
    method AddReply(text: string, closing: bool)
      requires Valid()
      modifies `bufpos, `replies, `replyBytes, buf
      ensures Valid() && State() == old(State()).Add(Cut(text), closing)
      ensures State().Pending() == old(State().Pending()) + if closing then [] else Cut(text)
    {
      hide Out.Pending, Out.Add, Out.Valid;
      var s := Cut(text);
      AddAppends(State(), s, closing);
      var res := AddReplyToBuffer(s, closing);
      if res == -1 {
        var listed := AddReplyToReplyList(s, closing);
      }
    }

    method ClearBuf()
      modifies `bufpos, `sendLen
      ensures bufpos == 0 && sendLen == 0
    {
      bufpos := 0;
      sendLen := 0;
    }

    method ReplyPopFront()
      requires |replies| > 0
      modifies `replies, `replyBytes
      ensures replies == old(replies)[1..]
              && replyBytes == if old(|replies|) == 1 then 0 else old(replyBytes) - |old(replies)[0]|
    {
      replyBytes := replyBytes - |replies[0]|;
      replies := replies[1..];
      if 0 == |replies| && 0 != replyBytes {
        replyBytes := 0;
      }
    }

    /** One write to the socket, which answers how much it takes. */
    method WriteOnce(answer: int) returns (onceCount: int)
      requires Valid() && !HasNoPending()
      modifies `bufpos, `replies, `replyBytes, `sendLen, `wire
      ensures onceCount == Accepted(old(State()).Offer(), answer) && Valid()
      ensures if onceCount <= 0 then State() == old(State()) && wire == old(wire)
              else State() == old(State()).Advance(onceCount) && wire == old(wire) + old(State()).Offer()[..onceCount]
    {
      hide Out.Pending;
      ghost var o := State();
      AdvanceSends(o, 0);
      if 0 != bufpos {
        var offer := buf[sendLen..bufpos];
        assert offer == o.fixed[sendLen..];
        onceCount := Accepted(offer, answer);
        if onceCount <= 0 {
          return;
        }
        AdvanceSends(o, onceCount);
        wire := wire + offer[..onceCount];
        sendLen := sendLen + onceCount;
        if sendLen == bufpos {
          ClearBuf();
        }
      } else {
        var reply := replies[0];
        onceCount := Accepted(reply[sendLen..], answer);
        if onceCount <= 0 {
          return;
        }
        AdvanceSends(o, onceCount);
        wire := wire + reply[sendLen..][..onceCount];
        sendLen := sendLen + onceCount;
        if sendLen == |reply| {
          sendLen := 0;
          if |replies| == 1 { LastBytes(o); }
          ReplyPopFront();
        }
      }
    }

    /** Write until nothing is pending, the socket takes no more, or enough has been written for one event. */
    method WriteLoop(answers: seq<int>) returns (onceCount: int)
      requires Valid() && !HasNoPending()
      modifies `bufpos, `replies, `replyBytes, `sendLen, `wire
      ensures Valid()
      ensures var (o, sent, last) := WriteAll(old(State()), answers, 0);
              State() == o && wire == old(wire) + sent && onceCount == last
    {
      hide Out.Pending, Out.Offer, Out.Advance, Out.Valid, WriteAll;
      onceCount := 0;
      var totalCount := 0;
      var i := 0;
      ghost var sent := "";
      ghost var goal := WriteAll(State(), answers, 0);
      assert answers[0..] == answers && sent + goal.1 == goal.1;
      while true
        invariant Valid() && !HasNoPending() && i <= |answers| && totalCount >= 0 && wire == old(wire) + sent
        invariant goal == Prefixed(sent, WriteAll(State(), answers[i..], totalCount))
        decreases |State().Pending()|
      {
        ghost var o := State();
        WriteStep(o, answers[i..], totalCount, sent);
        var answer := if i < |answers| then answers[i] else -1;
        onceCount := WriteOnce(answer);
        if onceCount <= 0 {
          break;
        }
        totalCount := totalCount + onceCount;
        sent := sent + o.Offer()[..onceCount];
        if HasNoPending() || totalCount > WRITES_PER_EVENT {
          break;
        }
        i := i + 1;
      }
    }
  }

  /** A result of the loop, with what was sent before it. */
  function Prefixed(sent: string, r: (Out, string, int)): (Out, string, int) { (r.0, sent + r.1, r.2) }

  /** One round of the loop, after `sent`. */
  lemma WriteStep(o: Out, answers: seq<int>, total: nat, sent: string)
    requires o.Valid() && !o.NothingPending()
    ensures var n := Accepted(o.Offer(), if answers == [] then -1 else answers[0]);
            && (n <= 0 ==> Prefixed(sent, WriteAll(o, answers, total)) == (o, sent, n))
            && (n > 0 ==>
                  var o' := o.Advance(n);
                  var sent' := sent + o.Offer()[..n];
                  && answers != [] && o'.Valid() && |o'.Pending()| < |o.Pending()|
                  && Prefixed(sent, WriteAll(o, answers, total)) ==
                     if total + n > WRITES_PER_EVENT || o'.NothingPending() then (o', sent', n)
                     else Prefixed(sent', WriteAll(o', answers[1..], total + n)))
  {
    hide Out.Pending, Out.Offer, Out.Advance, Out.Valid;
    var n := Accepted(o.Offer(), if answers == [] then -1 else answers[0]);
    if n > 0 {
      AdvanceSends(o, n);
      var piece := o.Offer()[..n];
      if !(total + n > WRITES_PER_EVENT || o.Advance(n).NothingPending()) {
        var more := WriteAll(o.Advance(n), answers[1..], total + n).1;
        assert sent + (piece + more) == (sent + piece) + more;
      }
    } else {
      assert sent + [] == sent;
    }
  }

  lemma LastBytes(o: Out)
    requires o.Valid() && |o.replies| == 1
    ensures o.replyBytes == |o.replies[0]|
  {
    NothingConcat();
    ConcatFrom(o.replies);
  }
}
