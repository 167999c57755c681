/** What each step of the server does to the output, the marks and the watches of every client. */
module DeliverySteps {
  import opened Replies
  import opened Delivery
  import opened DeliveryRuns

  // --- one client's output -----------------------------------------------------------------------------------------

  /** Of a message the first 1023 characters are kept. */
  lemma CutIs(text: string)
    ensures |Cut(text)| == (if |text| < 1023 then |text| else 1023) && Cut(text) == text[..|Cut(text)|]
  {
  }

  /** A reply goes into the fixed buffer while the list is empty and there is room, to the end of the last string
      of the list if there is room in that, and becomes a string of its own otherwise. */
  lemma AddShape(o: Out, s: string)
    ensures var t := o.Add(s, false);
            && t.sendLen == o.sendLen
            && (o.replies == [] && |o.fixed| + |s| <= 16384 ==> t == o.(fixed := o.fixed + s))
            && (!(o.replies == [] && |o.fixed| + |s| <= 16384) ==>
                && t.fixed == o.fixed && t.replyBytes == o.replyBytes + |s|
                && t.replies == if o.replies != [] && |o.replies[|o.replies| - 1]| + |s| <= 16384
                                then o.replies[..|o.replies| - 1] + [o.replies[|o.replies| - 1] + s]
                                else o.replies + [s])
    ensures o.Add(s, true) == o
  {
  }

  /** The write loop goes on until nothing is pending, more than 65536 characters have gone out, or the socket
      takes nothing. `k` is the number of writes of which it took something. */
  lemma {:induction false} WriteStops(o: Out, answers: seq<int>, total: nat) returns (k: nat)
    requires o.Valid() && !o.NothingPending() && total <= 65536
    ensures k <= |answers| && forall i :: 0 <= i < k ==> answers[i] > 0
    ensures var (o', sent, last) := WriteAll(o, answers, total);
            && k <= |sent| && total + |sent| - (if last > 0 then last else 0) <= 65536
            && (last > 0 <==> o'.NothingPending() || total + |sent| > 65536)
            && (last <= 0 ==> last == if k < |answers| then answers[k] else -1)
    decreases |o.Pending()|
  {
    hide Out.Pending, Out.Offer, Out.Advance, Out.Valid;
    AdvanceSends(o, 0);
    var n := Accepted(o.Offer(), if answers == [] then -1 else answers[0]);
    k := 0;
    if n > 0 {
      AdvanceSends(o, n);
      var o' := o.Advance(n);
      k := 1;
      if !(total + n > 65536 || o'.NothingPending()) {
        var more := WriteStops(o', answers[1..], total + n);
        k := more + 1;
        assert forall i :: 0 <= i < more ==> answers[1..][i] == answers[i + 1];
      }
    }
  }

  /** What is left of an output when its client is written to. */
  function Left(o: Out, taken: seq<int>): Out
    requires o.Valid()
  {
    if o.NothingPending() then o else WriteAll(o, taken, 0).0
  }

  /** The rest of it, after something may have gone out. */
  ghost predicate RestOf(o: Out, o': Out) {
    o.Valid() && o'.Valid() && exists n: nat :: n <= |o.Pending()| && o'.Pending() == o.Pending()[n..]
  }

  lemma LeftIsRest(o: Out, taken: seq<int>)
    requires o.Valid()
    ensures RestOf(o, Left(o, taken))
  {
    hide Out.Pending, Out.Valid, WriteAll;
    if o.NothingPending() {
      assert o.Pending() == o.Pending()[0..];
    } else {
      WriteKeepsOrder(o, taken, 0);
      var (o', sent, last) := WriteAll(o, taken, 0);
      assert o.Pending()[|sent|..] == o'.Pending();
    }
  }

  // --- one step of the server ------------------------------------------------------------------------------------

  /** Descriptors and output of all clients but one are the same. */
  predicate OthersKept(s: Server, t: Server, id: nat) {
    && |t.clients| == |s.clients|
    && forall j :: 0 <= j < |s.clients| && j != id ==>
         t.clients[j].fd == s.clients[j].fd && t.clients[j].out == s.clients[j].out
  }

  predicate TakesReplies(c: Client) { c.fd >= 0 && (!c.flags.master || c.flags.forceReply) }

  /** A client that takes replies has this one behind all that it had pending; nobody else is given anything,
      and no one is marked, unwatched or watched for it. */
  lemma ReplyExactly(s: Server, id: nat, text: string)
    requires s.Valid() && s.Has(id)
    ensures s.clients[id].fd in s.byFd ==> s.Has(s.byFd[s.clients[id].fd])
    ensures var c, t := s.clients[id], s.AddReply(id, text);
            && OthersKept(s, t, id) && t.clients[id].fd == c.fd && c.out.Valid() && t.clients[id].out.Valid()
            && t.clients[id].out.Pending() ==
               c.out.Pending() + (if TakesReplies(c) && !c.flags.closeAfterReply then Cut(text) else [])
            && t.writable == s.writable && t.toClose == s.toClose && t.byFd == s.byFd
  {
    hide Out.Valid, Out.Pending, Out.Add, Cut;
    WfAt(s, id);
    var c := s.clients[id];
    if TakesReplies(c) { AddAppends(c.out, Cut(text), c.flags.closeAfterReply); }
    assert c.out.Pending() + [] == c.out.Pending();
  }

  /** It is put on the list, with its flag, exactly if it had nothing pending and was not flagged before; or
      whoever is in the table under its descriptor is. */
  lemma ReplyLists(s: Server, id: nat, text: string)
    requires s.Valid() && s.Has(id)
    ensures s.clients[id].fd in s.byFd ==> s.Has(s.byFd[s.clients[id].fd])
    ensures var c, t := s.clients[id], s.AddReply(id, text);
            var lists := && TakesReplies(c) && c.out.NothingPending() && !c.flags.pendingWrite && c.fd in s.byFd
                         && !s.clients[s.byFd[c.fd]].flags.pendingWrite;
            && t.pending == (if lists then s.pending + [s.byFd[c.fd]] else s.pending)
            && forall j :: 0 <= j < |s.clients| ==>
                 var f := s.clients[j].flags;
                 t.clients[j].flags == if lists && j == s.byFd[c.fd] then f.(pendingWrite := true) else f
  {
    hide Out.Valid, Out.Pending, Out.Add, Cut;
    WfAt(s, id);
  }

  /** Marking a client sets its one flag, clears the others and lists it, unless it was marked before. */
  ghost predicate Marks(s: Server, t: Server, id: nat) {
    && id < |s.clients| == |t.clients|
    && t.clients[id].flags.closeAsap
    && (if s.clients[id].flags.closeAsap then t.toClose == s.toClose && t.clients[id].flags == s.clients[id].flags
        else t.toClose == s.toClose + [id] && t.clients[id].flags == Flags(false, false, true, false, false))
    && forall j :: 0 <= j < |s.clients| && j != id ==> t.clients[j].flags == s.clients[j].flags
  }

  ghost predicate MarksNobody(s: Server, t: Server) {
    && |t.clients| == |s.clients| && t.toClose == s.toClose
    && forall j :: 0 <= j < |s.clients| ==> t.clients[j].flags == s.clients[j].flags
  }

  /** Writing to a client sends the front of what it has pending and nothing of anybody else's. It ends in
      marking exactly if it fails for good, or the last reply of a client to be closed after it is out; marked
      is whoever is in the table under the descriptor. A watch is taken back when nothing is left. */
  lemma WriteExactly(s: Server, id: nat, handler: bool, a: Answers)
    requires s.Wf() && s.Has(id)
    ensures s.clients[id].out.Valid() && (s.clients[id].fd in s.byFd ==> s.Has(s.byFd[s.clients[id].fd]))
    ensures var c := s.clients[id]; var (t, res) := s.Write(id, handler, a);
            && OthersKept(s, t, id) && t.clients[id].fd == c.fd
            && t.clients[id].out == Left(c.out, a.taken) && RestOf(c.out, t.clients[id].out)
            && (res == -1 <==> s.Ends(id, a))
            && (if s.Ends(id, a) && c.fd in s.byFd then Marks(s, t, s.byFd[c.fd]) else MarksNobody(s, t))
            && (t.writable == s.writable ||
                (handler && t.clients[id].out.NothingPending() && t.writable == s.writable - {c.fd}))
            && (handler && res == 1 && t.clients[id].out.NothingPending() ==> c.fd !in t.writable)
  {
    hide Out.Valid, Out.Pending, WriteAll;
    WfAt(s, id);
    LeftIsRest(s.clients[id].out, a.taken);
  }

  /** One client of the list is written to; its flag goes, and if something is left and it has not been marked it is
      watched, or marked if it cannot be. */
  lemma FlushOneExactly(s: Server, id: nat, a: Answers)
    requires s.Wf() && s.Has(id)
    ensures s.clients[id].out.Valid() && (s.clients[id].fd in s.byFd ==> s.Has(s.byFd[s.clients[id].fd]))
    ensures var c, t := s.clients[id], s.FlushOne(id, a);
            var waits := !s.Ends(id, a) && !t.clients[id].out.NothingPending();
            && OthersKept(s, t, id) && t.clients[id].fd == c.fd && t.clients[id].out == Left(c.out, a.taken)
            && !t.clients[id].flags.pendingWrite
            && t.writable == (if waits && a.watched then s.writable + {c.fd} else s.writable)
            && (waits && !a.watched ==> t.clients[id].flags.closeAsap)
            && (!s.Ends(id, a) && !(waits && !a.watched) ==> t.toClose == s.toClose)
  {
    hide Out.Valid, Out.Pending, WriteAll, Server.Write;
    WfAt(s, id);
    var c := s.clients[id];
    var u := s.With(id, c.(flags := c.flags.(pendingWrite := false)));
    WfWith(s, id, c.(flags := c.flags.(pendingWrite := false)));
    WriteExactly(u, id, false, a);
    assert u.Ends(id, a) <==> s.Ends(id, a);
  }

  lemma FlushOneOthers(s: Server, i: nat, a: Answers, id: nat)
    requires s.Wf() && s.Has(id) && i < |s.pending|
    ensures s.Has(s.pending[i]) && s.clients[s.pending[i]].out.Valid()
    ensures s.clients[s.pending[i]].fd in s.byFd ==> s.Has(s.byFd[s.clients[s.pending[i]].fd])
    ensures var t := s.FlushOne(s.pending[i], a);
            && t.Has(id) && t.clients[id].fd == s.clients[id].fd
            && (id != s.pending[i] ==> t.clients[id].out == s.clients[id].out)
  {
    hide Out.Valid, Server.FlushOne, Left;
    FlushOneExactly(s, s.pending[i], a);
  }

  lemma FlushFromStep(s: Server, i: nat, answers: seq<Answers>)
    requires s.Wf() && i < |s.pending| == |answers|
    ensures s.Has(s.pending[i]) && s.clients[s.pending[i]].out.Valid()
    ensures s.clients[s.pending[i]].fd in s.byFd ==> s.Has(s.byFd[s.clients[s.pending[i]].fd])
    ensures var u := s.FlushOne(s.pending[i], answers[i]);
            u.Wf() && u.pending == s.pending && s.FlushFrom(i, answers) == u.FlushFrom(i + 1, answers)
  {
    hide Out.Valid, Server.FlushOne, Server.Wf;
    FlushOneWf(s, i, answers[i]);
  }

  lemma FlushFromEnd(s: Server, answers: seq<Answers>)
    requires s.Wf() && |s.pending| == |answers|
    ensures s.FlushFrom(|s.pending|, answers) == s
  {
  }

  lemma LaterOnly(list: seq<nat>, i: nat, id: nat)
    requires i < |list|
    ensures id !in list[i..] <==> id != list[i] && id !in list[i + 1..]
  {
    assert list[i..] == [list[i]] + list[i + 1..];
  }

  /** Who is not in the list from a place on keeps its output, and all keep their descriptors. */
  lemma {:induction false} FlushFromOthers(s: Server, i: nat, answers: seq<Answers>, id: nat)
    requires s.Wf() && s.Has(id) && i <= |s.pending| == |answers|
    ensures var t := s.FlushFrom(i, answers);
            && t.Has(id) && t.clients[id].fd == s.clients[id].fd
            && (id !in s.pending[i..] ==> t.clients[id].out == s.clients[id].out)
    decreases |s.pending| - i
  {
    hide Out.Valid, Server.FlushOne, Server.Wf, Server.FlushFrom;
    if i < |s.pending| {
      FlushFromStep(s, i, answers);
      FlushOneOthers(s, i, answers[i], id);
      FlushFromOthers(s.FlushOne(s.pending[i], answers[i]), i + 1, answers, id);
      LaterOnly(s.pending, i, id);
    } else {
      FlushFromEnd(s, answers);
    }
  }

  lemma {:induction false} FlushFromOnce(s: Server, i: nat, k: nat, answers: seq<Answers>)
    requires s.Wf() && i <= k < |s.pending| == |answers|
    requires forall j :: i <= j < |s.pending| && j != k ==> s.pending[j] != s.pending[k]
    ensures var id, t := s.pending[k], s.FlushFrom(i, answers);
            && s.Has(id) && t.Has(id) && s.clients[id].out.Valid()
            && t.clients[id].out == Left(s.clients[id].out, answers[k].taken)
    decreases |s.pending| - i
  {
    hide Out.Valid, Out.Pending, Server.FlushOne, Server.Wf, Left;
    var id := s.pending[k];
    FlushOneWf(s, k, answers[k]);
    FlushOneWf(s, i, answers[i]);
    FlushOneExactly(s, s.pending[i], answers[i]);
    var u := s.FlushOne(s.pending[i], answers[i]);
    if i < k {
      FlushFromOnce(u, i + 1, k, answers);
    } else {
      FlushFromOthers(u, i + 1, answers, id);
    }
  }

  /** A flush writes to everybody listed: who is listed once is left with what that write leaves; who is not listed
      keeps its output; and the list is empty afterwards. */
  lemma FlushWrites(s: Server, answers: seq<Answers>)
    requires s.Valid() && |answers| == |s.pending|
    ensures s.Flush(answers).pending == []
    ensures forall id :: 0 <= id < |s.clients| && id !in s.pending ==>
              s.Flush(answers).Has(id) && s.Flush(answers).clients[id].out == s.clients[id].out
    ensures forall k :: 0 <= k < |s.pending| && Once(s.pending, k) ==>
              var id, t := s.pending[k], s.Flush(answers);
              && s.Has(id) && t.Has(id) && s.clients[id].out.Valid()
              && t.clients[id].out == Left(s.clients[id].out, answers[k].taken)
  {
    hide Out.Valid, Out.Pending, Server.FlushFrom, Left;
    assert s.pending[0..] == s.pending;
    forall id | 0 <= id < |s.clients| ensures s.Flush(answers).Has(id) { FlushFromOthers(s, 0, answers, id); }
    forall id | 0 <= id < |s.clients| && id !in s.pending
      ensures s.Flush(answers).Has(id) && s.Flush(answers).clients[id].out == s.clients[id].out
    {
      FlushFromOthers(s, 0, answers, id);
    }
    forall k | 0 <= k < |s.pending| && Once(s.pending, k)
      ensures var id, t := s.pending[k], s.Flush(answers);
              && s.Has(id) && t.Has(id) && s.clients[id].out.Valid()
              && t.clients[id].out == Left(s.clients[id].out, answers[k].taken)
    {
      FlushFromOnce(s, 0, k, answers);
    }
  }

  predicate Once(list: seq<nat>, k: nat)
    requires k < |list|
  {
    forall j :: 0 <= j < |list| && j != k ==> list[j] != list[k]
  }

  // --- who is marked is freed ----------------------------------------------------------------------------------------

  /** Everybody who is marked and has a descriptor is in the list of those to be freed. */
  ghost predicate MarkedListed(s: Server) {
    forall id :: 0 <= id < |s.clients| && s.clients[id].flags.closeAsap && s.clients[id].fd != -1 ==> id in s.toClose
  }

  lemma MarkingLists(s: Server, t: Server, id: nat)
    requires MarkedListed(s) && Marks(s, t, id)
    requires forall j :: 0 <= j < |s.clients| ==> t.clients[j].fd == s.clients[j].fd
    ensures MarkedListed(t)
  {
  }

  lemma NobodyMarked(s: Server, t: Server)
    requires MarkedListed(s) && |t.clients| == |s.clients| && t.toClose == s.toClose
    requires forall j :: 0 <= j < |s.clients| ==>
               t.clients[j].fd == s.clients[j].fd && t.clients[j].flags.closeAsap == s.clients[j].flags.closeAsap
    ensures MarkedListed(t)
  {
  }

  lemma WriteLists(s: Server, id: nat, handler: bool, a: Answers)
    requires s.Wf() && s.Has(id) && MarkedListed(s)
    ensures s.clients[id].out.Valid() && (s.clients[id].fd in s.byFd ==> s.Has(s.byFd[s.clients[id].fd]))
    ensures MarkedListed(s.Write(id, handler, a).0)
  {
    hide Out.Valid, Out.Pending, WriteAll, Server.Write, Left, RestOf, MarkedListed;
    WriteExactly(s, id, handler, a);
    var c, t := s.clients[id], s.Write(id, handler, a).0;
    if s.Ends(id, a) && c.fd in s.byFd { MarkingLists(s, t, s.byFd[c.fd]); } else { NobodyMarked(s, t); }
  }

  lemma FlushOneLists(s: Server, id: nat, a: Answers)
    requires s.Wf() && s.Has(id) && MarkedListed(s)
    ensures s.clients[id].out.Valid() && (s.clients[id].fd in s.byFd ==> s.Has(s.byFd[s.clients[id].fd]))
    ensures MarkedListed(s.FlushOne(id, a))
  {
    hide Out.Valid, Out.Pending, WriteAll, Server.Write, MarkedListed;
    WfAt(s, id);
    var c := s.clients[id];
    var u := s.With(id, c.(flags := c.flags.(pendingWrite := false)));
    WfWith(s, id, c.(flags := c.flags.(pendingWrite := false)));
    NobodyMarked(s, u);
    WriteLists(u, id, false, a);
    var (t, res) := u.Write(id, false, a);
    if res != -1 && !t.clients[id].out.NothingPending() {
      NobodyMarked(t, t.(writable := t.writable + {c.fd}));
      MarkingLists(t, t.FreeAsync(id), id);
    }
  }

  lemma {:induction false} FlushFromLists(s: Server, i: nat, answers: seq<Answers>)
    requires s.Wf() && MarkedListed(s) && i <= |s.pending| == |answers|
    ensures MarkedListed(s.FlushFrom(i, answers))
    decreases |s.pending| - i
  {
    hide Out.Valid, Server.FlushOne, Server.Wf, MarkedListed;
    if i < |s.pending| {
      FlushOneWf(s, i, answers[i]);
      PendingHas(s, i);
      FlushOneLists(s, s.pending[i], answers[i]);
      FlushFromLists(s.FlushOne(s.pending[i], answers[i]), i + 1, answers);
    }
  }

  lemma PendingHas(s: Server, i: nat)
    requires s.Wf() && i < |s.pending|
    ensures s.Has(s.pending[i])
  {
  }

  lemma UnlinkLists(s: Server, id: nat)
    requires s.Valid() && s.Has(id)
    ensures var t := s.Unlink(id);
            && t.clients[id].fd == -1
            && (forall j :: 0 <= j < |s.clients| && j != id ==> t.clients[j] == s.clients[j])
            && (forall j :: j in s.toClose && j < |s.clients| && t.clients[j].fd != -1 ==> j in t.toClose)
  {
    hide Out.Valid, Server.WithoutFirst;
    UnlinkChanges(s, id);
    var c := s.clients[id];
    var u := if c.fd != -1 && c.fd in s.byFd
             then s.With(id, c.(fd := -1)).(writable := s.writable - {c.fd}, byFd := s.byFd - {-1}) else s;
    var v := if c.flags.pendingWrite then u.(pending := u.WithoutFirst(s.pending, u.clients[id].fd)) else u;
    OnlyFirstGone(v, v.toClose, v.clients[id].fd);
  }

  /** The list without the first client that has a descriptor; that is at `i`, or there is none, `i` being the
      end. */
  predicate FirstOut(s: Server, list: seq<nat>, rest: seq<nat>, fd: int, i: nat) {
    && i <= |list|
    && (forall j :: 0 <= j < i ==> list[j] < |s.clients| && s.clients[list[j]].fd != fd)
    && (i < |list| ==> list[i] < |s.clients| && s.clients[list[i]].fd == fd)
    && rest == list[..i] + if i < |list| then list[i + 1..] else []
  }

  lemma FirstOutLater(s: Server, list: seq<nat>, rest: seq<nat>, fd: int, k: nat)
    requires list != [] && list[0] < |s.clients| && s.clients[list[0]].fd != fd
    requires FirstOut(s, list[1..], rest, fd, k)
    ensures FirstOut(s, list, [list[0]] + rest, fd, k + 1)
  {
    var tail := list[1..];
    assert list == [list[0]] + tail && list[..k + 1] == [list[0]] + tail[..k];
    if k < |tail| { assert list[k + 2..] == tail[k + 1..]; }
  }

  lemma {:induction false} WithoutFirstIs(s: Server, list: seq<nat>, fd: int) returns (i: nat)
    requires forall i :: 0 <= i < |list| ==> list[i] < |s.clients|
    ensures FirstOut(s, list, s.WithoutFirst(list, fd), fd, i)
    decreases |list|
  {
    if list == [] {
      i := 0;
    } else if s.clients[list[0]].fd == fd {
      i := 0;
      assert list[..0] + list[1..] == list[1..];
    } else {
      hide FirstOut;
      var k := WithoutFirstIs(s, list[1..], fd);
      i := k + 1;
      FirstOutLater(s, list, s.WithoutFirst(list[1..], fd), fd, k);
    }
  }

  /** A client that is freed takes the first of those without a descriptor out of the list of those to be freed,
      which is the client itself unless one before it had none; and out of the list of those to be written to,
      if it is flagged. */
  lemma UnlinkShortens(s: Server, id: nat) returns (i: nat, k: nat)
    requires s.Valid() && s.Has(id)
    ensures var t := s.Unlink(id);
            && FirstOut(t, s.toClose, t.toClose, -1, i)
            && (if s.clients[id].flags.pendingWrite then FirstOut(t, s.pending, t.pending, -1, k)
                else t.pending == s.pending)
  {
    hide Out.Valid, Server.WithoutFirst, FirstOut;
    var c := s.clients[id];
    var u := if c.fd != -1 && c.fd in s.byFd
             then s.With(id, c.(fd := -1)).(writable := s.writable - {c.fd}, byFd := s.byFd - {-1}) else s;
    k := WithoutFirstIs(u, s.pending, u.clients[id].fd);
    var v := if c.flags.pendingWrite then u.(pending := u.WithoutFirst(s.pending, u.clients[id].fd)) else u;
    i := WithoutFirstIs(v, s.toClose, v.clients[id].fd);
    SameFds(u, s.Unlink(id), s.pending, s.Unlink(id).pending, -1, k);
    SameFds(v, s.Unlink(id), s.toClose, s.Unlink(id).toClose, -1, i);
  }

  lemma SameFds(s: Server, t: Server, list: seq<nat>, rest: seq<nat>, fd: int, i: nat)
    requires s.clients == t.clients
    ensures FirstOut(s, list, rest, fd, i) <==> FirstOut(t, list, rest, fd, i)
  {
  }

  /** After all marked clients have been freed each of them has lost its descriptor, and nobody else has; and all
      outputs are as they were. */
  lemma {:induction false} UnlinkAllFrees(s: Server, ids: seq<nat>)
    requires s.Valid() && forall i :: 0 <= i < |ids| ==> ids[i] < |s.clients|
    ensures var t := UnlinkAll(s, ids);
            && |t.clients| == |s.clients|
            && forall j :: 0 <= j < |s.clients| ==>
                 t.clients[j] == if j in ids then s.clients[j].(fd := -1) else s.clients[j]
    decreases |ids|
  {
    hide Out.Valid, Server.Unlink, Server.Valid;
    if ids != [] {
      ValidIsWf(s);
      UnlinkKeeps(s, ids[0]);
      UnlinkChanges(s, ids[0]);
      UnlinkLists(s, ids[0]);
      UnlinkAllFrees(s.Unlink(ids[0]), ids[1..]);
      assert ids == [ids[0]] + ids[1..];
    }
  }

  /** Freeing the marked clients leaves none of them with a descriptor. */
  lemma CloseMarkedFrees(s: Server)
    requires s.Valid() && MarkedListed(s)
    ensures var t := Step(s, CloseMarked);
            && t.toClose == [] && |t.clients| == |s.clients|
            && forall id :: 0 <= id < |s.clients| ==>
                 && t.clients[id].out == s.clients[id].out && t.clients[id].flags == s.clients[id].flags
                 && (s.clients[id].flags.closeAsap ==> t.clients[id].fd == -1)
                 && (!s.clients[id].flags.closeAsap ==> t.clients[id].fd == s.clients[id].fd)
  {
    hide Out.Valid, UnlinkAll;
    ValidIsWf(s);
    UnlinkAllFrees(s, s.toClose);
  }

  lemma StepLists(s: Server, e: Event)
    requires s.Valid() && MarkedListed(s) && Enabled(s, e)
    ensures MarkedListed(Step(s, e))
  {
    hide Out.Valid, Out.Pending, Out.Add, Cut, WriteAll, UnlinkAll, Server.Unlink, Server.Write, Server.FlushFrom;
    hide Server.AddReply;
    match e
    case Reply(id, text) =>
      ReplyExactly(s, id, text);
      ReplyLists(s, id, text);
      NobodyMarked(s, s.AddReply(id, text));
    case FlushAll(answers) =>
      FlushFromLists(s, 0, answers);
    case Writable(fd, a) => WriteLists(s, s.byFd[fd], true, a);
    case Accept(fd) =>
    case HangUp(fd) =>
      UnlinkKeeps(s, s.byFd[fd]);
      UnlinkLists(s, s.byFd[fd]);
    case CloseMarked => CloseMarkedFrees(s);
    case CloseAfterReply(id) => NobodyMarked(s, CloseAfter(s, id));
  }

  /** In every run whoever is marked is listed, and so is freed the next time the marked clients are. */
  lemma {:induction false} AlwaysListed(states: seq<Server>, events: seq<Event>, i: nat)
    requires RunOf(states, events) && i < |states|
    ensures states[i].Valid() && MarkedListed(states[i])
    ensures i < |events| && events[i].CloseMarked? ==>
              forall id :: 0 <= id < |states[i].clients| && states[i].clients[id].flags.closeAsap ==>
                id < |states[i + 1].clients| && states[i + 1].clients[id].fd == -1
    decreases i
  {
    hide Step, Enabled, Server.Valid, MarkedListed;
    RunValid(states, events, i);
    if i == 0 {
      NobodyYet();
    } else {
      AlwaysListed(states, events, i - 1);
      StepLists(states[i - 1], events[i - 1]);
      assert states[i] == Step(states[i - 1], events[i - 1]);
    }
    if i < |events| && events[i].CloseMarked? {
      CloseMarkedFrees(states[i]);
      assert states[i + 1] == Step(states[i], events[i]);
    }
  }

  lemma NobodyYet()
    ensures MarkedListed(START)
  {
  }
}
