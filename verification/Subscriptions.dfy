/** Who listens to what, kept twice: the handler's lists of clients by channel and of patterns, and every
    client's own channels and patterns. Clients are told by number. */
module Subscriptions {
  import G = Glob

  type Text = seq<G.Char>

  datatype Client = Client(channels: set<Text>, patterns: seq<Text>)

  datatype Entry = Entry(client: nat, pattern: Text)

  /** A message sent to a client. */
  datatype Sent = Sent(client: nat, channel: Text, message: Text)

  /** Whether a pattern entry is to be sent a channel's messages. */
  ghost predicate Hits(pattern: Text, channel: Text) {
    if channel == [] then pattern == [] else G.Matches(G.Tokens(pattern, 0), channel, false)
  }

  function Drop<T(==)>(list: seq<T>, x: T): (r: seq<T>)
    ensures |r| <= |list|
  {
    if list == [] then [] else if list[0] == x then list[1..] else [list[0]] + Drop(list[1..], x)
  }

  /** The patterns of one client, in the order of the handler's list. */
  function Own(entries: seq<Entry>, c: nat): seq<Text> {
    if entries == [] then []
    else (if entries[0].client == c then [entries[0].pattern] else []) + Own(entries[1..], c)
  }

  ghost predicate NoDuplicates<T(!new)>(list: seq<T>) { forall i, j :: 0 <= i < j < |list| ==> list[i] != list[j] }

  datatype Index = Index(channels: map<Text, seq<nat>>, patterns: seq<Entry>, clients: seq<Client>) {

    function Listeners(channel: Text): seq<nat> { if channel in channels then channels[channel] else [] }

    function With(c: nat, client: Client): Index
      requires c < |clients|
    {
      this.(clients := clients[c := client])
    }

    // --- channels ------------------------------------------------------------------------------------------------

    function Subscribe(c: nat, channel: Text): (Index, int)
      requires c < |clients|
    {
      if channel in clients[c].channels then (this, 0)
      else (With(c, clients[c].(channels := clients[c].channels + {channel}))
            .(channels := channels[channel := Listeners(channel) + [c]]), 1)
    }

    /** The list a client is taken out of goes when it becomes empty. */
    function Unsubscribe(c: nat, channel: Text): (Index, int)
      requires c < |clients|
    {
      if channel !in clients[c].channels then (this, 0)
      else
        var s := With(c, clients[c].(channels := clients[c].channels - {channel}));
        if channel !in channels || c !in channels[channel] then (s, 1)
        else if |channels[channel]| == 1 then (s.(channels := channels - {channel}), 1)
        else (s.(channels := channels[channel := Drop(channels[channel], c)]), 1)
    }

    // --- patterns ------------------------------------------------------------------------------------------------

    function SubscribePattern(c: nat, pattern: Text): (Index, int)
      requires c < |clients|
    {
      if pattern in clients[c].patterns then (this, 0)
      else (With(c, clients[c].(patterns := clients[c].patterns + [pattern]))
            .(patterns := patterns + [Entry(c, pattern)]), 1)
    }

    /** Taking a pattern out of both lists. As the code compares, the entry that goes is the client's first
        one of another pattern (`inverted`); the entry meant is the one of this pattern. */
    function UnsubscribePattern(c: nat, pattern: Text, inverted: bool): (Index, int)
      requires c < |clients|
    {
      if pattern !in clients[c].patterns then (this, 0)
      else (With(c, clients[c].(patterns := Drop(clients[c].patterns, pattern)))
            .(patterns := if inverted then DropOther(patterns, c, pattern) else Drop(patterns, Entry(c, pattern))), 1)
    }

    // --- agreement -----------------------------------------------------------------------------------------------

    /** A client is listed for a channel, once, exactly if the channel is among its own; no list is empty. */
    ghost predicate ChannelsAgree() {
      && (forall channel :: channel in channels ==> channels[channel] != [] && NoDuplicates(channels[channel]))
      && (forall channel, c :: channel in channels && c in channels[channel] ==> c < |clients|)
      && (forall channel, c :: 0 <= c < |clients| ==> (channel in clients[c].channels <==> c in Listeners(channel)))
    }

    /** The handler's entries of a client are the client's own patterns, in the same order, each once. */
    ghost predicate PatternsAgree() {
      && (forall i :: 0 <= i < |patterns| ==> patterns[i].client < |clients|)
      && (forall c :: 0 <= c < |clients| ==>
         Own(patterns, c) == clients[c].patterns && NoDuplicates(clients[c].patterns))
    }
  }

  function DropOther(entries: seq<Entry>, c: nat, pattern: Text): (r: seq<Entry>)
    ensures |r| <= |entries|
  {
    if entries == [] then []
    else if entries[0].pattern != pattern && entries[0].client == c then entries[1..]
    else [entries[0]] + DropOther(entries[1..], c, pattern)
  }

  // --- lists -----------------------------------------------------------------------------------------------------

  lemma {:induction false} DropIs<T(!new)>(list: seq<T>, x: T)
    requires NoDuplicates(list)
    ensures NoDuplicates(Drop(list, x)) && (forall y :: y in Drop(list, x) <==> y in list && y != x)
    ensures |Drop(list, x)| == if x in list then |list| - 1 else |list|
    decreases |list|
  {
    if list != [] {
      assert list == [list[0]] + list[1..];
      DropIs(list[1..], x);
      var r := Drop(list[1..], x);
      if list[0] != x {
        forall i, j | 0 <= i < j < |[list[0]] + r| ensures ([list[0]] + r)[i] != ([list[0]] + r)[j] {
          if i == 0 { assert r[j - 1] in r; }
        }
      }
    }
  }

  lemma {:induction false} OwnSplits(a: seq<Entry>, b: seq<Entry>, c: nat)
    ensures Own(a + b, c) == Own(a, c) + Own(b, c)
  {
    if a == [] {
      assert a + b == b;
    } else {
      assert (a + b)[1..] == a[1..] + b;
      OwnSplits(a[1..], b, c);
    }
  }

  lemma DropCons<T(!new)>(x: T, rest: seq<T>, y: T)
    ensures Drop([x] + rest, y) == if x == y then rest else [x] + Drop(rest, y)
  {
    assert ([x] + rest)[1..] == rest;
  }

  lemma OwnCons(e: Entry, rest: seq<Entry>, c: nat)
    ensures Own([e] + rest, c) == if e.client == c then [e.pattern] + Own(rest, c) else Own(rest, c)
  {
    assert ([e] + rest)[1..] == rest;
  }

  /** Dropping an entry drops its pattern from the client's own. */
  lemma {:induction false} OwnDropped(entries: seq<Entry>, e: Entry, c: nat)
    ensures Own(Drop(entries, e), c) == if c == e.client then Drop(Own(entries, c), e.pattern) else Own(entries, c)
  {
    if entries != [] {
      var first, rest := entries[0], entries[1..];
      assert entries == [first] + rest;
      OwnDropped(rest, e, c);
      DropCons(first, rest, e);
      OwnCons(first, rest, c);
      OwnCons(first, Drop(rest, e), c);
      DropCons(first.pattern, Own(rest, c), e.pattern);
    }
  }

  lemma {:induction false} DropKeepsMembers<T(!new)>(list: seq<T>, x: T)
    ensures forall y :: y in Drop(list, x) ==> y in list
  {
    if list != [] {
      DropKeepsMembers(list[1..], x);
      assert list == [list[0]] + list[1..];
    }
  }

  // --- every operation keeps the agreement -----------------------------------------------------------------------

  lemma SubscribeKeeps(s: Index, c: nat, channel: Text)
    requires s.ChannelsAgree() && c < |s.clients|
    ensures var (t, res) := s.Subscribe(c, channel);
            && t.ChannelsAgree() && t.patterns == s.patterns && |t.clients| == |s.clients|
            && (res == 1 <==> channel !in s.clients[c].channels)
            && channel in t.clients[c].channels && c in t.Listeners(channel)
  {
    var (t, res) := s.Subscribe(c, channel);
    if res == 1 {
      assert c !in s.Listeners(channel);
      forall other, d | 0 <= d < |t.clients| ensures other in t.clients[d].channels <==> d in t.Listeners(other) {
        assert other in s.clients[d].channels <==> d in s.Listeners(other);
      }
      forall other, d | other in t.channels && d in t.channels[other] ensures d < |t.clients| {
        if other == channel && d != c { assert d in s.channels[channel]; }
      }
    }
  }

  lemma UnsubscribeKeeps(s: Index, c: nat, channel: Text)
    requires s.ChannelsAgree() && c < |s.clients|
    ensures var (t, res) := s.Unsubscribe(c, channel);
            && t.ChannelsAgree() && t.patterns == s.patterns && |t.clients| == |s.clients|
            && (res == 1 <==> channel in s.clients[c].channels)
            && channel !in t.clients[c].channels && c !in t.Listeners(channel)
  {
    var (t, res) := s.Unsubscribe(c, channel);
    if res == 1 {
      assert c in s.Listeners(channel);
      var list := s.channels[channel];
      DropIs(list, c);
      if |list| == 1 { assert list == [c]; }
      forall other, d | 0 <= d < |t.clients| ensures other in t.clients[d].channels <==> d in t.Listeners(other) {
        assert other in s.clients[d].channels <==> d in s.Listeners(other);
      }
      forall other, d | other in t.channels && d in t.channels[other] ensures d < |t.clients| {
        if other == channel { assert d in list; }
      }
    }
  }

  lemma SubscribePatternKeeps(s: Index, c: nat, pattern: Text)
    requires s.PatternsAgree() && c < |s.clients|
    ensures var (t, res) := s.SubscribePattern(c, pattern);
            && t.PatternsAgree() && t.channels == s.channels && |t.clients| == |s.clients|
            && (res == 1 <==> pattern !in s.clients[c].patterns) && pattern in t.clients[c].patterns
  {
    var (t, res) := s.SubscribePattern(c, pattern);
    if res == 1 {
      forall d | 0 <= d < |s.clients|
        ensures Own(t.patterns, d) == t.clients[d].patterns && NoDuplicates(t.clients[d].patterns)
      {
        OwnSplits(s.patterns, [Entry(c, pattern)], d);
        assert Own([Entry(c, pattern)], d) == if d == c then [pattern] else [];
        assert Own(s.patterns, d) + [] == Own(s.patterns, d);
      }
    }
  }

  lemma UnsubscribePatternKeeps(s: Index, c: nat, pattern: Text)
    requires s.PatternsAgree() && c < |s.clients|
    ensures var (t, res) := s.UnsubscribePattern(c, pattern, false);
            && t.PatternsAgree() && t.channels == s.channels && |t.clients| == |s.clients|
            && (res == 1 <==> pattern in s.clients[c].patterns) && pattern !in t.clients[c].patterns
  {
    var (t, res) := s.UnsubscribePattern(c, pattern, false);
    if res == 1 {
      DropKeepsMembers(s.patterns, Entry(c, pattern));
      forall i | 0 <= i < |t.patterns| ensures t.patterns[i].client < |t.clients| {
        assert t.patterns[i] in s.patterns;
      }
      DropIs(s.clients[c].patterns, pattern);
      forall d | 0 <= d < |s.clients|
        ensures Own(t.patterns, d) == t.clients[d].patterns && NoDuplicates(t.clients[d].patterns)
      {
        OwnDropped(s.patterns, Entry(c, pattern), d);
        DropIs(s.clients[d].patterns, pattern);
      }
    }
  }

  lemma {:induction false} OtherStays(entries: seq<Entry>, c: nat, pattern: Text)
    ensures pattern in Own(DropOther(entries, c, pattern), c) <==> pattern in Own(entries, c)
  {
    if entries != [] {
      OtherStays(entries[1..], c, pattern);
      assert entries == [entries[0]] + entries[1..];
      OwnCons(entries[0], entries[1..], c);
      OwnCons(entries[0], DropOther(entries[1..], c, pattern), c);
    }
  }

  /** As the code is written, unsubscribing from a pattern keeps the two in agreement only if there was
      nothing to unsubscribe from. */
  lemma InvertedExactly(s: Index, c: nat, pattern: Text)
    requires s.PatternsAgree() && c < |s.clients|
    ensures s.UnsubscribePattern(c, pattern, true).0.PatternsAgree() <==> pattern !in s.clients[c].patterns
  {
    var t := s.UnsubscribePattern(c, pattern, true).0;
    if pattern in s.clients[c].patterns {
      assert Own(s.patterns, c) == s.clients[c].patterns;
      OtherStays(s.patterns, c, pattern);
      DropIs(s.clients[c].patterns, pattern);
      assert pattern in Own(t.patterns, c) && pattern !in t.clients[c].patterns;
    }
  }

  const A: Text := [97]
  const B: Text := [98]

  /** A client with two patterns: when it unsubscribes from the first, the handler forgets the second. */
  lemma OtherErased()
    ensures var s := Index(map[], [Entry(0, A), Entry(0, B)], [Client({}, [A, B])]);
            && s.PatternsAgree()
            && s.UnsubscribePattern(0, A, true).0 == Index(map[], [Entry(0, A)], [Client({}, [B])])
            && !s.UnsubscribePattern(0, A, true).0.PatternsAgree()
  {
    hide Own, Drop, DropOther;
    var s := Index(map[], [Entry(0, A), Entry(0, B)], [Client({}, [A, B])]);
    TwoPatterns();
    assert s.clients[0 := Client({}, [B])] == [Client({}, [B])];
    assert A != B && [A] != [B] by { assert A[0] != B[0] && [A][0] != [B][0]; }
  }

  lemma TwoPatterns()
    ensures var ab, a, b := [Entry(0, A), Entry(0, B)], [Entry(0, A)], [Entry(0, B)];
            && Own(ab, 0) == [A, B] && Own(a, 0) == [A] && Drop([A, B], A) == [B] && DropOther(ab, 0, A) == a
  {
    var ab, a, b, none: seq<Entry> := [Entry(0, A), Entry(0, B)], [Entry(0, A)], [Entry(0, B)], [];
    assert A != B by { assert A[0] != B[0]; }
    assert ab[1..] == b && b[1..] == none && a[1..] == none && [A, B][1..] == [B];
    assert Own(none, 0) == [] && DropOther(none, 0, A) == none;
    assert Own(b, 0) == [B] + [] && Own(a, 0) == [A] + [] && Own(ab, 0) == [A] + Own(b, 0);
    assert DropOther(b, 0, A) == none;
    assert DropOther(ab, 0, A) == [ab[0]] + DropOther(b, 0, A);
  }

  // --- runs ------------------------------------------------------------------------------------------------------

  datatype Event =
    | Subscribe(c: nat, channel: Text)
    | Unsubscribe(c: nat, channel: Text)
    | SubscribePattern(c: nat, pattern: Text)
    | UnsubscribePattern(c: nat, pattern: Text)
    | Join

  ghost predicate Agree(s: Index) { s.ChannelsAgree() && s.PatternsAgree() }

  function Step(s: Index, e: Event): (t: Index)
    requires e.Join? || e.c < |s.clients|
    ensures |t.clients| == |s.clients| + if e.Join? then 1 else 0
  {
    match e
    case Subscribe(c, channel) => s.Subscribe(c, channel).0
    case Unsubscribe(c, channel) => s.Unsubscribe(c, channel).0
    case SubscribePattern(c, pattern) => s.SubscribePattern(c, pattern).0
    case UnsubscribePattern(c, pattern) => s.UnsubscribePattern(c, pattern, false).0
    case Join => s.(clients := s.clients + [Client({}, [])])
  }

  lemma {:induction false} OwnNone(entries: seq<Entry>, c: nat)
    requires forall i :: 0 <= i < |entries| ==> entries[i].client != c
    ensures Own(entries, c) == []
  {
    if entries != [] { OwnNone(entries[1..], c); }
  }

  lemma JoinKeeps(s: Index)
    requires Agree(s)
    ensures Agree(s.(clients := s.clients + [Client({}, [])]))
  {
    OwnNone(s.patterns, |s.clients|);
    var t := s.(clients := s.clients + [Client({}, [])]);
    forall c | 0 <= c < |t.clients|
      ensures Own(t.patterns, c) == t.clients[c].patterns && NoDuplicates(t.clients[c].patterns)
    {
      if c < |s.clients| { assert Own(s.patterns, c) == s.clients[c].patterns; }
    }
    forall channel, c | 0 <= c < |t.clients| ensures channel in t.clients[c].channels <==> c in t.Listeners(channel) {
      if c < |s.clients| { assert channel in s.clients[c].channels <==> c in s.Listeners(channel); }
    }
  }

  /** Both directions agree after every operation on every state in which they did. */
  lemma StepKeeps(s: Index, e: Event)
    requires Agree(s) && (e.Join? || e.c < |s.clients|)
    ensures Agree(Step(s, e))
  {
    hide Index.ChannelsAgree, Index.PatternsAgree;
    match e
    case Subscribe(c, channel) => SubscribeKeeps(s, c, channel); SameNames(s, s.Subscribe(c, channel).0, c);
    case Unsubscribe(c, channel) => UnsubscribeKeeps(s, c, channel); SameNames(s, s.Unsubscribe(c, channel).0, c);
    case SubscribePattern(c, pattern) =>
      SubscribePatternKeeps(s, c, pattern);
      SameChannels(s, s.SubscribePattern(c, pattern).0);
    case UnsubscribePattern(c, pattern) =>
      UnsubscribePatternKeeps(s, c, pattern);
      SameChannels(s, s.UnsubscribePattern(c, pattern, false).0);
    case Join => JoinKeeps(s);
  }

  predicate Possible(clients: nat, events: seq<Event>)
    decreases |events|
  {
    events == [] ||
    ((events[0].Join? || events[0].c < clients) && Possible(clients + if events[0].Join? then 1 else 0, events[1..]))
  }

  function Run(s: Index, events: seq<Event>): Index
    requires Possible(|s.clients|, events)
    decreases |events|
  {
    if events == [] then s else Run(Step(s, events[0]), events[1..])
  }

  /** Over every run from the start the two directions agree. */
  lemma {:induction false} AlwaysAgree(s: Index, events: seq<Event>)
    requires Agree(s) && Possible(|s.clients|, events)
    ensures Agree(Run(s, events))
    decreases |events|
  {
    hide Agree, Step;
    if events != [] {
      StepKeeps(s, events[0]);
      AlwaysAgree(Step(s, events[0]), events[1..]);
    }
  }

  lemma NobodyAgrees()
    ensures Agree(Index(map[], [], []))
  {
  }

  lemma SameNames(s: Index, t: Index, c: nat)
    requires s.PatternsAgree() && t.patterns == s.patterns && |t.clients| == |s.clients|
    requires forall d :: 0 <= d < |s.clients| ==> t.clients[d].patterns == s.clients[d].patterns
    ensures t.PatternsAgree()
  {
    forall d | 0 <= d < |t.clients|
      ensures Own(t.patterns, d) == t.clients[d].patterns && NoDuplicates(t.clients[d].patterns)
    {
      assert Own(s.patterns, d) == s.clients[d].patterns;
    }
  }

  lemma SameChannels(s: Index, t: Index)
    requires s.ChannelsAgree() && t.channels == s.channels && |t.clients| == |s.clients|
    requires forall d :: 0 <= d < |s.clients| ==> t.clients[d].channels == s.clients[d].channels
    ensures t.ChannelsAgree()
  {
    forall channel, d | 0 <= d < |t.clients| ensures channel in t.clients[d].channels <==> d in t.Listeners(channel) {
      assert channel in s.clients[d].channels <==> d in s.Listeners(channel);
    }
  }

  // --- publishing ------------------------------------------------------------------------------------------------

  function ToAll(list: seq<nat>, channel: Text, message: Text): (r: seq<Sent>)
    ensures |r| == |list| && forall i :: 0 <= i < |r| ==> r[i] == Sent(list[i], channel, message)
  {
    seq(|list|, i requires 0 <= i < |list| => Sent(list[i], channel, message))
  }

  ghost function ToMatching(entries: seq<Entry>, channel: Text, message: Text): seq<Sent> {
    if entries == [] then []
    else (if Hits(entries[0].pattern, channel) then [Sent(entries[0].client, channel, message)] else [])
         + ToMatching(entries[1..], channel, message)
  }

  /** What publishing a message sends. */
  ghost function Published(s: Index, channel: Text, message: Text): seq<Sent> {
    ToAll(s.Listeners(channel), channel, message) + ToMatching(s.patterns, channel, message)
  }

  function CountTo(sent: seq<Sent>, c: nat): nat {
    if sent == [] then 0 else (if sent[0].client == c then 1 else 0) + CountTo(sent[1..], c)
  }

  ghost function Matching(patterns: seq<Text>, channel: Text): nat {
    if patterns == [] then 0 else (if Hits(patterns[0], channel) then 1 else 0) + Matching(patterns[1..], channel)
  }

  lemma {:induction false} CountSplits(a: seq<Sent>, b: seq<Sent>, c: nat)
    ensures CountTo(a + b, c) == CountTo(a, c) + CountTo(b, c)
  {
    if a == [] {
      assert a + b == b;
    } else {
      assert (a + b)[1..] == a[1..] + b;
      CountSplits(a[1..], b, c);
    }
  }

  lemma {:induction false} CountListed(list: seq<nat>, channel: Text, message: Text, c: nat)
    requires NoDuplicates(list)
    ensures CountTo(ToAll(list, channel, message), c) == if c in list then 1 else 0
    decreases |list|
  {
    if list != [] {
      assert list == [list[0]] + list[1..];
      assert ToAll(list, channel, message)[1..] == ToAll(list[1..], channel, message);
      CountListed(list[1..], channel, message, c);
    }
  }

  lemma {:induction false} CountMatching(entries: seq<Entry>, channel: Text, message: Text, c: nat)
    ensures CountTo(ToMatching(entries, channel, message), c) == Matching(Own(entries, c), channel)
  {
    hide Hits;
    if entries != [] {
      var first, rest := entries[0], ToMatching(entries[1..], channel, message);
      CountMatching(entries[1..], channel, message, c);
      var now := if Hits(first.pattern, channel) then [Sent(first.client, channel, message)] else [];
      CountSplits(now, rest, c);
      assert entries == [first] + entries[1..];
      OwnCons(first, entries[1..], c);
      MatchingCons(first.pattern, Own(entries[1..], c), channel);
    }
  }

  lemma MatchingCons(pattern: Text, rest: seq<Text>, channel: Text)
    ensures Matching([pattern] + rest, channel) == (if Hits(pattern, channel) then 1 else 0) + Matching(rest, channel)
  {
    hide Hits;
    assert ([pattern] + rest)[1..] == rest;
  }

  /** Publishing sends every client one message for its subscription to the channel, if it has one, and one
      for each of its own patterns that the channel matches, and nobody anything else. */
  lemma PublishedExactly(s: Index, channel: Text, message: Text, c: nat)
    requires Agree(s) && c < |s.clients|
    ensures CountTo(Published(s, channel, message), c) ==
            (if channel in s.clients[c].channels then 1 else 0) + Matching(s.clients[c].patterns, channel)
  {
    hide Hits, CountTo;
    var list := s.Listeners(channel);
    assert NoDuplicates(list);
    assert channel in s.clients[c].channels <==> c in list;
    CountSplits(ToAll(list, channel, message), ToMatching(s.patterns, channel, message), c);
    CountListed(list, channel, message, c);
    CountMatching(s.patterns, channel, message, c);
  }
}
