/** The publish and subscribe handler in place. */
module PubSub {
  import G = Glob
  import opened Subscriptions

  class PubSubHandler {
    var channels: map<Text, seq<nat>>
    var patterns: seq<Entry>
    var clients: seq<Client>
    var sent: seq<Sent>

    function State(): Index
      reads this
    {
      Index(channels, patterns, clients)
    }

    constructor ()
      ensures State() == Index(map[], [], []) && Agree(State()) && sent == []
    {
      channels, patterns, clients, sent := map[], [], [], [];
      new;
      NobodyAgrees();
    }

    method PublishMessage(channel: Text, message: Text) returns (receivers: nat)
      modifies `sent
      ensures sent == old(sent) + Published(State(), channel, message)
      ensures receivers == |Published(State(), channel, message)|
    {
      hide Hits, ToMatching;
      receivers := 0;
      ghost var before := sent;
      if channel in channels {
        var list := channels[channel];
        for i := 0 to |list|
          invariant receivers == i && sent == before + ToAll(list, channel, message)[..i]
        {
          sent := sent + [Sent(list[i], channel, message)];
          receivers := receivers + 1;
        }
      }
      ghost var direct := ToAll(State().Listeners(channel), channel, message);
      assert sent == before + direct && receivers == |direct|;
      assert patterns[..0] == [];
      NothingMatches(channel, message);
      for i := 0 to |patterns|
        invariant sent == before + (direct + ToMatching(patterns[..i], channel, message))
        invariant receivers == |direct| + |ToMatching(patterns[..i], channel, message)|
      {
        MatchingSnoc(patterns[..i], patterns[i], channel, message);
        assert patterns[..i] + [patterns[i]] == patterns[..i + 1];
        var hit := G.StringMatch(patterns[i].pattern, channel, false);
        HitsIs(patterns[i].pattern, channel);
        if hit {
          sent := sent + [Sent(patterns[i].client, channel, message)];
          receivers := receivers + 1;
        }
      }
      assert patterns[..|patterns|] == patterns;
    }

    method SubscribeChannel(c: nat, channel: Text) returns (retval: int)
      requires Agree(State()) && c < |clients|
      modifies `channels, `clients
      ensures (State(), retval) == old(State()).Subscribe(c, channel) && Agree(State())
    {
      hide Agree;
      StepKeeps(State(), Event.Subscribe(c, channel));
      retval := 0;
      if channel !in clients[c].channels {
        retval := 1;
        clients := clients[c := clients[c].(channels := clients[c].channels + {channel})];
        if channel !in channels {
          channels := channels[channel := []];
        }
        channels := channels[channel := channels[channel] + [c]];
        assert channels == old(channels)[channel := old(State()).Listeners(channel) + [c]];
      }
    }

    method UnsubscribeChannel(c: nat, channel: Text) returns (retval: int)
      requires Agree(State()) && c < |clients|
      modifies `channels, `clients
      ensures (State(), retval) == old(State()).Unsubscribe(c, channel) && Agree(State())
    {
      hide Agree, Drop;
      StepKeeps(State(), Event.Unsubscribe(c, channel));
      retval := 0;
      if channel in clients[c].channels {
        retval := 1;
        clients := clients[c := clients[c].(channels := clients[c].channels - {channel})];
        if channel in channels {
          var list := channels[channel];
          ghost var left := clients;
          for i := 0 to |list|
            invariant channels == old(channels) && clients == left && forall j :: 0 <= j < i ==> list[j] != c
          {
            if list[i] == c {
              DropAt(list, c, i);
              var rest := list[..i] + list[i + 1..];
              if 0 == |rest| {
                channels := channels - {channel};
              } else {
                channels := channels[channel := rest];
              }
              break;
            }
          }
        }
      }
    }

    /** Leave all channels, in the order in which the client's table lists them. */
    method UnsubscribeAllChannels(c: nat, order: seq<Text>) returns (count: nat)
      requires Agree(State()) && c < |clients|
      requires NoDuplicates(order) && forall channel :: channel in clients[c].channels <==> channel in order
      modifies `channels, `clients
      ensures Agree(State()) && count == |order| && patterns == old(patterns)
      ensures clients == old(clients)[c := old(clients)[c].(channels := {})]
      ensures forall channel :: channel in order ==> c !in State().Listeners(channel)
    {
      hide Agree, Drop, Index.Listeners;
      count := 0;
      ghost var kept := clients[c];
      assert clients == clients[c := kept];
      for i := 0 to |order|
        invariant Agree(State()) && count == i && c < |clients| == old(|clients|) && patterns == old(patterns)
        invariant clients == old(clients)[c := kept.(channels := clients[c].channels)]
        invariant forall channel :: channel in clients[c].channels <==> channel in order[i..]
      {
        var gone := UnsubscribeChannel(c, order[i]);
        assert order[i..] == [order[i]] + order[i + 1..];
        count := count + gone;
      }
      assert order[|order|..] == [];
      assert clients[c].channels == {};
      NobodyListens(State(), c);
    }

    method SubscribePattern(c: nat, pattern: Text) returns (retval: int)
      requires Agree(State()) && c < |clients|
      modifies `patterns, `clients
      ensures (State(), retval) == old(State()).SubscribePattern(c, pattern) && Agree(State())
    {
      hide Agree;
      StepKeeps(State(), Event.SubscribePattern(c, pattern));
      retval := 0;
      if pattern !in clients[c].patterns {
        retval := 1;
        clients := clients[c := clients[c].(patterns := clients[c].patterns + [pattern])];
        patterns := patterns + [Entry(c, pattern)];
      }
    }

    method DelPattern(c: nat, pattern: Text) returns (res: int)
      requires c < |clients|
      modifies `clients
      ensures clients == old(clients)[c := old(clients)[c].(patterns := Drop(old(clients)[c].patterns, pattern))]
      ensures res == if pattern in old(clients)[c].patterns then 1 else 0
    {
      hide Drop;
      var list := clients[c].patterns;
      for i := 0 to |list|
        invariant clients == old(clients) && forall j :: 0 <= j < i ==> list[j] != pattern
      {
        if list[i] == pattern {
          DropAt(list, pattern, i);
          clients := clients[c := clients[c].(patterns := list[..i] + list[i + 1..])];
          return 1;
        }
      }
      DropNone(list, pattern);
      assert clients[c].(patterns := list) == clients[c];
      return 0;
    }

    /** As the code compares: the entry erased is the client's first one of another pattern. */
    method UnsubscribePattern(c: nat, pattern: Text) returns (retval: int)
      requires c < |clients|
      modifies `patterns, `clients
      ensures (State(), retval) == old(State()).UnsubscribePattern(c, pattern, true)
    {
      hide Drop, DropOther;
      retval := 0;
      if pattern in clients[c].patterns {
        retval := 1;
        var deleted := DelPattern(c, pattern);
        for i := 0 to |patterns|
          invariant patterns == old(patterns)
          invariant forall j :: 0 <= j < i ==> !(patterns[j].pattern != pattern && patterns[j].client == c)
        {
          if patterns[i].pattern != pattern && patterns[i].client == c {
            DropOtherAt(patterns, c, pattern, i);
            patterns := patterns[..i] + patterns[i + 1..];
            return;
          }
        }
        DropOtherNone(patterns, c, pattern);
      }
    }
  }

  lemma HitsIs(pattern: Text, channel: Text)
    ensures Hits(pattern, channel) == if channel == [] then pattern == []
            else G.Matches(G.Tokens(pattern, 0), channel, false)
  {
  }

  lemma NothingMatches(channel: Text, message: Text)
    ensures ToMatching([], channel, message) == []
  {
  }

  lemma {:induction false} MatchingSnoc(entries: seq<Entry>, e: Entry, channel: Text, message: Text)
    ensures ToMatching(entries + [e], channel, message) ==
            ToMatching(entries, channel, message)
            + if Hits(e.pattern, channel) then [Sent(e.client, channel, message)] else []
  {
    hide Hits;
    if entries == [] {
      assert entries + [e] == [e] && [e][1..] == [];
    } else {
      hide ToMatching;
      assert (entries + [e])[1..] == entries[1..] + [e];
      MatchingSnoc(entries[1..], e, channel, message);
      MatchingCons(entries, channel, message);
      MatchingCons(entries + [e], channel, message);
    }
  }

  lemma MatchingCons(entries: seq<Entry>, channel: Text, message: Text)
    requires entries != []
    ensures var first := if Hits(entries[0].pattern, channel) then [Sent(entries[0].client, channel, message)] else [];
            && ToMatching(entries, channel, message) == first + ToMatching(entries[1..], channel, message)
            && forall a: seq<Sent>, b: seq<Sent> :: first + (a + b) == (first + a) + b
  {
    hide Hits;
  }

  /** Leaving out an element, told by the list without its first. */
  lemma WithoutHead<T>(list: seq<T>, i: nat)
    requires 0 < i < |list|
    ensures [list[0]] + (list[1..][..i - 1] + list[1..][i..]) == list[..i] + list[i + 1..]
  {
    assert list[..i] == [list[0]] + list[1..][..i - 1];
    assert list[1..][i..] == list[i + 1..];
  }

  lemma {:induction false} DropAt<T(!new)>(list: seq<T>, x: T, i: nat)
    requires i < |list| && list[i] == x && forall j :: 0 <= j < i ==> list[j] != x
    ensures Drop(list, x) == list[..i] + list[i + 1..]
    decreases i
  {
    if i > 0 {
      DropAt(list[1..], x, i - 1);
      WithoutHead(list, i);
    } else {
      assert list[..0] + list[1..] == list[1..];
    }
  }

  lemma {:induction false} DropNone<T(!new)>(list: seq<T>, x: T)
    requires x !in list
    ensures Drop(list, x) == list
  {
    if list != [] { DropNone(list[1..], x); }
  }

  lemma {:induction false} DropOtherAt(entries: seq<Entry>, c: nat, pattern: Text, i: nat)
    requires i < |entries| && entries[i].pattern != pattern && entries[i].client == c
    requires forall j :: 0 <= j < i ==> !(entries[j].pattern != pattern && entries[j].client == c)
    ensures DropOther(entries, c, pattern) == entries[..i] + entries[i + 1..]
    decreases i
  {
    if i > 0 {
      DropOtherAt(entries[1..], c, pattern, i - 1);
      WithoutHead(entries, i);
    } else {
      assert entries[..0] + entries[1..] == entries[1..];
    }
  }

  lemma {:induction false} DropOtherNone(entries: seq<Entry>, c: nat, pattern: Text)
    requires forall j :: 0 <= j < |entries| ==> !(entries[j].pattern != pattern && entries[j].client == c)
    ensures DropOther(entries, c, pattern) == entries
  {
    if entries != [] { DropOtherNone(entries[1..], c, pattern); }
  }

  lemma NobodyListens(s: Index, c: nat)
    requires Agree(s) && c < |s.clients| && s.clients[c].channels == {}
    ensures forall channel :: c !in s.Listeners(channel)
  {
    forall channel ensures c !in s.Listeners(channel) {
      assert channel in s.clients[c].channels <==> c in s.Listeners(channel);
    }
  }
}
