/** What each operation of the publish and subscribe handler does to the tables, entry by entry: the one list
    and the one client it changes, and that every other is as it was. */
module SubscriptionSteps {
  import M = GlobMeanings
  import opened Subscriptions

  /** Everything but client `c` is the same in both. */
  predicate OthersKept(s: Index, t: Index, c: nat) {
    |t.clients| == |s.clients| && forall d :: 0 <= d < |s.clients| && d != c ==> t.clients[d] == s.clients[d]
  }

  /** Every channel but this one has the list it had, in the same order, or none as before. */
  ghost predicate OtherChannelsKept(s: Index, t: Index, channel: Text) {
    forall other :: other != channel ==>
      (other in t.channels <==> other in s.channels) && t.Listeners(other) == s.Listeners(other)
  }

  /** The list without its element at `i`, which is `x` for the first time. */
  predicate FirstGone<T(==)>(list: seq<T>, rest: seq<T>, x: T, i: nat) {
    && i < |list| && list[i] == x && x !in list[..i]
    && rest == list[..i] + list[i + 1..]
  }

  /** Leaving out an element behind the first, told by the list without its first. */
  lemma LeftOut<T>(list: seq<T>, k: nat)
    requires 1 <= |list| && k < |list| - 1
    ensures [list[0]] + (list[1..][..k] + list[1..][k + 1..]) == list[..k + 1] + list[k + 2..]
    ensures list[..k + 1] == [list[0]] + list[1..][..k]
  {
    assert list[1..][k + 1..] == list[k + 2..];
    assert list[..k + 1] == [list[0]] + list[1..][..k];
  }

  lemma {:induction false} FirstDropped<T(!new)>(list: seq<T>, x: T) returns (i: nat)
    requires x in list
    ensures FirstGone(list, Drop(list, x), x, i)
  {
    if list[0] == x {
      i := 0;
      assert list[..0] + list[1..] == list[1..];
    } else {
      var k := FirstDropped(list[1..], x);
      i := k + 1;
      LeftOut(list, k);
    }
  }

  /** A new subscription puts the client behind all who listen to the channel; nobody else is touched, and a
      second one changes nothing. */
  lemma SubscribeExactly(s: Index, c: nat, channel: Text)
    requires c < |s.clients|
    ensures var (t, res) := s.Subscribe(c, channel);
            && OthersKept(s, t, c) && OtherChannelsKept(s, t, channel) && t.patterns == s.patterns
            && t.clients[c].patterns == s.clients[c].patterns
            && t.clients[c].channels == s.clients[c].channels + {channel}
            && (channel in s.clients[c].channels ==> t == s && res == 0)
            && (channel !in s.clients[c].channels ==>
                res == 1 && t.Listeners(channel) == s.Listeners(channel) + [c] && channel in t.channels)
  {
    if channel in s.clients[c].channels { assert s.clients[c].channels + {channel} == s.clients[c].channels; }
  }

  /** Leaving a channel takes the client alone out of its list, whose order stays; a list nobody is left in is
      no longer there. */
  lemma UnsubscribeExactly(s: Index, c: nat, channel: Text)
    requires s.ChannelsAgree() && c < |s.clients|
    ensures var (t, res) := s.Unsubscribe(c, channel);
            && OthersKept(s, t, c) && OtherChannelsKept(s, t, channel) && t.patterns == s.patterns
            && t.clients[c].patterns == s.clients[c].patterns
            && t.clients[c].channels == s.clients[c].channels - {channel}
            && (channel !in s.clients[c].channels ==> t == s && res == 0)
            && (channel in s.clients[c].channels ==>
                && res == 1
                && (exists i :: FirstGone(s.Listeners(channel), t.Listeners(channel), c, i))
                && (channel in t.channels <==> s.Listeners(channel) != [c]))
  {
    var (t, res) := s.Unsubscribe(c, channel);
    if channel in s.clients[c].channels {
      var list := s.Listeners(channel);
      assert c in list;
      var i := FirstDropped(list, c);
      if |list| == 1 { assert list == [c]; }
      assert FirstGone(list, t.Listeners(channel), c, i);
    }
  }

  /** A new pattern comes last, in the handler's list and in the client's own; nobody else is touched. */
  lemma SubscribePatternExactly(s: Index, c: nat, pattern: Text)
    requires c < |s.clients|
    ensures var (t, res) := s.SubscribePattern(c, pattern);
            && OthersKept(s, t, c) && t.channels == s.channels && t.clients[c].channels == s.clients[c].channels
            && (pattern in s.clients[c].patterns ==> t == s && res == 0)
            && (pattern !in s.clients[c].patterns ==>
                && res == 1
                && t.patterns == s.patterns + [Entry(c, pattern)]
                && t.clients[c].patterns == s.clients[c].patterns + [pattern])
  {
  }

  lemma {:induction false} OwnedListed(entries: seq<Entry>, c: nat, pattern: Text)
    requires pattern in Own(entries, c)
    ensures Entry(c, pattern) in entries
  {
    assert entries == [entries[0]] + entries[1..];
    OwnCons(entries[0], entries[1..], c);
    if entries[0] != Entry(c, pattern) { OwnedListed(entries[1..], c, pattern); }
  }

  /** Leaving a pattern as it is meant: just this entry goes, from the handler's list and from the client's
      own, and all others stay in order. */
  lemma UnsubscribePatternExactly(s: Index, c: nat, pattern: Text)
    requires s.PatternsAgree() && c < |s.clients|
    ensures var (t, res) := s.UnsubscribePattern(c, pattern, false);
            && OthersKept(s, t, c) && t.channels == s.channels && t.clients[c].channels == s.clients[c].channels
            && (pattern !in s.clients[c].patterns ==> t == s && res == 0)
            && (pattern in s.clients[c].patterns ==>
                && res == 1
                && (exists i :: FirstGone(s.patterns, t.patterns, Entry(c, pattern), i))
                && (exists i :: FirstGone(s.clients[c].patterns, t.clients[c].patterns, pattern, i)))
  {
    if pattern in s.clients[c].patterns {
      assert pattern in Own(s.patterns, c);
      OwnedListed(s.patterns, c, pattern);
      var i := FirstDropped(s.patterns, Entry(c, pattern));
      var k := FirstDropped(s.clients[c].patterns, pattern);
      var t := s.UnsubscribePattern(c, pattern, false).0;
      assert FirstGone(s.patterns, t.patterns, Entry(c, pattern), i);
      assert FirstGone(s.clients[c].patterns, t.clients[c].patterns, pattern, k);
    }
  }

  predicate Another(e: Entry, c: nat, pattern: Text) { e.client == c && e.pattern != pattern }

  /** The client's first entry of another pattern is at `i` and gone, or it has none, `i` being the end. */
  predicate FirstOtherGone(entries: seq<Entry>, rest: seq<Entry>, c: nat, pattern: Text, i: nat) {
    && i <= |entries|
    && (forall j :: 0 <= j < i ==> !Another(entries[j], c, pattern))
    && (i < |entries| ==> Another(entries[i], c, pattern))
    && rest == entries[..i] + if i < |entries| then entries[i + 1..] else []
  }

  lemma OtherGoneLater(entries: seq<Entry>, rest: seq<Entry>, c: nat, pattern: Text, k: nat)
    requires entries != [] && !Another(entries[0], c, pattern)
    requires FirstOtherGone(entries[1..], rest, c, pattern, k)
    ensures FirstOtherGone(entries, [entries[0]] + rest, c, pattern, k + 1)
  {
    if k < |entries| - 1 {
      LeftOut(entries, k);
      assert entries[k + 1] == entries[1..][k];
    } else {
      assert entries[..k + 1] == [entries[0]] + entries[1..][..k];
    }
    forall j | 0 <= j < k + 1 ensures !Another(entries[j], c, pattern) {
      if j > 0 { assert entries[j] == entries[1..][j - 1]; }
    }
  }

  lemma {:induction false} OtherDropped(entries: seq<Entry>, c: nat, pattern: Text) returns (i: nat)
    ensures FirstOtherGone(entries, DropOther(entries, c, pattern), c, pattern, i)
  {
    if entries == [] {
      i := 0;
    } else if Another(entries[0], c, pattern) {
      i := 0;
      assert entries[..0] + entries[1..] == entries[1..];
    } else {
      hide FirstOtherGone;
      var k := OtherDropped(entries[1..], c, pattern);
      i := k + 1;
      OtherGoneLater(entries, DropOther(entries[1..], c, pattern), c, pattern, k);
    }
  }

  /** Leaving a pattern as it is written: the pattern goes from the client's own list, and from the handler's
      list the client's first entry of another pattern, if it has one. */
  lemma InvertedEffect(s: Index, c: nat, pattern: Text) returns (i: nat)
    requires c < |s.clients|
    ensures var (t, res) := s.UnsubscribePattern(c, pattern, true);
            && OthersKept(s, t, c) && t.channels == s.channels && t.clients[c].channels == s.clients[c].channels
            && (pattern !in s.clients[c].patterns ==> t == s && res == 0)
            && (pattern in s.clients[c].patterns ==>
                && res == 1
                && FirstOtherGone(s.patterns, t.patterns, c, pattern, i)
                && (exists k :: FirstGone(s.clients[c].patterns, t.clients[c].patterns, pattern, k)))
  {
    i := 0;
    if pattern in s.clients[c].patterns {
      i := OtherDropped(s.patterns, c, pattern);
      var k := FirstDropped(s.clients[c].patterns, pattern);
      assert FirstGone(s.clients[c].patterns, s.UnsubscribePattern(c, pattern, true).0.clients[c].patterns, pattern, k);
    }
  }

  // --- what is sent ------------------------------------------------------------------------------------------------

  /** The numbers of those whose pattern a channel fits, in the order of their entries. */
  ghost predicate Picks(entries: seq<Entry>, channel: Text, places: seq<nat>) {
    && (forall i, j :: 0 <= i < j < |places| ==> places[i] < places[j])
    && (forall i :: 0 <= i < |places| ==> places[i] < |entries| && Hits(entries[places[i]].pattern, channel))
    && (forall k :: 0 <= k < |entries| && Hits(entries[k].pattern, channel) ==> k in places)
  }

  /** The message to the owners of the entries at these places. */
  function ToOwners(entries: seq<Entry>, places: seq<nat>, channel: Text, message: Text): (r: seq<Sent>)
    requires Within(places, |entries|)
    ensures |r| == |places|
    ensures forall i :: 0 <= i < |r| ==> r[i] == Sent(entries[places[i]].client, channel, message)
  {
    seq(|places|, i requires 0 <= i < |places| => Sent(entries[places[i]].client, channel, message))
  }

  function Moved(places: seq<nat>): (r: seq<nat>)
    ensures |r| == |places| && forall i :: 0 <= i < |r| ==> r[i] == places[i] + 1
  {
    seq(|places|, i requires 0 <= i < |places| => places[i] + 1)
  }

  lemma MovedHas(places: seq<nat>, k: nat)
    requires k in places
    ensures k + 1 in Moved(places)
  {
    var m :| 0 <= m < |places| && places[m] == k;
    assert Moved(places)[m] == k + 1;
  }

  function FirstToo(hit: bool, places: seq<nat>): seq<nat> { if hit then [0] + Moved(places) else Moved(places) }

  lemma MovedUp(places: seq<nat>, hit: bool)
    requires forall i, j :: 0 <= i < j < |places| ==> places[i] < places[j]
    ensures var all := FirstToo(hit, places); forall i, j :: 0 <= i < j < |all| ==> all[i] < all[j]
  {
  }

  lemma PicksMore(entries: seq<Entry>, channel: Text, places: seq<nat>)
    requires entries != [] && Picks(entries[1..], channel, places)
    ensures Picks(entries, channel, FirstToo(Hits(entries[0].pattern, channel), places))
  {
    hide Hits;
    var hit := Hits(entries[0].pattern, channel);
    var all := FirstToo(hit, places);
    MovedUp(places, hit);
    forall i | 0 <= i < |all| ensures all[i] < |entries| && Hits(entries[all[i]].pattern, channel) {
      if !(hit && i == 0) {
        var p := places[if hit then i - 1 else i];
        assert all[i] == p + 1 && entries[1..][p] == entries[p + 1];
      }
    }
    forall k | 0 <= k < |entries| && Hits(entries[k].pattern, channel) ensures k in all {
      if k > 0 {
        assert entries[1..][k - 1] == entries[k];
        MovedHas(places, k - 1);
      } else {
        assert all[0] == 0;
      }
    }
  }

  predicate Within(places: seq<nat>, n: nat) { forall i :: 0 <= i < |places| ==> places[i] < n }

  lemma OwnersMore(entries: seq<Entry>, hit: bool, places: seq<nat>, channel: Text, message: Text)
    requires entries != [] && Within(places, |entries| - 1)
    ensures Within(FirstToo(hit, places), |entries|)
    ensures ToOwners(entries, FirstToo(hit, places), channel, message) ==
            (if hit then [Sent(entries[0].client, channel, message)] else [])
            + ToOwners(entries[1..], places, channel, message)
  {
    var all, rest := FirstToo(hit, places), ToOwners(entries[1..], places, channel, message);
    var moved := ToOwners(entries, Moved(places), channel, message);
    assert moved == rest;
    if hit {
      assert ToOwners(entries, all, channel, message) == [Sent(entries[0].client, channel, message)] + moved;
    } else {
      assert [] + rest == rest;
    }
  }

  lemma {:induction false} Picked(entries: seq<Entry>, channel: Text, message: Text) returns (places: seq<nat>)
    ensures Picks(entries, channel, places) && Within(places, |entries|)
    ensures ToMatching(entries, channel, message) == ToOwners(entries, places, channel, message)
  {
    if entries == [] {
      places := [];
    } else {
      var rest := Picked(entries[1..], channel, message);
      var hit := Hits(entries[0].pattern, channel);
      PicksMore(entries, channel, rest);
      hide Picks, Hits, FirstToo, ToOwners, Within;
      OwnersMore(entries, hit, rest, channel, message);
      places := FirstToo(hit, rest);
    }
  }

  /** First those who listen to the channel are sent the message, in the order in which they subscribed, then
      the owners of the entries that it fits, in the order of the entries. */
  lemma PublishedInOrder(s: Index, channel: Text, message: Text) returns (places: seq<nat>)
    ensures Picks(s.patterns, channel, places) && Within(places, |s.patterns|)
    ensures var sent, list := Published(s, channel, message), s.Listeners(channel);
            && |sent| == |list| + |places|
            && (forall i :: 0 <= i < |list| ==> sent[i] == Sent(list[i], channel, message))
            && sent[|list|..] == ToOwners(s.patterns, places, channel, message)
  {
    hide Hits;
    places := Picked(s.patterns, channel, message);
  }

  /** Who has just subscribed to a channel is sent what is published there, behind all the others. */
  lemma SubscriberHears(s: Index, c: nat, channel: Text, message: Text)
    requires c < |s.clients| && channel !in s.clients[c].channels
    ensures var sent := Published(s.Subscribe(c, channel).0, channel, message);
            && |s.Listeners(channel)| < |sent| && sent[|s.Listeners(channel)|] == Sent(c, channel, message)
  {
    var t := s.Subscribe(c, channel).0;
    SubscribeExactly(s, c, channel);
    var places := PublishedInOrder(t, channel, message);
  }

  /** The empty channel is heard by the empty pattern alone, and a pattern of ordinary characters hears the
      channel of that very name, letter case included, and no other. */
  lemma PlainHits(pattern: Text, channel: Text)
    requires channel == [] || M.Plainly(pattern)
    ensures Hits(pattern, channel) <==> pattern == channel
  {
    if channel != [] { M.OrdinaryMeans(pattern, channel, false); }
  }
}
