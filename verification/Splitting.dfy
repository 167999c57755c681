/** Splitting text at a delimiter. */
module Splitting {

  predicate Occurs(s: string, delim: string, i: nat) { i + |delim| <= |s| && s[i..i + |delim|] == delim }

  /** Where a text occurs first at or after a place; -1 if it does not. */
  function Find(s: string, delim: string, from: nat): (pos: int)
    requires from <= |s|
    ensures pos == -1 || (from <= pos && pos + |delim| <= |s| && Occurs(s, delim, pos))
    ensures forall i :: from <= i && (pos == -1 || i < pos) ==> !Occurs(s, delim, i)
    decreases |s| - from
  {
    if Occurs(s, delim, from) then from
    else if from == |s| then -1
    else Find(s, delim, from + 1)
  }

  /** The first place at or after this one that is no space. */
  function SkipSpaces(s: string, pos: nat): (r: nat)
    requires pos <= |s|
    ensures pos <= r <= |s| && (r < |s| ==> s[r] != ' ') && forall i :: pos <= i < r ==> s[i] == ' '
    decreases |s| - pos
  {
    if pos < |s| && s[pos] == ' ' then SkipSpaces(s, pos + 1) else pos
  }

  /** The pieces from a place on: leading spaces are dropped, and so is what would be an empty last piece. */
  function Split(s: string, delim: string, pos: nat): (pieces: seq<string>)
    requires |delim| > 0
    decreases if pos < |s| then |s| - pos else 0
  {
    if pos >= |s| then []
    else
      var start := SkipSpaces(s, pos);
      if start == |s| then []
      else
        var at := Find(s, delim, start);
        if at < 0 then [s[start..]] else [s[start..at]] + Split(s, delim, at + |delim|)
  }

  /** One round of the loop. */
  lemma SplitStep(s: string, delim: string, pos: nat)
    requires |delim| > 0 && pos < |s|
    ensures var start := SkipSpaces(s, pos);
            Split(s, delim, pos) ==
            if start == |s| then []
            else if Find(s, delim, start) < 0 then [s[start..]]
            else [s[start..Find(s, delim, start)]] + Split(s, delim, Find(s, delim, start) + |delim|)
  {
    hide Find, SkipSpaces;
  }

  lemma SplitNothing(s: string, delim: string, pos: nat)
    requires |delim| > 0 && pos >= |s|
    ensures Split(s, delim, pos) == []
  {
  }

  method SplitString(str: string, delim: string) returns (res: seq<string>)
    requires |delim| > 0
    ensures res == Split(str, delim, 0)
  {
    hide Find, SkipSpaces, Split, Occurs;
    res := [];
    var pos := 0;
    while pos < |str|
      invariant res + Split(str, delim, pos) == Split(str, delim, 0)
      decreases |str| - pos
    {
      SplitStep(str, delim, pos);
      pos := SkipLoop(str, pos);
      if pos >= |str| {
        return;
      }
      var findPos := Find(str, delim, pos);
      if findPos < 0 {
        res := res + [str[pos..]];
        return;
      }
      res := res + [str[pos..findPos]];
      pos := findPos + |delim|;
    }
    SplitNothing(str, delim, pos);
  }

  method SkipLoop(str: string, start: nat) returns (pos: nat)
    requires start < |str|
    ensures pos == SkipSpaces(str, start)
  {
    pos := start;
    while pos < |str| && str[pos] == ' '
      invariant pos <= |str| && SkipSpaces(str, pos) == SkipSpaces(str, start)
    {
      pos := pos + 1;
    }
  }
}
