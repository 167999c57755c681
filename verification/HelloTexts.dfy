/** What a hello message looks like, and what becomes of messages that are not quite like that. */
module HelloTexts {
  import opened Decimals
  import opened Splitting
  import opened Options
  import opened HelloMessages

  /** Fields behind one another with a comma between each two. */
  function Joined(fields: seq<string>): string
    requires fields != []
  {
    if |fields| == 1 then fields[0] else fields[0] + "," + Joined(fields[1..])
  }

  lemma {:induction false} TerminatedJoined(fields: seq<string>, last: string)
    ensures Terminated(fields) + last == Joined(fields + [last])
  {
    if fields == [] {
      assert fields + [last] == [last];
    } else {
      TerminatedCons(fields, last);
      TerminatedJoined(fields[1..], last);
      assert (fields + [last])[1..] == fields[1..] + [last];
    }
  }

  /** The fields in the order in which they stand in the text. */
  lemma TextIs(h: Hello)
    ensures h.Text() == Joined([h.ip, ToString(h.port), h.runid, ToString(h.epoch),
                                h.masterName, h.masterIp, ToString(h.masterPort), ToString(h.masterEpoch)])
  {
    hide ToString, Joined, Terminated;
    TerminatedJoined(h.Fields(), ToString(h.masterEpoch));
    assert h.Fields() + [ToString(h.masterEpoch)]
        == [h.ip, ToString(h.port), h.runid, ToString(h.epoch),
            h.masterName, h.masterIp, ToString(h.masterPort), ToString(h.masterEpoch)];
  }

  /** Of a text that is too long the first 1069 characters are sent. */
  lemma PayloadIs(h: Hello)
    ensures |h.Payload()| == if |h.Text()| < 1070 then |h.Text()| else 1069
    ensures h.Payload() == h.Text()[..|h.Payload()|]
  {
  }

  /** Of messages whose fields can be told apart just those with eight are taken. */
  lemma EightExactly(fields: seq<string>, last: string)
    requires (forall i :: 0 <= i < |fields| ==> Clean(fields[i])) && Clean(last) && last != []
    ensures Parse(Terminated(fields) + last).Some? <==> |fields| + 1 == 8
  {
    hide Split, Clean, Terminated;
    SplitExactly(fields, last);
  }

  // --- numbers in fields -------------------------------------------------------------------------------------------

  predicate Blank(s: string) { forall i :: 0 <= i < |s| ==> IsSpace(s[i]) }

  lemma {:induction false} Blanks(spaces: string, s: string)
    requires Blank(spaces) && (s != [] ==> !IsSpace(s[0]))
    ensures WithoutSpaces(spaces + s) == s
  {
    if spaces == [] {
      assert spaces + s == s;
    } else {
      assert (spaces + s)[1..] == spaces[1..] + s;
      Blanks(spaces[1..], s);
    }
  }

  lemma {:induction false} PrefixEnds(digits: string, rest: string)
    requires Digits(digits) && (rest != [] ==> !IsDigit(rest[0]))
    ensures DigitPrefix(digits + rest) == |digits|
  {
    if digits == [] {
      assert digits + rest == rest;
    } else {
      assert (digits + rest)[1..] == digits[1..] + rest;
      PrefixEnds(digits[1..], rest);
    }
  }

  lemma SignedIs(sign: string, n: nat, rest: string)
    requires (sign == "" || sign == "+" || sign == "-") && (rest != [] ==> !IsDigit(rest[0]))
    ensures Signed(sign + Decimal(n) + rest) == if sign == "-" then 0 - n else n
  {
    hide Decimal, Value, DigitPrefix;
    var t := Decimal(n) + rest;
    PrefixEnds(Decimal(n), rest);
    assert t[..|Decimal(n)|] == Decimal(n);
    ValueOfDecimal(n);
    assert sign + Decimal(n) + rest == sign + t;
    if sign == "" { assert sign + t == t; } else { assert (sign + t)[1..] == t; }
  }

  /** White space is the blank and the characters from the tabulator to the carriage return. */
  lemma SpacesAre(c: char)
    ensures IsSpace(c) <==> c as int in {32, 9, 10, 11, 12, 13}
  {
  }

  /** A number is read with white space and a sign in front, and whatever comes behind its last digit. */
  lemma NumberRead(spaces: string, sign: string, n: nat, rest: string)
    requires Blank(spaces) && (sign == "" || sign == "+" || sign == "-") && (rest != [] ==> !IsDigit(rest[0]))
    ensures ReadDecimal(spaces + (sign + Decimal(n) + rest)) == if sign == "-" then 0 - n else n
  {
    hide Decimal, Signed, WithoutSpaces;
    var s := sign + Decimal(n) + rest;
    assert s[0] == if sign == "" then Decimal(n)[0] else sign[0];
    Blanks(spaces, s);
    SignedIs(sign, n, rest);
  }

  /** A text that does not start with a number counts as zero. */
  lemma NoNumber(s: string)
    requires s != [] ==> !IsDigit(s[0]) && s[0] != '+' && s[0] != '-' && !IsSpace(s[0])
    ensures ReadDecimal(s) == 0
  {
    assert WithoutSpaces(s) == s;
  }

  /** An unsigned number too large for 64 bits is taken for the largest, and a negative one counts down from
      the largest. */
  lemma UnsignedRead(n: nat)
    requires n > 0
    ensures ReadUnsigned(Decimal(n)) == if n < 0x1_0000_0000_0000_0000 then n else 0xFFFF_FFFF_FFFF_FFFF
    ensures ReadUnsigned("-" + Decimal(n)) ==
            if n < 0x1_0000_0000_0000_0000 then 0x1_0000_0000_0000_0000 - n else 0xFFFF_FFFF_FFFF_FFFF
  {
    hide Decimal, ReadDecimal;
    NumberRead("", "", n, "");
    NumberRead("", "-", n, "");
    assert "" + ("" + Decimal(n) + "") == Decimal(n);
    assert "" + ("-" + Decimal(n) + "") == "-" + Decimal(n);
  }
}
