/**
 The roster of duty groups and `parseGroups`, which reads it from the text of
 the groups file: one group per line, written `Group <n>: name, name, ...`.
 The label pattern `/Group\s*(\d+)/i` is modelled by a scanner over the
 characters of the text before the line's first colon.
 */
module Roster {
  import opened Wrappers
  import opened Text

  /** A duty group: its label and its members, in the order written. */
  datatype Group = Group(number: string, members: seq<string>)

  /** At most this many groups are kept. */
  const MaxGroups := 5

  /** The word the label pattern looks for. */
  const GroupWord := "Group"

  function LowerAscii(c: char): char
  {
    if 'A' <= c <= 'Z' then (c as int + 32) as char else c
  }

  /** Equal up to ASCII letter case, as the `i` flag compares "Group". */
  predicate SameIgnoringCase(a: string, b: string)
    ensures a == b ==> SameIgnoringCase(a, b)
    ensures SameIgnoringCase(a, b) ==> |a| == |b|
  {
    |a| == |b| && forall i :: 0 <= i < |a| ==> LowerAscii(a[i]) == LowerAscii(b[i])
  }

  /** Where the `i` flag matters: a five-character string matches the word
      "Group" exactly when each letter is that letter in either case. */
  lemma GroupWordAnyCase(s: string)
    ensures SameIgnoringCase(s, GroupWord) <==>
      && |s| == 5
      && (s[0] == 'G' || s[0] == 'g') && (s[1] == 'R' || s[1] == 'r')
      && (s[2] == 'O' || s[2] == 'o') && (s[3] == 'U' || s[3] == 'u')
      && (s[4] == 'P' || s[4] == 'p')
  {
    if |s| == 5 {
      assert GroupWord[0] == 'G' && GroupWord[1] == 'r' && GroupWord[2] == 'o';
      assert GroupWord[3] == 'u' && GroupWord[4] == 'p';
    }
  }

  /** The pattern `Group\s*(\d+)` read off s from position i: "Group" in any
      case, then the whitespace w, then the digits d, which run to the end of
      s or to a character that is not a digit (the `+` is greedy). */
  ghost predicate MatchesWith(s: string, i: nat, w: string, d: string)
  {
    var j := i + |GroupWord| + |w|;
    && j + |d| <= |s|
    && SameIgnoringCase(s[i..i + |GroupWord|], GroupWord)
    && s[i + |GroupWord|..j] == w && IsBlank(w)
    && s[j..j + |d|] == d && |d| > 0 && IsDigits(d)
    && (j + |d| == |s| || !IsDigit(s[j + |d|]))
  }

  /** The scanner for the pattern at position i: the captured digits, if the
      pattern matches there. MatchAtSound and MatchAtComplete show it agrees
      with MatchesWith. */
  function MatchAt(s: string, i: nat): (m: Option<string>)
    requires i <= |s|
    ensures m.Some? ==> |m.value| > 0 && IsDigits(m.value)
  {
    if i + |GroupWord| <= |s| && SameIgnoringCase(s[i..i + |GroupWord|], GroupWord) then
      var j := i + |GroupWord| + Span(s[i + |GroupWord|..], Whitespace);
      var d := Span(s[j..], Digit);
      if d > 0 then Some(s[j..j + d]) else None
    else None
  }

  /** What the scanner finds at position i is a match of the pattern there. */
  lemma MatchAtSound(s: string, i: nat)
    requires i <= |s| && MatchAt(s, i).Some?
    ensures exists w :: MatchesWith(s, i, w, MatchAt(s, i).value)
  {
    var g := |GroupWord|;
    var j := i + g + Span(s[i + g..], Whitespace);
    var w := s[i + g..j];
    var d := MatchAt(s, i).value;
    assert IsBlank(w) by {
      assert forall k :: 0 <= k < |w| ==> w[k] == s[i + g..][k];
    }
    assert s[j..j + |d|] == d;
    assert j + |d| < |s| ==> s[j + |d|] == s[j..][|d|];
    assert MatchesWith(s, i, w, d);
  }

  /** Where the pattern matches at position i, the scanner finds its digits. */
  lemma MatchAtComplete(s: string, i: nat, w: string, d: string)
    requires i <= |s| && MatchesWith(s, i, w, d)
    ensures MatchAt(s, i) == Some(d)
  {
    var g := |GroupWord|;
    var j := i + g + |w|;
    SpanOfWhitespace(s, i + g, w, d);
    SpanOfDigits(s, j, d);
  }

  /** The whitespace w at position p, followed by the digits d, is the whole
      run of whitespace there. */
  lemma SpanOfWhitespace(s: string, p: nat, w: string, d: string)
    requires p + |w| + |d| <= |s| && |d| > 0
    requires s[p..p + |w|] == w && IsBlank(w)
    requires s[p + |w|..p + |w| + |d|] == d && IsDigits(d)
    ensures Span(s[p..], Whitespace) == |w|
  {
    assert s[p..][|w|] == d[0];
    assert forall k :: 0 <= k < |w| ==> s[p..][k] == w[k];
    SpanIs(s[p..], Whitespace, |w|);
  }

  /** The digits d at position p, not followed by a digit, are the whole run
      of digits there. */
  lemma SpanOfDigits(s: string, p: nat, d: string)
    requires p + |d| <= |s|
    requires s[p..p + |d|] == d && IsDigits(d)
    requires p + |d| == |s| || !IsDigit(s[p + |d|])
    ensures Span(s[p..], Digit) == |d|
  {
    assert forall k :: 0 <= k < |d| ==> s[p..][k] == d[k];
    assert p + |d| < |s| ==> s[p..][|d|] == s[p + |d|];
    SpanIs(s[p..], Digit, |d|);
  }

  /** The leftmost position at or after i where the pattern matches. */
  function FirstMatchFrom(s: string, i: nat): (p: Option<nat>)
    requires i <= |s|
    ensures p.Some? ==> i <= p.value <= |s| && MatchAt(s, p.value).Some?
    ensures p.Some? ==> forall k :: i <= k < p.value ==> MatchAt(s, k).None?
    ensures p.None? ==> forall k :: i <= k <= |s| ==> MatchAt(s, k).None?
    decreases |s| - i
  {
    if MatchAt(s, i).Some? then Some(i)
    else if i == |s| then None
    else FirstMatchFrom(s, i + 1)
  }

  /** `labelPart.match(/Group\s*(\d+)/i)`'s captured group: the digits of the
      leftmost match, if there is one. */
  function LabelMatch(labelPart: string): (m: Option<string>)
    ensures m.Some? ==> |m.value| > 0 && IsDigits(m.value)
    ensures m.None? <==> forall k :: 0 <= k <= |labelPart| ==> MatchAt(labelPart, k).None?
  {
    match FirstMatchFrom(labelPart, 0)
    case Some(p) => MatchAt(labelPart, p)
    case None => None
  }

  /** The label of the line at position index among the non-empty lines: the
      pattern's digits from the text before the first colon, else index + 1 in
      decimal. */
  function LineLabel(labelPart: string, index: nat): (number: string)
    ensures |number| > 0 && IsDigits(number)
  {
    match LabelMatch(labelPart)
    case Some(digits) => digits
    case None => DecimalString(index + 1)
  }

  /** The members named by the colon-separated pieces of a line: the
      comma-separated names of the second piece, trimmed, empty names dropped;
      none when the line has no second piece or it is empty. */
  function LineMembers(parts: seq<string>): (members: seq<string>)
    ensures forall k :: 0 <= k < |members| ==> members[k] != "" && IsTrimmed(members[k])
  {
    if |parts| >= 2 && parts[1] != "" then NonEmptyTrimmed(Split(parts[1], ',')) else []
  }

  /** A label of decimal digits, and members that are neither empty nor start
      or end with whitespace. */
  predicate IsWellFormed(g: Group)
  {
    && |g.number| > 0 && IsDigits(g.number)
    && forall k :: 0 <= k < |g.members| ==> g.members[k] != "" && IsTrimmed(g.members[k])
  }

  /** The group a (trimmed, non-empty) line yields, where index is its position
      among the non-empty lines. A line without a colon has no members. */
  function ParseLine(line: string, index: nat): (g: Group)
    ensures IsWellFormed(g)
    ensures ':' !in line ==> g.members == []
  {
    var parts := Split(line, ':');
    Group(LineLabel(parts[0], index), LineMembers(parts))
  }

  /** The label is the leftmost pattern match in the text before the first colon. */
  lemma LabelFromPattern(labelPart: string, rest: string, index: nat, i: nat, w: string, d: string)
    requires ':' !in labelPart
    requires i <= |labelPart| && MatchesWith(labelPart, i, w, d)
    requires forall k: nat, w', d' :: k < i ==> !MatchesWith(labelPart, k, w', d')
    ensures ParseLine(labelPart + [':'] + rest, index).number == d
  {
    SplitAtFirst(labelPart, rest, ':');
    forall k | 0 <= k < i
      ensures MatchAt(labelPart, k).None?
    {
      if MatchAt(labelPart, k).Some? {
        MatchAtSound(labelPart, k);
      }
    }
    MatchAtComplete(labelPart, i, w, d);
    assert FirstMatchFrom(labelPart, 0) == Some(i);
  }

  /** Without a match before the first colon, the label is the line's 1-based
      position among the non-empty lines, written in decimal. */
  lemma LabelFromPosition(labelPart: string, rest: string, index: nat)
    requires ':' !in labelPart
    requires forall k: nat, w, d :: k <= |labelPart| ==> !MatchesWith(labelPart, k, w, d)
    ensures var number := ParseLine(labelPart + [':'] + rest, index).number;
      && number == DecimalString(index + 1)
      && IsDigits(number) && DecimalValue(number) == index + 1
  {
    SplitAtFirst(labelPart, rest, ':');
    forall k | 0 <= k <= |labelPart|
      ensures MatchAt(labelPart, k).None?
    {
      if MatchAt(labelPart, k).Some? {
        MatchAtSound(labelPart, k);
      }
    }
    assert LabelMatch(labelPart).None?;
  }

  /** The first two colon-separated pieces of a line whose text before the
      first colon and between the first two colons has no colon. */
  lemma ColonPieces(labelPart: string, names: string, tail: string)
    requires ':' !in labelPart && ':' !in names
    requires tail == [] || tail[0] == ':'
    ensures var parts := Split(labelPart + [':'] + names + tail, ':');
      |parts| >= 2 && parts[0] == labelPart && parts[1] == names
  {
    assert labelPart + [':'] + names + tail == labelPart + [':'] + (names + tail);
    SplitAtFirst(labelPart, names + tail, ':');
    if tail == [] {
      SplitWithoutSeparator(names, ':');
    } else {
      assert names + tail == names + [':'] + tail[1..];
      SplitAtFirst(names, tail[1..], ':');
    }
  }

  /** The members are the comma-separated names between the first colon and
      the second one (or the end of the line), trimmed, empty names dropped. */
  lemma MembersBetweenColons(labelPart: string, names: string, tail: string, index: nat)
    requires ':' !in labelPart && ':' !in names
    requires tail == [] || tail[0] == ':'
    ensures ParseLine(labelPart + [':'] + names + tail, index).members == NonEmptyTrimmed(Split(names, ','))
  {
    ColonPieces(labelPart, names, tail);
    if names == "" {
      SplitWithoutSeparator(names, ',');
      TrimmedIsFixed("");
      assert NonEmptyTrimmed([""]) == [];
    }
  }

  /** Whatever follows a second colon does not matter. */
  lemma SecondColonIgnored(labelPart: string, names: string, tail1: string, tail2: string, index: nat)
    requires ':' !in labelPart && ':' !in names
    ensures ParseLine(labelPart + [':'] + names + [':'] + tail1, index)
         == ParseLine(labelPart + [':'] + names + [':'] + tail2, index)
  {
    ColonPieces(labelPart, names, [':'] + tail1);
    ColonPieces(labelPart, names, [':'] + tail2);
    assert labelPart + [':'] + names + [':'] + tail1 == labelPart + [':'] + names + ([':'] + tail1);
    assert labelPart + [':'] + names + [':'] + tail2 == labelPart + [':'] + names + ([':'] + tail2);
  }

  /** `.map((line, index) => ...)`: each line parsed with its position. */
  function ParseLines(lines: seq<string>): (gs: seq<Group>)
    ensures forall g :: g in gs ==> IsWellFormed(g)
  {
    seq(|lines|, k requires 0 <= k < |lines| => ParseLine(lines[k], k))
  }

  /** a can be obtained from b by deleting elements. */
  ghost predicate IsSubsequence<T>(a: seq<T>, b: seq<T>)
    decreases |b|
  {
    if |a| == 0 then true
    else if |b| == 0 then false
    else if a[0] == b[0] then IsSubsequence(a[1..], b[1..])
    else IsSubsequence(a, b[1..])
  }

  /** A prefix of a subsequence is a subsequence. */
  lemma {:induction false} SubsequencePrefix<T>(a: seq<T>, b: seq<T>, n: nat)
    requires IsSubsequence(a, b) && n <= |a|
    ensures IsSubsequence(a[..n], b)
    decreases |b|
  {
    if n > 0 && |b| > 0 {
      if a[0] == b[0] {
        SubsequencePrefix(a[1..], b[1..], n - 1);
        assert a[..n][1..] == a[1..][..n - 1];
      } else {
        SubsequencePrefix(a, b[1..], n);
      }
    }
  }

  /** `.filter((group) => group.members.length > 0)`: the groups that have
      members, in their original order, and no others. */
  function WithMembers(gs: seq<Group>): (r: seq<Group>)
    ensures forall g :: g in r <==> g in gs && g.members != []
    ensures IsSubsequence(r, gs)
  {
    if |gs| == 0 then []
    else
      var rest := WithMembers(gs[1..]);
      assert forall g :: g in gs <==> g == gs[0] || g in gs[1..];
      if gs[0].members != [] then
        assert ([gs[0]] + rest)[1..] == rest;
        [gs[0]] + rest
      else rest
  }

  /** One group: kept exactly when it has members. */
  lemma WithMembersSingle(g: Group)
    ensures WithMembers([g]) == if g.members != [] then [g] else []
  {
    assert [g][1..] == [];
  }

  /** Groups are filtered one by one, in order, each kept at most once: the
      result for a + b is the result for a followed by the result for b. */
  lemma {:induction false} WithMembersAppend(a: seq<Group>, b: seq<Group>)
    ensures WithMembers(a + b) == WithMembers(a) + WithMembers(b)
    decreases |a|
  {
    if |a| > 0 {
      assert (a + b)[0] == a[0];
      assert (a + b)[1..] == a[1..] + b;
      WithMembersAppend(a[1..], b);
    } else {
      assert a + b == b;
    }
  }

  /** The groups of the non-empty trimmed lines of text, before the groups
      without members are dropped: one per such line, parsed with its
      position among them. */
  function LabelledLines(text: string): (gs: seq<Group>)
    ensures var lines := NonEmptyTrimmed(Split(text, '\n'));
      |gs| == |lines| && forall k :: 0 <= k < |gs| ==> gs[k] == ParseLine(lines[k], k)
  {
    ParseLines(NonEmptyTrimmed(Split(text, '\n')))
  }

  /** `parseGroups`: at most five groups, each well formed and with at least
      one member, each from a line of the text. ParseGroupsFirstFive,
      ParseGroupsInOrder and ParseGroupsComplete say exactly which. */
  function ParseGroups(text: string): (roster: seq<Group>)
    ensures |roster| <= MaxGroups
    ensures forall g :: g in roster ==> g.members != [] && IsWellFormed(g) && g in LabelledLines(text)
  {
    var groups := WithMembers(LabelledLines(text));
    groups[..if |groups| < MaxGroups then |groups| else MaxGroups]
  }

  /** Exactly the first five groups that have members (all of them when there
      are fewer), in order. */
  lemma ParseGroupsFirstFive(text: string)
    ensures var groups := WithMembers(LabelledLines(text));
      |ParseGroups(text)| == (if |groups| < MaxGroups then |groups| else MaxGroups)
      && ParseGroups(text) == groups[..|ParseGroups(text)|]
  {
  }

  /** The groups come in the order of their lines. */
  lemma ParseGroupsInOrder(text: string)
    ensures IsSubsequence(ParseGroups(text), LabelledLines(text))
  {
    var groups := WithMembers(LabelledLines(text));
    SubsequencePrefix(groups, LabelledLines(text), |ParseGroups(text)|);
  }

  /** Only the cap drops a group that has members: with fewer than five
      groups, every line's group that has members is there. */
  lemma ParseGroupsComplete(text: string, g: Group)
    requires |ParseGroups(text)| < MaxGroups
    requires g in LabelledLines(text) && g.members != []
    ensures g in ParseGroups(text)
  {
    var groups := WithMembers(LabelledLines(text));
    assert ParseGroups(text) == groups;
  }

}
