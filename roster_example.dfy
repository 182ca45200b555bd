/**
 A worked example of `parseGroups`: a roster file of three lines, the second
 of which names no one. Each step is proved about its own small piece of text.
 */
module RosterExample {
  import opened Text
  import opened Roster

  /** A single leading space is all Trim cuts from a name written after a
      separator. */
  lemma TrimLeadingSpace(s: string)
    requires |s| > 1 && s[0] == ' ' && IsTrimmed(s[1..])
    ensures Trim(s) == s[1..]
  {
    SpanIs(s, Whitespace, 1);
    TrimmedIsFixed(s[1..]);
    SpanIs(s[1..], Whitespace, 0);
  }

  /** " Ann, Bo" names Ann and Bo. */
  lemma NamesAnnBo(ann: string, bo: string, names: string)
    requires ann == " Ann" && bo == " Bo" && names == ann + "," + bo
    ensures NonEmptyTrimmed(Split(names, ',')) == ["Ann", "Bo"]
  {
    assert names == ann + [','] + bo;
    SplitAtFirst(ann, bo, ',');
    SplitWithoutSeparator(bo, ',');
    TrimLeadingSpace(ann);
    TrimLeadingSpace(bo);
  }

  /** " Cid" names Cid. */
  lemma NamesCid(names: string)
    requires names == " Cid"
    ensures NonEmptyTrimmed(Split(names, ',')) == ["Cid"]
  {
    SplitWithoutSeparator(names, ',');
    TrimLeadingSpace(names);
  }

  /** "Group <d>", for a single digit d, matches the label pattern at its
      start, capturing d. */
  lemma SingleDigitLabel(labelPart: string, d: string)
    requires |d| == 1 && IsDigit(d[0]) && labelPart == GroupWord + " " + d
    ensures MatchesWith(labelPart, 0, " ", d)
  {
    assert labelPart[..|GroupWord|] == GroupWord;
    assert labelPart[|GroupWord|..|GroupWord| + 1] == " ";
    assert labelPart[|GroupWord| + 1..] == d;
  }

  /** A line "<label>:<names>" whose label matches the pattern at its start
      with the given whitespace and digits. */
  lemma LabelledLine(labelPart: string, names: string, line: string, index: nat, w: string, d: string)
    requires ':' !in labelPart && ':' !in names
    requires line == labelPart + ":" + names
    requires MatchesWith(labelPart, 0, w, d)
    ensures ParseLine(line, index) == Group(d, NonEmptyTrimmed(Split(names, ',')))
  {
    assert line == labelPart + [':'] + names;
    LabelFromPattern(labelPart, names, index, 0, w, d);
    assert line == labelPart + [':'] + names + [];
    MembersBetweenColons(labelPart, names, [], index);
  }

  /** The file splits into its three lines. */
  lemma ExampleSplit(first: string, second: string, third: string, text: string)
    requires '\n' !in first && '\n' !in second && '\n' !in third
    requires text == first + "\n" + second + "\n" + third
    ensures Split(text, '\n') == [first, second, third]
  {
    assert text == first + ['\n'] + (second + ['\n'] + third);
    SplitAtFirst(first, second + ['\n'] + third, '\n');
    SplitAtFirst(second, third, '\n');
    SplitWithoutSeparator(third, '\n');
  }

  /** Three lines that are already trimmed and not empty are kept as they are. */
  lemma TrimmedThree(first: string, second: string, third: string)
    requires first != "" && second != "" && third != ""
    requires IsTrimmed(first) && IsTrimmed(second) && IsTrimmed(third)
    ensures NonEmptyTrimmed([first, second, third]) == [first, second, third]
  {
    TrimmedIsFixed(first);
    TrimmedIsFixed(second);
    TrimmedIsFixed(third);
    assert NonEmptyTrimmed([third]) == [third];
    assert [second, third][1..] == [third];
    assert NonEmptyTrimmed([second, third]) == [second, third];
    assert [first, second, third][1..] == [second, third];
  }

  /** Each line of a three-line file parsed with its position. */
  lemma LabelledThree(first: string, second: string, third: string, text: string)
    requires NonEmptyTrimmed(Split(text, '\n')) == [first, second, third]
    ensures var gs := LabelledLines(text);
      && |gs| == 3 && gs[0] == ParseLine(first, 0)
      && gs[1] == ParseLine(second, 1) && gs[2] == ParseLine(third, 2)
  {
    var gs := ParseLines([first, second, third]);
    assert gs[0] == ParseLine(first, 0);
    assert gs[1] == ParseLine(second, 1);
    assert gs[2] == ParseLine(third, 2);
    assert LabelledLines(text) == gs;
  }

  /** Of three groups, the middle one without members is dropped. */
  lemma WithMembersThree(gs: seq<Group>)
    requires |gs| == 3 && gs[0].members != [] && gs[1].members == [] && gs[2].members != []
    ensures WithMembers(gs) == [gs[0], gs[2]]
  {
    assert gs[1..][1..] == [gs[2]];
    assert WithMembers([gs[2]]) == [gs[2]];
  }

  /** The first line is neither empty nor padded, and is one line. */
  lemma FirstLineShape(first: string)
    requires first == "Group 2" + ":" + " Ann" + "," + " Bo"
    ensures first != "" && '\n' !in first && IsTrimmed(first)
  {
  }

  /** The first line: labelled 2, naming Ann and Bo. */
  lemma FirstLine(first: string)
    requires first == "Group 2" + ":" + " Ann" + "," + " Bo"
    ensures ParseLine(first, 0) == Group("2", ["Ann", "Bo"])
  {
    SingleDigitLabel("Group 2", "2");
    LabelledLine("Group 2", " Ann" + "," + " Bo", first, 0, " ", "2");
    NamesAnnBo(" Ann", " Bo", " Ann" + "," + " Bo");
  }

  /** The second line is neither empty nor padded, and has no colon, so it
      names no one. */
  lemma SecondLine(second: string)
    requires second == "invalid line"
    ensures second != "" && '\n' !in second && IsTrimmed(second)
    ensures ParseLine(second, 1).members == []
  {
  }

  /** The third line is neither empty nor padded, and is one line. */
  lemma ThirdLineShape(third: string)
    requires third == "Group 1" + ":" + " Cid"
    ensures third != "" && '\n' !in third && IsTrimmed(third)
  {
  }

  /** The third line: labelled 1, naming Cid. */
  lemma ThirdLine(third: string)
    requires third == "Group 1" + ":" + " Cid"
    ensures ParseLine(third, 2) == Group("1", ["Cid"])
  {
    SingleDigitLabel("Group 1", "1");
    LabelledLine("Group 1", " Cid", third, 2, " ", "1");
    NamesCid(" Cid");
  }

  /** A roster file whose second line names no one: that line is dropped, and
      the other two keep the labels written on them and their order. */
  lemma ParseGroupsExample(first: string, second: string, third: string, text: string)
    requires first == "Group 2" + ":" + " Ann" + "," + " Bo"
    requires second == "invalid line"
    requires third == "Group 1" + ":" + " Cid"
    requires text == first + "\n" + second + "\n" + third
    ensures ParseGroups(text) == [Group("2", ["Ann", "Bo"]), Group("1", ["Cid"])]
  {
    FirstLineShape(first);
    FirstLine(first);
    SecondLine(second);
    ThirdLineShape(third);
    ThirdLine(third);
    ExampleSplit(first, second, third, text);
    TrimmedThree(first, second, third);
    LabelledThree(first, second, third, text);
    WithMembersThree(LabelledLines(text));
  }

}
