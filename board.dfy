/**
 The duty board's state and the event handlers that change it: the week
 being shown, the roster loaded from the groups file, and the stored
 assignment table. Each handler loads the table, changes it, and stores it
 back whole; `assignments` stands for the stored copy.
 */
module Board {
  import opened Wrappers
  import Week
  import opened Roster
  import Rotation
  import opened Assignments

  class DutyBoard {
    /** `currentWeekStart`, as a day number. */
    var weekStart: int
    /** `groups`. */
    var groups: seq<Group>
    /** The stored assignment table. */
    var assignments: Table

    /** The week shown always starts on a Sunday, and the roster obeys the
        parser's bound. */
    ghost predicate Valid()
      reads this
    {
      Week.IsSunday(weekStart) && |groups| <= MaxGroups
    }

    /** Page load: the week of today, no groups yet, the stored table as it is. */
    constructor (today: int, stored: Table)
      ensures Valid()
      ensures weekStart == Week.WeekStart(today)
      ensures groups == [] && assignments == stored
    {
      weekStart := Week.WeekStart(today);
      groups := [];
      assignments := stored;
    }

    /** The "previous week" button: exactly seven days back, one week offset
        lower. */
    method PreviousWeek()
      requires Valid()
      modifies this`weekStart
      ensures Valid()
      ensures weekStart == old(weekStart) - Week.DaysPerWeek
      ensures Week.WeekOffset(weekStart) == Week.WeekOffset(old(weekStart)) - 1
    {
      Week.WeekOffsetShift(weekStart, -1);
      weekStart := weekStart - Week.DaysPerWeek;
    }

    /** The "next week" button: exactly seven days on, one week offset higher. */
    method NextWeek()
      requires Valid()
      modifies this`weekStart
      ensures Valid()
      ensures weekStart == old(weekStart) + Week.DaysPerWeek
      ensures Week.WeekOffset(weekStart) == Week.WeekOffset(old(weekStart)) + 1
    {
      Week.WeekOffsetShift(weekStart, 1);
      weekStart := weekStart + Week.DaysPerWeek;
    }

    /** `loadGroups`: the text of the groups file when it could be fetched,
        nothing when the fetch failed; a failure leaves the roster empty. */
    method LoadGroups(fetched: Option<string>)
      requires Valid()
      modifies this`groups
      ensures Valid()
      ensures groups == match fetched
        case Some(text) => ParseGroups(text)
        case None => []
    {
      match fetched
      case Some(text) =>
        groups := ParseGroups(text);
      case None =>
        groups := [];
    }

    /** The group `renderGroup` shows for the current week; none when the
        roster is empty. */
    function OnDuty(): (g: Option<Group>)
      reads this
      ensures g.None? <==> groups == []
      ensures groups != [] ==> g == Some(groups[Week.WeekOffset(weekStart) % |groups|])
    {
      Rotation.OnDuty(weekStart, groups)
    }

    /** The drop handler of the card for night dayKey of week weekKey: name and
        source are what the drag carried. */
    method Drop(weekKey: string, dayKey: string, name: string, source: string) returns (outcome: DropOutcome)
      modifies this`assignments
      ensures outcome == DropVerdict(old(assignments), weekKey, dayKey, name, source)
      ensures assignments == AfterDrop(old(assignments), weekKey, dayKey, name, source)
    {
      if name == "" {
        return NoName;
      }
      var weekAssignments := WeekOf(assignments, weekKey);
      if dayKey in weekAssignments && weekAssignments[dayKey] != "" && source != dayKey {
        return SlotTaken;
      }
      if source != "" && source != MemberList && source != dayKey {
        weekAssignments := weekAssignments - {source};
      }
      weekAssignments := weekAssignments[dayKey := name];
      assignments := assignments[weekKey := weekAssignments];
      outcome := Placed;
    }

    /** The click handler of the card on night dayKey of week weekKey. */
    method Remove(weekKey: string, dayKey: string)
      modifies this`assignments
      ensures assignments == AfterRemove(old(assignments), weekKey, dayKey)
    {
      var weekAssignments := WeekOf(assignments, weekKey);
      weekAssignments := weekAssignments - {dayKey};
      assignments := assignments[weekKey := weekAssignments];
    }
  }

}
