/**
 The assignment table: for each week key, for each day key, the name of the
 person assigned that night. The board reads and writes it whole; these are
 the transitions its drop and click handlers make, as functions from the old
 table to the new one.
 */
module Assignments {
  import opened Wrappers

  /** Day key to assigned name, for one week. */
  type WeekTable = map<string, string>

  /** Week key to that week's assignments. */
  type Table = map<string, WeekTable>

  /** The drag source a member card from the group list carries. */
  const MemberList := "member-list"

  /** `assignments[week] || {}`: a week without an entry has no assignments. */
  function WeekOf(t: Table, week: string): (w: WeekTable)
    ensures forall d :: d in w <==> week in t && d in t[week]
    ensures forall d :: d in w ==> w[d] == t[week][d]
  {
    if week in t then t[week] else map[]
  }

  /** `assignments[week]?.[day]`, read as the handlers read it: a slot holding
      the empty string counts as free, as JavaScript treats "" as false. */
  function Occupant(t: Table, week: string, day: string): (o: Option<string>)
    ensures o.Some? <==> week in t && day in t[week] && t[week][day] != ""
    ensures o.Some? ==> o.value == t[week][day]
  {
    var w := WeekOf(t, week);
    if day in w && w[day] != "" then Some(w[day]) else None
  }

  /** How the drop handler ends. */
  datatype DropOutcome =
    | Placed     // the name was written to the slot
    | NoName     // nothing was dragged: the handler returns at once
    | SlotTaken  // the night is already taken by someone dragged from elsewhere

  /** The checks of the drop handler, in its order: an empty name is ignored;
      a taken slot rejects every drop except one from that same slot. */
  function DropVerdict(t: Table, week: string, day: string, name: string, source: string): (v: DropOutcome)
    ensures v == NoName <==> name == ""
    ensures v == SlotTaken <==> name != "" && Occupant(t, week, day).Some? && source != day
  {
    if name == "" then NoName
    else if Occupant(t, week, day).Some? && source != day then SlotTaken
    else Placed
  }

  /** The drag started on another night's card (not on the group list and not
      on this same slot), so that night is vacated by the move. */
  predicate IsMoveFrom(source: string, day: string)
  {
    source != "" && source != MemberList && source != day
  }

  /** The table after dropping name, dragged from source, onto the night day of
      week. A rejected drop changes nothing. An accepted one writes the name to
      the slot, vacates the source night of the same week when the card came
      from another night, always writes the week's entry, and leaves every
      other week and every other night as it was. */
  function AfterDrop(t: Table, week: string, day: string, name: string, source: string): (t': Table)
    ensures DropVerdict(t, week, day, name, source) != Placed ==> t' == t
    ensures DropVerdict(t, week, day, name, source) == Placed ==>
      && week in t' && day in t'[week] && t'[week][day] == name
      && (IsMoveFrom(source, day) ==> source !in t'[week])
      && (forall d :: d != day && !(IsMoveFrom(source, day) && d == source) ==>
            (d in t'[week] <==> d in WeekOf(t, week))
            && (d in t'[week] ==> t'[week][d] == WeekOf(t, week)[d]))
    ensures forall w :: w != week ==> (w in t' <==> w in t) && (w in t ==> t'[w] == t[w])
  {
    if DropVerdict(t, week, day, name, source) != Placed then t
    else
      var w := WeekOf(t, week);
      var vacated := if IsMoveFrom(source, day) then w - {source} else w;
      t[week := vacated[day := name]]
  }

  /** The table after clicking the card on the night day of week: that night is
      free, the week's entry is written back (possibly empty), and nothing else
      changes. */
  function AfterRemove(t: Table, week: string, day: string): (t': Table)
    ensures week in t' && day !in t'[week]
    ensures forall d :: d != day ==>
      (d in t'[week] <==> d in WeekOf(t, week))
      && (d in t'[week] ==> t'[week][d] == WeekOf(t, week)[d])
    ensures forall w :: w != week ==> (w in t' <==> w in t) && (w in t ==> t'[w] == t[w])
  {
    t[week := WeekOf(t, week) - {day}]
  }

  /** Removing twice is removing once. */
  lemma RemoveIdempotent(t: Table, week: string, day: string)
    ensures AfterRemove(AfterRemove(t, week, day), week, day) == AfterRemove(t, week, day)
  {
    var once := AfterRemove(t, week, day);
    assert once[week] - {day} == once[week];
  }

  /** Every stored name is a real name: the drop handler never stores "". */
  ghost predicate AllNamed(t: Table)
  {
    forall w, d :: w in t && d in t[w] ==> t[w][d] != ""
  }

  /** Drops and removals keep every stored name non-empty. */
  lemma TransitionsKeepNames(t: Table, week: string, day: string, name: string, source: string)
    requires AllNamed(t)
    ensures AllNamed(AfterDrop(t, week, day, name, source))
    ensures AllNamed(AfterRemove(t, week, day))
  {
    var t' := AfterDrop(t, week, day, name, source);
    forall w, d | w in t' && d in t'[w]
      ensures t'[w][d] != ""
    {
      if w == week && DropVerdict(t, week, day, name, source) == Placed && d != day && d != source {
        assert d in WeekOf(t, week);
      }
    }
  }

  /** A move between nights is not a copy: when a name is dragged from a
      taken night of the week to a night with no entry, the week keeps the same
      number of entries. */
  lemma MoveKeepsCount(t: Table, week: string, day: string, name: string, source: string)
    requires DropVerdict(t, week, day, name, source) == Placed
    requires IsMoveFrom(source, day)
    requires source in WeekOf(t, week) && day !in WeekOf(t, week)
    ensures |AfterDrop(t, week, day, name, source)[week]| == |WeekOf(t, week)|
  {
    var w := WeekOf(t, week);
    var vacated := w - {source};
    assert vacated.Keys == w.Keys - {source};
    assert |vacated.Keys| == |w.Keys| - 1;
    assert vacated[day := name].Keys == vacated.Keys + {day};
  }

  /** Dragging a card from the group list onto a night with no entry adds one
      entry to the week. */
  lemma PlaceAddsOne(t: Table, week: string, day: string, name: string)
    requires name != "" && day !in WeekOf(t, week) && day != MemberList
    ensures |AfterDrop(t, week, day, name, MemberList)[week]| == |WeekOf(t, week)| + 1
  {
    var w := WeekOf(t, week);
    assert w[day := name].Keys == w.Keys + {day};
  }

  /** Dropping a card back onto its own night changes no entry. */
  lemma DropOnOwnSlot(t: Table, week: string, day: string)
    requires week in t && day in t[week] && t[week][day] != ""
    ensures AfterDrop(t, week, day, t[week][day], day) == t
  {
    assert t[week][day := t[week][day]] == t[week];
  }

  /** Alice holds 8 January in the week of 7 January 2024; dropping Bob there
      from the group list is rejected and the table stays as it was. */
  lemma ConflictExample()
    ensures var t := map["2024-01-07" := map["2024-01-08" := "Alice"]];
      && DropVerdict(t, "2024-01-07", "2024-01-08", "Bob", MemberList) == SlotTaken
      && AfterDrop(t, "2024-01-07", "2024-01-08", "Bob", MemberList) == t
  {
  }

  /** Dragging Alice's card from 8 January to 9 January moves her. */
  lemma MoveExample()
    ensures var t := map["2024-01-07" := map["2024-01-08" := "Alice"]];
      AfterDrop(t, "2024-01-07", "2024-01-09", "Alice", "2024-01-08")
        == map["2024-01-07" := map["2024-01-09" := "Alice"]]
  {
    var w: WeekTable := map["2024-01-08" := "Alice"];
    assert w - {"2024-01-08"} == map[];
  }

}
