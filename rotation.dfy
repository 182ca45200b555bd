/**
 Which group is on duty in a week: the week's offset from the base week,
 reduced modulo the number of groups with JavaScript's remainder operator
 (`((offset % n) + n) % n`), picks the group. With no groups there is no
 group on duty and the board shows an empty state instead.
 */
module Rotation {
  import opened Wrappers
  import Week
  import opened Roster

  /** Division with a remainder in [0, n) has only one answer. */
  lemma DivModUnique(a: int, n: int, q: int, r: int)
    requires n > 0 && 0 <= r < n && a == n * q + r
    ensures a / n == q && a % n == r
  {
    var q', r' := a / n, a % n;
    assert a == n * q' + r';
    if q' != q {
      var lo, hi := if q' < q then q' else q, if q' < q then q else q';
      MulGap(n, lo, hi);
      assert false;
    }
  }

  /** Multiples of n for different factors are at least n apart. */
  lemma MulGap(n: int, lo: int, hi: int)
    requires n > 0 && lo < hi
    ensures n * hi >= n * lo + n
  {
    var m := hi - lo - 1;
    assert n * hi == n * lo + n * m + n;
    assert n * m >= 0;
  }

  /** A multiple of n leaves no remainder. */
  lemma MultipleHasNoRemainder(q: int, n: int)
    requires n > 0
    ensures (n * q) % n == 0
  {
    DivModUnique(n * q, n, q, 0);
  }

  /** JavaScript's `a % n` for a positive divisor: the remainder of the
      division truncated toward zero, so it has the sign of the dividend, and
      it differs from a by a multiple of n. */
  function JsRemainder(a: int, n: int): (r: int)
    requires n > 0
    ensures a >= 0 ==> 0 <= r < n
    ensures a < 0 ==> -n < r <= 0
    ensures (a - r) % n == 0
  {
    if a >= 0 then
      var r := a % n;
      assert a - r == n * (a / n);
      MultipleHasNoRemainder(a / n, n);
      r
    else
      var r := -((-a) % n);
      assert a - r == n * -((-a) / n);
      MultipleHasNoRemainder(-((-a) / n), n);
      r
  }

  /** Adding a multiple of n does not change the remainder modulo n. */
  lemma ModAddMultiple(a: int, k: int, n: int)
    requires n > 0
    ensures (a + k * n) % n == a % n
  {
    assert a == n * (a / n) + a % n;
    assert a + k * n == n * (a / n + k) + a % n;
    DivModUnique(a + k * n, n, a / n + k, a % n);
  }

  /** Numbers whose difference is divisible by n leave the same remainder. */
  lemma SameRemainder(a: int, b: int, n: int)
    requires n > 0 && (a - b) % n == 0
    ensures a % n == b % n
  {
    var k := (a - b) / n;
    assert a == b + k * n;
    ModAddMultiple(b, k, n);
  }

  /** The rotation index `((offset % n) + n) % n`: for every offset, negative
      ones included, it is the mathematical offset modulo n, so it lies in
      [0, n). */
  function GroupIndex(offset: int, n: int): (i: int)
    requires n > 0
    ensures 0 <= i < n
    ensures i == offset % n
  {
    var r := JsRemainder(offset, n);
    var i := JsRemainder(r + n, n);
    SameRemainder(r + n, r, n);
    SameRemainder(offset, r, n);
    assert (r + n - i) % n == 0;
    SameRemainder(r + n, i, n);
    i
  }

  /** One week before the base week, with three groups, the third is on duty. */
  lemma GroupIndexBeforeBase()
    ensures GroupIndex(-1, 3) == 2
  {
  }

  /** The rotation repeats every n weeks, forwards and backwards. */
  lemma GroupIndexPeriodic(offset: int, k: int, n: int)
    requires n > 0
    ensures GroupIndex(offset + k * n, n) == GroupIndex(offset, n)
  {
    ModAddMultiple(offset, k, n);
  }

  /** The next week's group is the next one in the roster, wrapping around. */
  lemma GroupIndexNext(offset: int, n: int)
    requires n > 0
    ensures GroupIndex(offset + 1, n) == (GroupIndex(offset, n) + 1) % n
  {
    var i := GroupIndex(offset, n);
    var q := offset / n;
    assert offset == n * q + i;
    MultipleHasNoRemainder(q, n);
    assert (offset + 1) - (i + 1) == n * q;
    SameRemainder(offset + 1, i + 1, n);
  }

  /** `renderGroup`: the group on duty in the week that starts on weekStart, or
      nothing when the roster is empty. */
  function OnDuty(weekStart: int, roster: seq<Group>): (g: Option<Group>)
    ensures g.None? <==> roster == []
    ensures g.Some? ==> g.value in roster
    ensures roster != [] ==> g == Some(roster[Week.WeekOffset(weekStart) % |roster|])
  {
    if |roster| == 0 then None
    else Some(roster[GroupIndex(Week.WeekOffset(weekStart), |roster|)])
  }

  /** The duty rotation has period |roster| weeks. */
  lemma OnDutyPeriodic(weekStart: int, roster: seq<Group>, k: int)
    ensures OnDuty(weekStart + Week.DaysPerWeek * |roster| * k, roster) == OnDuty(weekStart, roster)
  {
    if roster != [] {
      var n := |roster|;
      assert Week.DaysPerWeek * n * k == Week.DaysPerWeek * (n * k);
      Week.WeekOffsetShift(weekStart, n * k);
      assert n * k == k * n;
      GroupIndexPeriodic(Week.WeekOffset(weekStart), k, n);
    }
  }

  /** A week later, the next group in the roster is on duty; after the last
      group comes the first. */
  lemma OnDutyNextWeek(weekStart: int, roster: seq<Group>)
    requires roster != []
    ensures var i := GroupIndex(Week.WeekOffset(weekStart), |roster|);
      OnDuty(weekStart + Week.DaysPerWeek, roster) == Some(roster[(i + 1) % |roster|])
  {
    Week.WeekOffsetShift(weekStart, 1);
    GroupIndexNext(Week.WeekOffset(weekStart), |roster|);
  }

}
