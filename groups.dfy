// Moving named pins as a group: `Move`, `Reset`, `MoveTo`, `Centre` and
// `MoveOver` all shift every listed pin by one offset; they differ in how
// the offset is chosen from the group's extents.

module PinGroups {
  import opened Wrappers
  import opened Geometry

  /** The pin table: pin name to position. */
  type PinMap = map<string, Vec2d>

  /** `int.MaxValue` and `int.MinValue` as doubles: the starting values of
      the extent searches. */
  const MaxPinValue: real := 2147483647.0
  const MinPinValue: real := -2147483648.0

  predicate AllDefined(m: PinMap, names: seq<string>) {
    forall i :: 0 <= i < |names| ==> names[i] in m
  }

  predicate Distinct(names: seq<string>) {
    forall i, j :: 0 <= i < j < |names| ==> names[i] != names[j]
  }

  lemma AllDefinedTail(m: PinMap, names: seq<string>)
    requires AllDefined(m, names) && names != []
    ensures AllDefined(m, names[1..])
  {
    forall i | 0 <= i < |names| - 1 ensures names[1..][i] in m {
      assert names[1..][i] == names[i + 1];
    }
  }

  /** The first listed name missing from the table: the one the handlers'
      checks, walking the list front to back, report. */
  function FirstUndefined(m: PinMap, names: seq<string>): (r: Option<string>)
    ensures r.None? <==> AllDefined(m, names)
    ensures r.Some? ==> r.value in names && r.value !in m
  {
    if names == [] then None
    else if names[0] !in m then Some(names[0])
    else FirstUndefined(m, names[1..])
  }

  /** A missing name with every name before it defined is the first one. */
  lemma {:induction false} FirstUndefinedAt(m: PinMap, names: seq<string>, i: nat)
    requires i < |names| && AllDefined(m, names[..i]) && names[i] !in m
    ensures FirstUndefined(m, names) == Some(names[i])
  {
    if i > 0 {
      assert names[..i][0] == names[0];
      assert names[1..][..i - 1] == names[..i][1..];
      FirstUndefinedAt(m, names[1..], i - 1);
    }
  }

  /** How many times `k` is listed. */
  function Count(names: seq<string>, k: string): (n: nat)
    ensures n <= |names|
    ensures k !in names ==> n == 0
  {
    if names == [] then 0
    else Count(names[..|names| - 1], k) + (if names[|names| - 1] == k then 1 else 0)
  }

  /** A name listed once in a list without repeats is counted once. */
  lemma {:induction false} CountDistinct(names: seq<string>, i: nat)
    requires Distinct(names) && i < |names|
    ensures Count(names, names[i]) == 1
  {
    var n := |names| - 1;
    if i < n {
      CountDistinct(names[..n], i);
    } else {
      CountAbsent(names[..n], names[i]);
    }
  }

  lemma CountAbsent(names: seq<string>, k: string)
    requires k !in names
    ensures Count(names, k) == 0
  {
  }

  /** `v` moved by `d`, `n` times over. */
  function Repeat(v: Vec2d, d: Vec2d, n: nat): Vec2d {
    if n == 0 then v else Add(Repeat(v, d, n - 1), d)
  }

  /** Every listed pin moved by `d`, once per listing, in list order. */
  function ShiftAll(m: PinMap, names: seq<string>, d: Vec2d): (r: PinMap)
    requires AllDefined(m, names)
    ensures r.Keys == m.Keys
    ensures forall k :: k in m ==> r[k] == Repeat(m[k], d, Count(names, k))
  {
    if names == [] then m
    else
      var n := |names| - 1;
      AllDefinedInit(m, names);
      var before := ShiftAll(m, names[..n], d);
      ShiftLastCounts(m, names, d, before);
      before[names[n] := Add(before[names[n]], d)]
  }

  lemma AllDefinedInit(m: PinMap, names: seq<string>)
    requires AllDefined(m, names) && names != []
    ensures AllDefined(m, names[..|names| - 1]) && names[|names| - 1] in m
  {
    var p := names[..|names| - 1];
    forall i | 0 <= i < |p| ensures p[i] in m {
      assert p[i] == names[i];
    }
  }

  /** Moving the last listed pin once more adds one to its count. */
  lemma ShiftLastCounts(m: PinMap, names: seq<string>, d: Vec2d, before: PinMap)
    requires names != [] && names[|names| - 1] in m && before.Keys == m.Keys
    requires forall k :: k in m ==> before[k] == Repeat(m[k], d, Count(names[..|names| - 1], k))
    ensures var last := names[|names| - 1];
            forall k :: k in m ==> before[last := Add(before[last], d)][k] == Repeat(m[k], d, Count(names, k))
  {
  }

  /** One more listed name: the table shifted so far, with that pin moved once more. */
  lemma ShiftAllStep(m: PinMap, names: seq<string>, i: nat, d: Vec2d)
    requires i < |names| && AllDefined(m, names[..i + 1])
    ensures AllDefined(m, names[..i]) && names[i] in ShiftAll(m, names[..i], d)
    ensures ShiftAll(m, names[..i + 1], d) ==
              ShiftAll(m, names[..i], d)[names[i] := Add(ShiftAll(m, names[..i], d)[names[i]], d)]
  {
    assert names[..i + 1][..i] == names[..i];
    assert names[..i + 1][i] == names[i];
  }

  /** With no repeats in the list, each listed pin moves by exactly `d`
      and every other pin stays where it was. */
  lemma ShiftDistinct(m: PinMap, names: seq<string>, d: Vec2d)
    requires AllDefined(m, names) && Distinct(names)
    ensures forall i :: 0 <= i < |names| ==> ShiftAll(m, names, d)[names[i]] == Add(m[names[i]], d)
    ensures forall k :: k in m && k !in names ==> ShiftAll(m, names, d)[k] == m[k]
  {
    var r := ShiftAll(m, names, d);
    forall i | 0 <= i < |names|
      ensures r[names[i]] == Add(m[names[i]], d)
    {
      CountDistinct(names, i);
      assert r[names[i]] == Repeat(m[names[i]], d, 1);
    }
    forall k | k in m && k !in names
      ensures r[k] == m[k]
    {
      assert r[k] == Repeat(m[k], d, 0);
    }
  }

  datatype Axis = X | Y

  function Coord(v: Vec2d, axis: Axis): real {
    match axis
    case X => v.x
    case Y => v.y
  }

  /** `Math.Min` folded over the listed pins, starting from `init`. */
  function MinAlong(m: PinMap, names: seq<string>, axis: Axis, init: real): (r: real)
    requires AllDefined(m, names)
    ensures r <= init
    ensures forall i :: 0 <= i < |names| ==> r <= Coord(m[names[i]], axis)
    ensures r == init || exists i :: 0 <= i < |names| && r == Coord(m[names[i]], axis)
  {
    if names == [] then init
    else
      var n := |names| - 1;
      var before := MinAlong(m, names[..n], axis, init);
      var c := Coord(m[names[n]], axis);
      if c < before then c else before
  }

  /** `Math.Max` folded over the listed pins, starting from `init`. */
  function MaxAlong(m: PinMap, names: seq<string>, axis: Axis, init: real): (r: real)
    requires AllDefined(m, names)
    ensures r >= init
    ensures forall i :: 0 <= i < |names| ==> r >= Coord(m[names[i]], axis)
    ensures r == init || exists i :: 0 <= i < |names| && r == Coord(m[names[i]], axis)
  {
    if names == [] then init
    else
      var n := |names| - 1;
      var before := MaxAlong(m, names[..n], axis, init);
      var c := Coord(m[names[n]], axis);
      if c > before then c else before
  }

  /** One more pin in the fold: the minimum so far or the new pin's
      coordinate, whichever is smaller. */
  lemma MinStep(m: PinMap, names: seq<string>, i: nat, axis: Axis, init: real)
    requires i < |names| && AllDefined(m, names[..i + 1])
    ensures AllDefined(m, names[..i]) && names[i] in m
    ensures MinAlong(m, names[..i + 1], axis, init) ==
              var before := MinAlong(m, names[..i], axis, init);
              var c := Coord(m[names[i]], axis);
              if c < before then c else before
  {
    assert names[..i + 1][..i] == names[..i];
    assert names[..i + 1][i] == names[i];
  }

  /** One more pin in the fold, for the maximum. */
  lemma MaxStep(m: PinMap, names: seq<string>, i: nat, axis: Axis, init: real)
    requires i < |names| && AllDefined(m, names[..i + 1])
    ensures AllDefined(m, names[..i]) && names[i] in m
    ensures MaxAlong(m, names[..i + 1], axis, init) ==
              var before := MaxAlong(m, names[..i], axis, init);
              var c := Coord(m[names[i]], axis);
              if c > before then c else before
  {
    assert names[..i + 1][..i] == names[..i];
    assert names[..i + 1][i] == names[i];
  }

  /** When a listed pin sits at or below the starting value, the minimum is
      one of the listed pins. */
  lemma MinAttained(m: PinMap, names: seq<string>, axis: Axis, init: real)
    requires AllDefined(m, names) && names != []
    requires forall i :: 0 <= i < |names| ==> Coord(m[names[i]], axis) <= init
    ensures exists i :: 0 <= i < |names| && MinAlong(m, names, axis, init) == Coord(m[names[i]], axis)
  {
    var r := MinAlong(m, names, axis, init);
    if r == init {
      assert r <= Coord(m[names[0]], axis) <= init;
    }
  }

  lemma MaxAttained(m: PinMap, names: seq<string>, axis: Axis, init: real)
    requires AllDefined(m, names) && names != []
    requires forall i :: 0 <= i < |names| ==> Coord(m[names[i]], axis) >= init
    ensures exists i :: 0 <= i < |names| && MaxAlong(m, names, axis, init) == Coord(m[names[i]], axis)
  {
    var r := MaxAlong(m, names, axis, init);
    if r == init {
      assert r >= Coord(m[names[0]], axis) >= init;
    }
  }

  /** Within the range of a 32-bit integer on both axes. */
  predicate InPinRange(v: Vec2d) {
    MinPinValue <= v.x <= MaxPinValue && MinPinValue <= v.y <= MaxPinValue
  }

  /** `Move dx dy pins...`: every listed pin moved by the offset. */
  function MoveGroup(m: PinMap, names: seq<string>, offset: Vec2d): (r: PinMap)
    requires AllDefined(m, names)
    ensures r.Keys == m.Keys
    ensures Distinct(names) ==>
              (forall i :: 0 <= i < |names| ==> Sub(r[names[i]], m[names[i]]) == offset) &&
              (forall k :: k in m && k !in names ==> r[k] == m[k])
  {
    ShiftDistinctIf(m, names, offset);
    ShiftAll(m, names, offset)
  }

  lemma ShiftDistinctIf(m: PinMap, names: seq<string>, d: Vec2d)
    requires AllDefined(m, names)
    ensures Distinct(names) ==>
              (forall i :: 0 <= i < |names| ==> ShiftAll(m, names, d)[names[i]] == Add(m[names[i]], d)) &&
              (forall k :: k in m && k !in names ==> ShiftAll(m, names, d)[k] == m[k])
  {
    if Distinct(names) {
      ShiftDistinct(m, names, d);
    }
  }

  /** The offset `Reset` subtracts: the group's minimum on each axis, each
      search starting from `MaxPinValue`. */
  function ResetOffset(m: PinMap, names: seq<string>): Vec2d
    requires AllDefined(m, names)
  {
    Vec2d(MinAlong(m, names, X, MaxPinValue), MinAlong(m, names, Y, MaxPinValue))
  }

  function Negate(v: Vec2d): (r: Vec2d)
    ensures Add(v, r) == Vec2d(0.0, 0.0)
  {
    Vec2d(-v.x, -v.y)
  }

  /** `Reset pins...`: the group moved so its minima lie on the axes. */
  function ResetGroup(m: PinMap, names: seq<string>): PinMap
    requires AllDefined(m, names)
  {
    ShiftAll(m, names, Negate(ResetOffset(m, names)))
  }

  /** After `Reset` on a list without repeats, no listed pin is left of or
      above the origin, one lies on each axis, and unlisted pins stay put. */
  lemma ResetPutsGroupAtOrigin(m: PinMap, names: seq<string>)
    requires AllDefined(m, names) && Distinct(names) && names != []
    requires forall i :: 0 <= i < |names| ==> InPinRange(m[names[i]])
    ensures var r := ResetGroup(m, names);
      (forall i :: 0 <= i < |names| ==> r[names[i]].x >= 0.0 && r[names[i]].y >= 0.0) &&
      (exists i :: 0 <= i < |names| && r[names[i]].x == 0.0) &&
      (exists i :: 0 <= i < |names| && r[names[i]].y == 0.0) &&
      (forall k :: k in m && k !in names ==> r[k] == m[k])
  {
    var off := ResetOffset(m, names);
    ShiftDistinct(m, names, Negate(off));
    MinAttained(m, names, X, MaxPinValue);
    MinAttained(m, names, Y, MaxPinValue);
  }

  /** The offset `MoveToPin` subtracts from every pin it moves: from the
      base pin to the relative pin (`MoveOver`) or to the group's minima
      (`MoveTo`), plus half the group's span when centring (`Centre`). The
      extents are searched from `MaxPinValue` and `MinPinValue`. */
  function MoveToOffset(m: PinMap, base: Vec2d, names: seq<string>, rel: Option<Vec2d>, centre: bool): Vec2d
    requires AllDefined(m, names)
  {
    var xMin := MinAlong(m, names, X, MaxPinValue);
    var yMin := MinAlong(m, names, Y, MaxPinValue);
    var xMax := MaxAlong(m, names, X, MinPinValue);
    var yMax := MaxAlong(m, names, Y, MinPinValue);
    var off := match rel
      case Some(r) => Vec2d(r.x - base.x, r.y - base.y)
      case None => Vec2d(xMin - base.x, yMin - base.y);
    if centre then Vec2d(off.x + (xMax - xMin) / 2.0, off.y + (yMax - yMin) / 2.0) else off
  }

  /** `MoveTo base pins...` and `Centre base pins...`. */
  function MoveGroupTo(m: PinMap, base: Vec2d, names: seq<string>, centre: bool): PinMap
    requires AllDefined(m, names)
  {
    ShiftAll(m, names, Negate(MoveToOffset(m, base, names, None, centre)))
  }

  /** After `MoveTo` on a list without repeats, the group's top left is the
      base pin: no listed pin lies left of or above it, and one lies level
      with it on each axis. */
  lemma MoveToAlignsWithBase(m: PinMap, base: Vec2d, names: seq<string>)
    requires AllDefined(m, names) && Distinct(names) && names != []
    requires forall i :: 0 <= i < |names| ==> InPinRange(m[names[i]])
    ensures var r := MoveGroupTo(m, base, names, false);
      (forall i :: 0 <= i < |names| ==> r[names[i]].x >= base.x && r[names[i]].y >= base.y) &&
      (exists i :: 0 <= i < |names| && r[names[i]].x == base.x) &&
      (exists i :: 0 <= i < |names| && r[names[i]].y == base.y)
  {
    ShiftDistinct(m, names, Negate(MoveToOffset(m, base, names, None, false)));
    MinAttained(m, names, X, MaxPinValue);
    MinAttained(m, names, Y, MaxPinValue);
  }

  /** The listed pins' extremes along `axis` are symmetric about `base`:
      one pin is lowest, one highest, and they sum to twice the base. */
  ghost predicate BalancedAlong(r: PinMap, base: Vec2d, names: seq<string>, axis: Axis)
    requires AllDefined(r, names)
  {
    exists lo, hi :: 0 <= lo < |names| && 0 <= hi < |names| &&
      Coord(r[names[lo]], axis) + Coord(r[names[hi]], axis) == 2.0 * Coord(base, axis) &&
      forall i :: 0 <= i < |names| ==>
        Coord(r[names[lo]], axis) <= Coord(r[names[i]], axis) <= Coord(r[names[hi]], axis)
  }

  /** After `Centre` on a list without repeats, the group's extremes on
      each axis are symmetric about the base pin. */
  lemma CentreBalancesAroundBase(m: PinMap, base: Vec2d, names: seq<string>)
    requires AllDefined(m, names) && Distinct(names) && names != []
    requires forall i :: 0 <= i < |names| ==> InPinRange(m[names[i]])
    ensures AllDefined(MoveGroupTo(m, base, names, true), names)
    ensures BalancedAlong(MoveGroupTo(m, base, names, true), base, names, X)
    ensures BalancedAlong(MoveGroupTo(m, base, names, true), base, names, Y)
  {
    CentreAxis(m, base, names, X);
    CentreAxis(m, base, names, Y);
  }

  lemma CentreAxis(m: PinMap, base: Vec2d, names: seq<string>, axis: Axis)
    requires AllDefined(m, names) && Distinct(names) && names != []
    requires forall i :: 0 <= i < |names| ==> InPinRange(m[names[i]])
    ensures AllDefined(MoveGroupTo(m, base, names, true), names)
    ensures BalancedAlong(MoveGroupTo(m, base, names, true), base, names, axis)
  {
    var off := MoveToOffset(m, base, names, None, true);
    var r := ShiftAll(m, names, Negate(off));
    ShiftDistinct(m, names, Negate(off));
    var mn := MinAlong(m, names, axis, MaxPinValue);
    var mx := MaxAlong(m, names, axis, MinPinValue);
    MinAttained(m, names, axis, MaxPinValue);
    MaxAttained(m, names, axis, MinPinValue);
    var lo :| 0 <= lo < |names| && mn == Coord(m[names[lo]], axis);
    var hi :| 0 <= hi < |names| && mx == Coord(m[names[hi]], axis);
    assert Coord(off, axis) == mn - Coord(base, axis) + (mx - mn) / 2.0;
    forall i | 0 <= i < |names|
      ensures Coord(r[names[i]], axis) == Coord(m[names[i]], axis) - Coord(off, axis)
    {
    }
    BalancedAfterShift(m, r, base, names, axis, mn, mx, lo, hi, Coord(off, axis));
  }

  /** Shifting every listed pin by the same amount, chosen so the midpoint
      of the extremes lands on the base, balances the group about it. */
  lemma BalancedAfterShift(m: PinMap, r: PinMap, base: Vec2d, names: seq<string>, axis: Axis,
                           mn: real, mx: real, lo: nat, hi: nat, c: real)
    requires AllDefined(m, names) && AllDefined(r, names)
    requires lo < |names| && hi < |names|
    requires Coord(m[names[lo]], axis) == mn && Coord(m[names[hi]], axis) == mx
    requires forall i :: 0 <= i < |names| ==> mn <= Coord(m[names[i]], axis) <= mx
    requires forall i :: 0 <= i < |names| ==> Coord(r[names[i]], axis) == Coord(m[names[i]], axis) - c
    requires c == mn - Coord(base, axis) + (mx - mn) / 2.0
    ensures BalancedAlong(r, base, names, axis)
  {
    assert Coord(r[names[lo]], axis) + Coord(r[names[hi]], axis) == 2.0 * Coord(base, axis);
  }

  /** `MoveOver base rel pins...`: the listed pins moved by the step from
      `rel` to `base`; `rel` itself moves only if it is listed again. */
  function MoveGroupOver(m: PinMap, base: Vec2d, rel: Vec2d, names: seq<string>): PinMap
    requires AllDefined(m, names)
  {
    ShiftAll(m, names, Negate(Sub(rel, base)))
  }

  /** After `MoveOver` on a list without repeats, every listed pin stands
      to the base pin as it stood to the relative pin before. */
  lemma MoveOverKeepsShape(m: PinMap, base: Vec2d, rel: Vec2d, names: seq<string>)
    requires AllDefined(m, names) && Distinct(names)
    ensures var r := MoveGroupOver(m, base, rel, names);
      (forall i :: 0 <= i < |names| ==> Sub(r[names[i]], base) == Sub(m[names[i]], rel)) &&
      (forall k :: k in m && k !in names ==> r[k] == m[k])
  {
    ShiftDistinct(m, names, Negate(Sub(rel, base)));
  }
}
