// The interpreter as the source runs it: each handler takes the command's
// remaining words in a `Dq<string>`, consumes them with `RemoveFirst`, and
// updates the shared pin table and chart state in place. Every handler is
// proved to do what the matching function of the Commands module says.

module Rendering {
  import opened Wrappers
  import Int32
  import Internal
  import opened Text
  import opened Geometry
  import opened PinGroups
  import opened Markup
  import Commands

  /** The chart settings shared by the handlers (`ChartState`). */
  class ChartState {
    var boxColor: Option<string>
    var lineColor: Option<string>
    var translate: Vec2d
    var globalLineNum: int

    constructor ()
      ensures boxColor == None && lineColor == None
      ensures translate == Vec2d(0.0, 0.0) && globalLineNum == 1
    {
      boxColor := None;
      lineColor := None;
      translate := Vec2d(0.0, 0.0);
      globalLineNum := 1;
    }
  }

  /** The pin table (`Dictionary<string, Vec2d>`). Every handler that sets
      a pin stores a new position, so no two names share one. */
  class PinTable {
    var entries: PinMap

    constructor ()
      ensures entries == map[]
    {
      entries := map[];
    }
  }

  ghost function WorldOf(pins: PinTable, state: ChartState): Commands.World
    reads pins, state
  {
    Commands.World(pins.entries, state.boxColor, state.lineColor, state.translate, state.globalLineNum)
  }

  /** A handler's result read together with the state it left. */
  ghost function Observed(r: Result<Fragment, Commands.Error>, pins: PinTable, state: ChartState)
    : Result<Commands.Step, Commands.Error>
    reads pins, state
  {
    if r.Success? then Success(Commands.Step(WorldOf(pins, state), r.value)) else Failure(r.error)
  }

  // ---------------------------------------------------------------------
  // Pins

  method AddPin(cmd: Internal.Dq<string>, pins: PinTable, state: ChartState)
    returns (r: Result<Fragment, Commands.Error>)
    requires cmd.Valid()
    modifies cmd, cmd.elements, pins
    ensures Observed(r, pins, state) == Commands.AddPin(old(cmd.Contents), old(WorldOf(pins, state)))
  {
    if cmd.Length() < 3 {
      return Failure(Commands.TooShort);
    }
    var pinName := cmd.RemoveFirst();
    var xText := cmd.RemoveFirst();
    var xPos :- Commands.Parse(xText.value);
    var yText := cmd.RemoveFirst();
    var yPos :- Commands.Parse(yText.value);
    AddPinInt(pinName.value, xPos, yPos, pins, state);
    return Success(Empty);
  }

  /** `AddPinInt`: sets a pin from whole numbers, moved by the translate offset. */
  method AddPinInt(pinName: string, xPos: int, yPos: int, pins: PinTable, state: ChartState)
    modifies pins
    ensures pins.entries == old(pins.entries)[pinName := Commands.Translated(state.translate, xPos, yPos)]
  {
    pins.entries := pins.entries[pinName := Vec2d(xPos as real + state.translate.x, yPos as real + state.translate.y)];
  }

  method Translate(cmd: Internal.Dq<string>, pins: PinTable, state: ChartState)
    returns (r: Result<Fragment, Commands.Error>)
    requires cmd.Valid()
    modifies cmd, cmd.elements, state
    ensures Observed(r, pins, state) == Commands.Translate(old(cmd.Contents), old(WorldOf(pins, state)))
  {
    if cmd.Length() < 2 {
      return Failure(Commands.TooShort);
    }
    var xText := cmd.RemoveFirst();
    var x :- Commands.Parse(xText.value);
    var yText := cmd.RemoveFirst();
    var y :- Commands.Parse(yText.value);
    state.translate := Vec2d(x as real, y as real);
    return Success(Empty);
  }

  method MovePin(cmd: Internal.Dq<string>, pins: PinTable, state: ChartState)
    returns (r: Result<Fragment, Commands.Error>)
    requires cmd.Valid()
    modifies cmd, cmd.elements, pins
    ensures Observed(r, pins, state) == Commands.MovePin(old(cmd.Contents), old(WorldOf(pins, state)))
  {
    if cmd.Length() < 3 {
      return Failure(Commands.TooShort);
    }
    var xText := cmd.RemoveFirst();
    var xOffs :- Commands.Parse(xText.value);
    var yText := cmd.RemoveFirst();
    var yOffs :- Commands.Parse(yText.value);
    var missing := MoveListed(cmd, pins, Vec2d(xOffs as real, yOffs as real));
    if missing.Some? {
      return Failure(Commands.PinNotDefined(missing.value));
    }
    return Success(Empty);
  }

  /** The loop of `MovePin`: each listed pin in turn is moved by `offset`,
      stopping at the first name that is not a pin. */
  method MoveListed(cmd: Internal.Dq<string>, pins: PinTable, offset: Vec2d) returns (missing: Option<string>)
    requires cmd.Valid()
    modifies pins
    ensures missing == FirstUndefined(old(pins.entries), cmd.Contents)
    ensures missing.None? ==> pins.entries == MoveGroup(old(pins.entries), cmd.Contents, offset)
  {
    ghost var names := cmd.Contents;
    ghost var m := pins.entries;
    var i := 0;
    while i < cmd.Length()
      invariant 0 <= i <= |names|
      invariant AllDefined(m, names[..i])
      invariant pins.entries == ShiftAll(m, names[..i], offset)
    {
      var pinName := cmd.Get(i).value;
      assert pinName == names[i];
      if pinName !in pins.entries {
        FirstUndefinedAt(m, names, i);
        return Some(pinName);
      }
      DefinedPrefix(m, names, i);
      ShiftAllStep(m, names, i, offset);
      pins.entries := pins.entries[pinName := Add(pins.entries[pinName], offset)];
      i := i + 1;
    }
    assert names[..i] == names;
    return None;
  }

  /** One more listed pin defined extends the defined prefix. */
  lemma DefinedPrefix(m: PinMap, names: seq<string>, i: nat)
    requires i < |names| && AllDefined(m, names[..i]) && names[i] in m
    ensures AllDefined(m, names[..i + 1]) && names[..i + 1][..i] == names[..i] && names[..i + 1][i] == names[i]
  {
  }

  method ProjectPin(cmd: Internal.Dq<string>, pins: PinTable, state: ChartState)
    returns (r: Result<Fragment, Commands.Error>)
    requires cmd.Valid()
    modifies cmd, cmd.elements, pins
    ensures Observed(r, pins, state) == Commands.ProjectPin(old(cmd.Contents), old(WorldOf(pins, state)))
  {
    if cmd.Length() < 4 {
      return Failure(Commands.TooShort);
    }
    var newPinName := cmd.RemoveFirst();
    var pin1 := cmd.RemoveFirst();
    var pin2 := cmd.RemoveFirst();
    var pinX := cmd.RemoveFirst();
    if pin1.value !in pins.entries {
      return Failure(Commands.PinNotDefined(pin1.value));
    }
    if pin2.value !in pins.entries {
      return Failure(Commands.PinNotDefined(pin2.value));
    }
    if pinX.value !in pins.entries {
      return Failure(Commands.PinNotDefined(pinX.value));
    }
    var projected := ProjectPoint(pins.entries[pin1.value], pins.entries[pin2.value], pins.entries[pinX.value]);
    pins.entries := pins.entries[newPinName.value := projected];
    return Success(Empty);
  }

  method PinAtCorner(cmd: Internal.Dq<string>, pins: PinTable, state: ChartState)
    returns (r: Result<Fragment, Commands.Error>)
    requires cmd.Valid()
    modifies cmd, cmd.elements, pins
    ensures Observed(r, pins, state) == Commands.PinAtCorner(old(cmd.Contents), old(WorldOf(pins, state)))
  {
    if cmd.Length() < 3 {
      return Failure(Commands.TooShort);
    }
    var newPinName := cmd.RemoveFirst();
    var pin1 := cmd.RemoveFirst();
    var pin2 := cmd.RemoveFirst();
    if pin1.value !in pins.entries {
      return Failure(Commands.PinNotDefined(pin1.value));
    }
    if pin2.value !in pins.entries {
      return Failure(Commands.PinNotDefined(pin2.value));
    }
    pins.entries := pins.entries[newPinName.value := Vec2d(pins.entries[pin1.value].x, pins.entries[pin2.value].y)];
    return Success(Empty);
  }

  method SplitPin(cmd: Internal.Dq<string>, pins: PinTable, state: ChartState)
    returns (r: Result<Fragment, Commands.Error>)
    requires cmd.Valid()
    modifies cmd, cmd.elements, pins
    ensures Observed(r, pins, state) == Commands.SplitPin(old(cmd.Contents), old(WorldOf(pins, state)))
  {
    if cmd.Length() < 3 {
      return Failure(Commands.TooShort);
    }
    var newPinName := cmd.RemoveFirst();
    var pin1 := cmd.RemoveFirst();
    var pin2 := cmd.RemoveFirst();
    if pin1.value !in pins.entries {
      return Failure(Commands.PinNotDefined(pin1.value));
    }
    if pin2.value !in pins.entries {
      return Failure(Commands.PinNotDefined(pin2.value));
    }
    var p1 := pins.entries[pin1.value];
    var p2 := pins.entries[pin2.value];
    pins.entries := pins.entries[newPinName.value := Vec2d((p1.x + p2.x) / 2.0, (p1.y + p2.y) / 2.0)];
    return Success(Empty);
  }

  method PinByOffset(cmd: Internal.Dq<string>, pins: PinTable, state: ChartState)
    returns (r: Result<Fragment, Commands.Error>)
    requires cmd.Valid()
    modifies cmd, cmd.elements, pins
    ensures Observed(r, pins, state) == Commands.PinByOffset(old(cmd.Contents), old(WorldOf(pins, state)))
  {
    if cmd.Length() < 4 {
      return Failure(Commands.TooShort);
    }
    var newPinName := cmd.RemoveFirst();
    var srcPin := cmd.RemoveFirst();
    if srcPin.value !in pins.entries {
      return Failure(Commands.PinNotDefined(srcPin.value));
    }
    var xText := cmd.RemoveFirst();
    var xOffs :- Commands.Parse(xText.value);
    var yText := cmd.RemoveFirst();
    var yOffs :- Commands.Parse(yText.value);
    var src := pins.entries[srcPin.value];
    pins.entries := pins.entries[newPinName.value := Offset(src, xOffs as real, yOffs as real)];
    return Success(Empty);
  }

  // ---------------------------------------------------------------------
  // Groups

  method ResetPinsToOrigin(cmd: Internal.Dq<string>, pins: PinTable, state: ChartState)
    returns (r: Result<Fragment, Commands.Error>)
    requires cmd.Valid()
    modifies pins
    ensures Observed(r, pins, state) == Commands.ResetPinsToOrigin(old(cmd.Contents), old(WorldOf(pins, state)))
  {
    if cmd.Length() < 1 {
      return Failure(Commands.TooShort);
    }
    var missing, xOffs, yOffs := Minima(cmd, pins);
    if missing.Some? {
      return Failure(Commands.PinNotDefined(missing.value));
    }
    ShiftListed(cmd, pins, Vec2d(xOffs, yOffs));
    return Success(Empty);
  }

  /** The extents loop of `ResetPinsToOrigin`: the smallest coordinates of
      the listed pins, each starting from `MaxPinValue`, stopping at the
      first name that is not a pin. */
  method Minima(cmd: Internal.Dq<string>, pins: PinTable) returns (missing: Option<string>, xMin: real, yMin: real)
    requires cmd.Valid()
    ensures missing == FirstUndefined(pins.entries, cmd.Contents)
    ensures missing.None? ==>
              xMin == MinAlong(pins.entries, cmd.Contents, X, MaxPinValue) &&
              yMin == MinAlong(pins.entries, cmd.Contents, Y, MaxPinValue)
  {
    ghost var names := cmd.Contents;
    var m := pins.entries;
    xMin, yMin := MaxPinValue, MaxPinValue;
    var i := 0;
    while i < cmd.Length()
      invariant 0 <= i <= |names|
      invariant AllDefined(m, names[..i])
      invariant xMin == MinAlong(m, names[..i], X, MaxPinValue)
      invariant yMin == MinAlong(m, names[..i], Y, MaxPinValue)
    {
      var pinName := cmd.Get(i).value;
      assert pinName == names[i];
      if pinName !in m {
        FirstUndefinedAt(m, names, i);
        return Some(pinName), xMin, yMin;
      }
      var p := m[pinName];
      if p.x < xMin {
        xMin := p.x;
      }
      DefinedPrefix(m, names, i);
      MinStep(m, names, i, X, MaxPinValue);
      MinStep(m, names, i, Y, MaxPinValue);
      if p.y < yMin {
        yMin := p.y;
      }
      i := i + 1;
    }
    assert names[..i] == names;
    return None, xMin, yMin;
  }

  /** The apply loop of `Reset` and `MoveTo`: every listed pin, all of them
      known, has `offset` subtracted. */
  method ShiftListed(cmd: Internal.Dq<string>, pins: PinTable, offset: Vec2d)
    requires cmd.Valid() && AllDefined(pins.entries, cmd.Contents)
    modifies pins
    ensures pins.entries == ShiftAll(old(pins.entries), cmd.Contents, Negate(offset))
  {
    ghost var names := cmd.Contents;
    ghost var m := pins.entries;
    var i := 0;
    while i < cmd.Length()
      invariant 0 <= i <= |names|
      invariant AllDefined(m, names[..i])
      invariant pins.entries == ShiftAll(m, names[..i], Negate(offset))
    {
      var pinName := cmd.Get(i).value;
      assert pinName == names[i];
      DefinedPrefix(m, names, i);
      ShiftAllStep(m, names, i, Negate(offset));
      // `X -= offset.X; Y -= offset.Y`
      var p := pins.entries[pinName];
      pins.entries := pins.entries[pinName := Add(p, Negate(offset))];
      i := i + 1;
    }
    assert names[..i] == names;
  }

  method MoveToPin(useFirst: bool, centre: bool, cmd: Internal.Dq<string>, pins: PinTable, state: ChartState)
    returns (r: Result<Fragment, Commands.Error>)
    requires cmd.Valid()
    modifies cmd, cmd.elements, pins
    ensures Observed(r, pins, state) == Commands.MoveToPin(useFirst, centre, old(cmd.Contents), old(WorldOf(pins, state)))
  {
    if cmd.Length() < 2 {
      return Failure(Commands.TooShort);
    }
    var basePinName := cmd.RemoveFirst();
    if basePinName.value !in pins.entries {
      return Failure(Commands.PinNotDefined(basePinName.value));
    }
    assert [basePinName.value] + cmd.Contents == old(cmd.Contents);
    r := MoveGroupFrom(useFirst, centre, basePinName.value, cmd, pins, state);
  }

  /** `MoveToPin` once the base pin is read and known: the extents, the
      offset, then the shift. */
  method MoveGroupFrom(useFirst: bool, centre: bool, baseName: string,
                       cmd: Internal.Dq<string>, pins: PinTable, state: ChartState)
    returns (r: Result<Fragment, Commands.Error>)
    requires cmd.Valid() && cmd.Contents != [] && baseName in pins.entries
    modifies cmd, cmd.elements, pins
    ensures Observed(r, pins, state) ==
              Commands.MoveToPin(useFirst, centre, [baseName] + old(cmd.Contents), old(WorldOf(pins, state)))
  {
    ghost var args := [baseName] + cmd.Contents;
    ghost var names := cmd.Contents;
    ghost var m := pins.entries;
    assert args[1..] == names;
    var basePin := pins.entries[baseName];
    var missing, xMin, yMin, xMax, yMax := Extents(cmd, pins);
    if missing.Some? {
      return Failure(Commands.PinNotDefined(missing.value));
    }
    var offset := MoveOffset(useFirst, centre, cmd, pins, basePin, xMin, yMin, xMax, yMax);
    ShiftListed(cmd, pins, offset);
    MoveGroupWithShifts(useFirst, centre, m, basePin, names);
    assert pins.entries == Commands.MoveGroupWith(useFirst, centre, m, basePin, names);
    assert WorldOf(pins, state) == old(WorldOf(pins, state)).(pins := pins.entries);
    MoveToPinDefined(useFirst, centre, args, old(WorldOf(pins, state)));
    r := Success(Empty);
    assert Observed(r, pins, state) == Success(Commands.Step(WorldOf(pins, state), Empty));
  }

  /** `MoveToPin` with the base pin and every listed pin defined moves the group. */
  lemma MoveToPinDefined(useFirst: bool, centre: bool, args: seq<string>, w: Commands.World)
    requires |args| >= 2 && args[0] in w.pins && AllDefined(w.pins, args[1..])
    ensures Commands.MoveToPin(useFirst, centre, args, w) ==
              Success(Commands.Step(w.(pins := Commands.MoveGroupWith(useFirst, centre, w.pins, w.pins[args[0]], args[1..])), Empty))
  {
    assert FirstUndefined(w.pins, args[1..]).None?;
  }

  /** The offset `MoveToPin` subtracts: from the base pin to the relative
      pin (taken off the list) or to the group's minima, plus half the
      group's size when centring. */
  method MoveOffset(useFirst: bool, centre: bool, cmd: Internal.Dq<string>, pins: PinTable, basePin: Vec2d,
                    xMin: real, yMin: real, xMax: real, yMax: real) returns (offset: Vec2d)
    requires cmd.Valid() && cmd.Contents != [] && AllDefined(pins.entries, cmd.Contents)
    requires xMin == MinAlong(pins.entries, cmd.Contents, X, MaxPinValue)
    requires yMin == MinAlong(pins.entries, cmd.Contents, Y, MaxPinValue)
    requires xMax == MaxAlong(pins.entries, cmd.Contents, X, MinPinValue)
    requires yMax == MaxAlong(pins.entries, cmd.Contents, Y, MinPinValue)
    modifies cmd, cmd.elements
    ensures cmd.Valid()
    ensures cmd.Contents == if useFirst then old(cmd.Contents)[1..] else old(cmd.Contents)
    ensures offset == MoveToOffset(pins.entries, basePin, old(cmd.Contents),
                                   if useFirst then Some(pins.entries[old(cmd.Contents)[0]]) else None, centre)
  {
    if useFirst {
      // the extents loop has already found every name defined, this one included
      var relPinName := cmd.RemoveFirst();
      var relPin := pins.entries[relPinName.value];
      offset := Vec2d(relPin.x - basePin.x, relPin.y - basePin.y);
    } else {
      offset := Vec2d(xMin - basePin.x, yMin - basePin.y);
    }
    if centre {
      offset := Vec2d(offset.x + (xMax - xMin) / 2.0, offset.y + (yMax - yMin) / 2.0);
    }
  }

  lemma MoveGroupWithShifts(useFirst: bool, centre: bool, m: PinMap, base: Vec2d, names: seq<string>)
    requires AllDefined(m, names) && names != []
    ensures AllDefined(m, names[1..])
    ensures Commands.MoveGroupWith(useFirst, centre, m, base, names) ==
              ShiftAll(m, if useFirst then names[1..] else names,
                       Negate(MoveToOffset(m, base, names, if useFirst then Some(m[names[0]]) else None, centre)))
  {
    AllDefinedTail(m, names);
  }

  /** The extents loop of `MoveToPin`: the smallest and largest coordinates
      of the listed pins, from `MaxPinValue` and `MinPinValue`, stopping at
      the first name that is not a pin. */
  method Extents(cmd: Internal.Dq<string>, pins: PinTable)
    returns (missing: Option<string>, xMin: real, yMin: real, xMax: real, yMax: real)
    requires cmd.Valid()
    ensures missing == FirstUndefined(pins.entries, cmd.Contents)
    ensures missing.None? ==>
              xMin == MinAlong(pins.entries, cmd.Contents, X, MaxPinValue) &&
              yMin == MinAlong(pins.entries, cmd.Contents, Y, MaxPinValue) &&
              xMax == MaxAlong(pins.entries, cmd.Contents, X, MinPinValue) &&
              yMax == MaxAlong(pins.entries, cmd.Contents, Y, MinPinValue)
  {
    ghost var names := cmd.Contents;
    var m := pins.entries;
    xMin, yMin, xMax, yMax := MaxPinValue, MaxPinValue, MinPinValue, MinPinValue;
    var i := 0;
    while i < cmd.Length()
      invariant 0 <= i <= |names|
      invariant AllDefined(m, names[..i])
      invariant xMin == MinAlong(m, names[..i], X, MaxPinValue)
      invariant yMin == MinAlong(m, names[..i], Y, MaxPinValue)
      invariant xMax == MaxAlong(m, names[..i], X, MinPinValue)
      invariant yMax == MaxAlong(m, names[..i], Y, MinPinValue)
    {
      var pinName := cmd.Get(i).value;
      assert pinName == names[i];
      if pinName !in m {
        FirstUndefinedAt(m, names, i);
        return Some(pinName), xMin, yMin, xMax, yMax;
      }
      var p := m[pinName];
      if p.x < xMin {
        xMin := p.x;
      }
      if p.y < yMin {
        yMin := p.y;
      }
      if p.x > xMax {
        xMax := p.x;
      }
      if p.y > yMax {
        yMax := p.y;
      }
      DefinedPrefix(m, names, i);
      MinStep(m, names, i, X, MaxPinValue);
      MinStep(m, names, i, Y, MaxPinValue);
      MaxStep(m, names, i, X, MinPinValue);
      MaxStep(m, names, i, Y, MinPinValue);
      i := i + 1;
    }
    assert names[..i] == names;
    return None, xMin, yMin, xMax, yMax;
  }

  // ---------------------------------------------------------------------
  // Boxes

  method DrawBox(splitCells: bool, cmd: Internal.Dq<string>, pins: PinTable, state: ChartState, small: bool)
    returns (r: Result<Fragment, Commands.Error>)
    requires cmd.Valid()
    modifies cmd, cmd.elements
    ensures Observed(r, pins, state) == Commands.DrawBox(splitCells, small, old(cmd.Contents), old(WorldOf(pins, state)))
  {
    if cmd.Length() < 2 {
      return Failure(Commands.TooShort);
    }
    var cols := 1;
    if splitCells {
      var colsText := cmd.RemoveFirst();
      cols :- Commands.Parse(colsText.value);
    }
    r := BoxWithColumns(splitCells, small, cols, cmd, pins, state);
  }

  /** `DrawBox` once the column count is read: the check of the count, then
      the two pin names. */
  method BoxWithColumns(splitCells: bool, small: bool, cols: int, cmd: Internal.Dq<string>, pins: PinTable, state: ChartState)
    returns (r: Result<Fragment, Commands.Error>)
    requires cmd.Valid()
    modifies cmd, cmd.elements
    ensures Observed(r, pins, state) ==
              Commands.BoxWithColumns(splitCells, small, cols, old(cmd.Contents), WorldOf(pins, state))
  {
    if cols < 1 {
      return Failure(Commands.ColumnsNotValid(cols));
    }
    ghost var rest := cmd.Contents;
    var pin1 := cmd.RemoveFirst();
    var pin2 := cmd.RemoveFirst();
    if pin2.Failure? {
      return Failure(Commands.DqFailure(pin2.error));
    }
    assert [pin1.value, pin2.value] + cmd.Contents == rest;
    r := BoxAt(splitCells, small, cols, pin1.value, pin2.value, cmd, pins, state);
  }

  /** `DrawBox` once the column count and both pin names have been read. */
  method BoxAt(splitCells: bool, small: bool, cols: int, name1: string, name2: string,
               cmd: Internal.Dq<string>, pins: PinTable, state: ChartState)
    returns (r: Result<Fragment, Commands.Error>)
    requires cmd.Valid() && cols >= 1
    modifies cmd, cmd.elements
    ensures Observed(r, pins, state) ==
              Commands.BoxAt(splitCells, small, cols, [name1, name2] + old(cmd.Contents), WorldOf(pins, state))
  {
    ghost var rest := [name1, name2] + cmd.Contents;
    assert rest[2..] == cmd.Contents;
    var words := cmd.ToArray();
    var pieces := Commands.BoxPieces(splitCells, words[..]);
    var created := Internal.Dq<string>.OfArray(pieces);
    Internal.AllocationSizeIsTight(|pieces|);
    if created.Failure? {
      return Failure(Commands.DqFailure(created.error));
    }
    var text := created.value;
    if name1 !in pins.entries {
      return Failure(Commands.PinNotDefined(name1));
    }
    if name2 !in pins.entries {
      return Failure(Commands.PinNotDefined(name2));
    }
    var p1 := pins.entries[name1];
    var p2 := pins.entries[name2];
    var box := BoxBetween(p1, p2, state.boxColor, BoxText(small, 0.0, []));
    var rows := LayOutCells(text, cols);
    return Success(box.(text := BoxText(small, box.width / cols as real, rows)));
  }

  /** The row loop of `DrawBox`: the pieces of text are taken off the front
      of `text` into rows of at most `cols` cells. */
  method LayOutCells(text: Internal.Dq<string>, cols: int) returns (rows: seq<seq<Cell>>)
    requires text.Valid() && cols >= 1
    modifies text, text.elements
    ensures rows == Table(old(text.Contents), cols)
  {
    ghost var pieces := text.Contents;
    var textLen := text.Length();
    var firstRow := cols > 1;
    rows := [];
    while text.Length() > 0
      invariant text.Valid() && text.elements == old(text.elements)
      invariant rows + Layout(text.Contents, cols, firstRow, textLen) == Table(pieces, cols)
      decreases |text.Contents|
    {
      ghost var before := text.Contents;
      var row := FillRow(text, cols, firstRow, textLen);
      LayoutStep(rows, before, row, cols, firstRow, textLen, Table(pieces, cols));
      rows := rows + [row];
      firstRow := false;
    }
    assert Layout(text.Contents, cols, firstRow, textLen) == [];
    assert rows + [] == rows;
  }

  /** Taking one row off the front of the pieces keeps the layout loop's
      invariant. */
  lemma LayoutStep(rows: seq<seq<Cell>>, before: seq<string>, row: seq<Cell>, cols: int, firstRow: bool,
                   textLen: nat, table: seq<seq<Cell>>)
    requires cols >= 1 && before != [] && rows + Layout(before, cols, firstRow, textLen) == table
    requires row == Row(before[..if |before| < cols then |before| else cols], cols, firstRow, textLen)
    ensures (rows + [row]) + Layout(before[if |before| < cols then |before| else cols..], cols, false, textLen) == table
  {
    var n := if |before| < cols then |before| else cols;
    var after := Layout(before[n..], cols, false, textLen);
    assert Layout(before, cols, firstRow, textLen) == [row] + after;
    assert rows + ([row] + after) == (rows + [row]) + after;
  }

  /** One row: cells are taken while text is left and the column count is
      not used up (`remCols-- > 0`). */
  method FillRow(text: Internal.Dq<string>, cols: int, firstRow: bool, textLen: nat) returns (row: seq<Cell>)
    requires text.Valid() && cols >= 1 && text.Contents != []
    modifies text, text.elements
    ensures text.Valid() && text.elements == old(text.elements)
    ensures var n := if |old(text.Contents)| < cols then |old(text.Contents)| else cols;
      row == Row(old(text.Contents)[..n], cols, firstRow, textLen) && text.Contents == old(text.Contents)[n..]
  {
    ghost var chunk := text.Contents;
    var remCols := cols;
    row := [];
    while text.Length() > 0 && remCols > 0
      invariant text.Valid() && text.elements == old(text.elements)
      invariant 0 <= remCols <= cols && cols - remCols <= |chunk|
      invariant row == Row(chunk[..cols - remCols], cols, firstRow, textLen)
      invariant text.Contents == chunk[cols - remCols..]
      decreases remCols
    {
      ghost var j := cols - remCols;
      remCols := remCols - 1;
      var cellText := text.RemoveFirst();
      // the cell's edges follow from the columns still left after this one
      var cell := CellAt(cellText.value, cols, cols - 1 - remCols, firstRow, textLen);
      RowSnoc(chunk, cols, j, firstRow, textLen);
      row := row + [cell];
    }
    assert cols - remCols == if |chunk| < cols then |chunk| else cols;
  }

  lemma RowSnoc(chunk: seq<string>, cols: int, j: nat, firstRow: bool, textLen: nat)
    requires j < |chunk|
    ensures Row(chunk[..j + 1], cols, firstRow, textLen) ==
              Row(chunk[..j], cols, firstRow, textLen) + [CellAt(chunk[j], cols, j, firstRow, textLen)]
  {
  }

  method DrawAutoBox(splitCells: bool, cmd: Internal.Dq<string>, pins: PinTable, state: ChartState)
    returns (r: Result<Fragment, Commands.Error>)
    requires cmd.Valid()
    modifies cmd, cmd.elements, pins
    ensures Observed(r, pins, state) == Commands.DrawAutoBox(splitCells, old(cmd.Contents), old(WorldOf(pins, state)))
  {
    if cmd.Length() < 5 {
      return Failure(Commands.TooShort);
    }
    var cols := 1;
    if splitCells {
      var colsText := cmd.RemoveFirst();
      cols :- Commands.Parse(colsText.value);
    }
    if cols < 1 {
      return Failure(Commands.ColumnsNotValid(cols));
    }
    r := DrawAutoBoxAt(splitCells, cols, cmd, pins, state);
  }

  /** `DrawAutoBox` after the column count. */
  method DrawAutoBoxAt(splitCells: bool, cols: int, cmd: Internal.Dq<string>, pins: PinTable, state: ChartState)
    returns (r: Result<Fragment, Commands.Error>)
    requires cmd.Valid() && |cmd.Contents| >= 4
    modifies cmd, cmd.elements, pins
    ensures Observed(r, pins, state) == Commands.AutoBoxAt(splitCells, cols, old(cmd.Contents), old(WorldOf(pins, state)))
  {
    var pinBaseName := cmd.RemoveFirst();
    var xText := cmd.RemoveFirst();
    var abX :- Commands.Parse(xText.value);
    var yText := cmd.RemoveFirst();
    var abY :- Commands.Parse(yText.value);
    assert cmd.Contents == old(cmd.Contents)[3..];
    r := AutoBoxSized(splitCells, cols, pinBaseName.value, abX, abY, cmd, pins, state);
  }

  /** `DrawAutoBox` once the corner is read: the size, then the pins and the box. */
  method AutoBoxSized(splitCells: bool, cols: int, name: string, abX: int, abY: int,
                      cmd: Internal.Dq<string>, pins: PinTable, state: ChartState)
    returns (r: Result<Fragment, Commands.Error>)
    requires cmd.Valid() && |cmd.Contents| >= 1 && |cmd.Contents| + 3 < Internal.MaxCapacity
    modifies cmd, cmd.elements, pins
    ensures Observed(r, pins, state) ==
              Commands.AutoBoxSized(splitCells, cols, name, abX, abY, old(cmd.Contents), old(WorldOf(pins, state)))
  {
    var widthText := cmd.RemoveFirst();
    var width :- Commands.Parse(widthText.value);
    var heightText := cmd.RemoveFirst();
    if heightText.Failure? {
      return Failure(Commands.DqFailure(heightText.error));
    }
    var height :- Commands.Parse(heightText.value);
    if width <= 0 {
      return Failure(Commands.WidthNotValid(width));
    }
    if height <= 0 {
      return Failure(Commands.HeightNotValid(height));
    }
    r := PlaceAutoBox(splitCells, cols, name, abX, abY, width, height, cmd, pins, state);
  }

  /** The end of `DrawAutoBox`, once its numbers are read: the pins, then
      the box command rebuilt and drawn. */
  method PlaceAutoBox(splitCells: bool, cols: int, name: string, x: int, y: int, width: int, height: int,
                      cmd: Internal.Dq<string>, pins: PinTable, state: ChartState)
    returns (r: Result<Fragment, Commands.Error>)
    requires cmd.Valid() && |cmd.Contents| + 3 < Internal.MaxCapacity && width > 0 && height > 0
    modifies cmd, cmd.elements, pins
    ensures Observed(r, pins, state) ==
              Commands.DrawBox(splitCells, false,
                               (if splitCells then [FormatInt(cols)] else []) + [name + "_tl", name + "_br"] + old(cmd.Contents),
                               old(WorldOf(pins, state)).(pins := Commands.AutoPins(old(WorldOf(pins, state)), name, x, y, width, height)))
  {
    AddAutoPins(name, x, y, width, height, pins, state);
    PushBoxArgs(splitCells, cols, name, cmd);
    r := DrawBox(splitCells, cmd, pins, state, false);
  }

  /** The eight `AddPinInt` calls of `DrawAutoBox`, with 32-bit sums. */
  method AddAutoPins(name: string, x: int, y: int, width: int, height: int, pins: PinTable, state: ChartState)
    requires width > 0 && height > 0
    modifies pins
    ensures pins.entries == Commands.AutoPins(old(WorldOf(pins, state)), name, x, y, width, height)
  {
    ghost var m := pins.entries;
    ghost var t := state.translate;
    var xMid := Int32.Wrap(x + width / 2);
    var xRight := Int32.Wrap(x + width);
    var yMid := Int32.Wrap(y + height / 2);
    var yBottom := Int32.Wrap(y + height);
    AddPinInt(name + "_tl", x, y, pins, state);
    AddPinInt(name + "_t", xMid, y, pins, state);
    AddPinInt(name + "_tr", xRight, y, pins, state);
    AddPinInt(name + "_l", x, yMid, pins, state);
    AddPinInt(name + "_r", xRight, yMid, pins, state);
    AddPinInt(name + "_bl", x, yBottom, pins, state);
    AddPinInt(name + "_b", xMid, yBottom, pins, state);
    AddPinInt(name + "_br", xRight, yBottom, pins, state);
    assert pins.entries == Commands.PlacePins(m, t, name, x, xMid, xRight, y, yMid, yBottom);
  }

  /** `Box name_tl name_br text...` rebuilt in front of the remaining words,
      with the column count first for a table. */
  method PushBoxArgs(splitCells: bool, cols: int, name: string, cmd: Internal.Dq<string>)
    requires cmd.Valid() && |cmd.Contents| + 3 < Internal.MaxCapacity
    modifies cmd, cmd.elements
    ensures cmd.Valid() && (cmd.elements == old(cmd.elements) || fresh(cmd.elements))
    ensures cmd.Contents == (if splitCells then [FormatInt(cols)] else []) + [name + "_tl", name + "_br"] + old(cmd.Contents)
  {
    Push(cmd, name + "_br");
    Push(cmd, name + "_tl");
    if splitCells {
      Push(cmd, FormatInt(cols));
    }
  }

  /** `AddFirst` on a buffer with room to spare. */
  method Push(cmd: Internal.Dq<string>, word: string)
    requires cmd.Valid() && |cmd.Contents| + 1 < Internal.MaxCapacity
    modifies cmd, cmd.elements
    ensures cmd.Valid() && (cmd.elements == old(cmd.elements) || fresh(cmd.elements))
    ensures cmd.Contents == [word] + old(cmd.Contents)
  {
    var pushed := cmd.AddFirst(word);
  }

  // ---------------------------------------------------------------------
  // Lines

  method DrawLine(useArrow: bool, flipText: bool, cmd: Internal.Dq<string>, pins: PinTable, state: ChartState)
    returns (r: Result<Fragment, Commands.Error>)
    requires cmd.Valid()
    modifies cmd, cmd.elements, state
    ensures Observed(r, pins, state) == Commands.DrawLine(useArrow, flipText, old(cmd.Contents), old(WorldOf(pins, state)))
  {
    if cmd.Length() < 2 {
      return Failure(Commands.TooShort);
    }
    var pin1 := cmd.RemoveFirst();
    var pin2 := cmd.RemoveFirst();
    var words := cmd.ToArray();
    var text := Clean(Join(" ", words[..]));
    if pin1.value !in pins.entries {
      return Failure(Commands.PinNotDefined(pin1.value));
    }
    if pin2.value !in pins.entries {
      return Failure(Commands.PinNotDefined(pin2.value));
    }
    var p1 := pins.entries[pin1.value];
    var p2 := pins.entries[pin2.value];
    // don't draw lines upside-down
    var rightToLeft := p1.x > p2.x;
    if rightToLeft {
      p1, p2 := p2, p1;
    }
    if flipText {
      // force the line to be upside-down
      rightToLeft := !rightToLeft;
      p1, p2 := p2, p1;
    }
    var lineId := state.globalLineNum;
    state.globalLineNum := Int32.Wrap(state.globalLineNum + 1);
    var marker := NoMarker;
    if useArrow {
      marker := if rightToLeft then StartArrow else EndArrow;
    }
    var caption := None;
    if |text| > 0 {
      caption := Some(Replace(text, "_", "&#160;"));
    }
    return Success(Path(lineId, p1, p2, state.lineColor, marker, caption, flipText));
  }

  // ---------------------------------------------------------------------
  // Colours

  /** `Fill rgb` and, with `cmd` absent, `ClearFill`. */
  method SetFillColor(cmd: Internal.Dq?<string>, pins: PinTable, state: ChartState)
    returns (r: Result<Fragment, Commands.Error>)
    requires cmd != null ==> cmd.Valid()
    modifies state
    ensures Observed(r, pins, state) ==
              Commands.SetFillColor(if cmd == null then None else Some(cmd.Contents), old(WorldOf(pins, state)))
  {
    if cmd != null && cmd.Length() > 0 {
      state.boxColor := Some(cmd.Get(0).value);
    } else {
      state.boxColor := None;
    }
    return Success(Empty);
  }

  /** `Stroke rgb` and, with `cmd` absent, `ClearStroke`. */
  method SetLineColor(cmd: Internal.Dq?<string>, pins: PinTable, state: ChartState)
    returns (r: Result<Fragment, Commands.Error>)
    requires cmd != null ==> cmd.Valid()
    modifies state
    ensures Observed(r, pins, state) ==
              Commands.SetLineColor(if cmd == null then None else Some(cmd.Contents), old(WorldOf(pins, state)))
  {
    if cmd != null && cmd.Length() > 0 {
      state.lineColor := Some(cmd.Get(0).value);
    } else {
      state.lineColor := None;
    }
    return Success(Empty);
  }

  // ---------------------------------------------------------------------
  // Dispatch

  /** `HandleCommand`: the line's words go into a buffer; the first,
      lower-cased, picks the handler, which takes the rest. */
  method HandleCommand(cmdStr: string, pins: PinTable, state: ChartState)
    returns (r: Result<Fragment, Commands.Error>)
    modifies pins, state
    ensures Observed(r, pins, state) == Commands.HandleCommand(cmdStr, old(WorldOf(pins, state)))
  {
    var created := Internal.Dq<string>.OfArray(Commands.Tokens(cmdStr));
    Internal.AllocationSizeIsTight(|Commands.Tokens(cmdStr)|);
    if created.Failure? {
      return Failure(Commands.DqFailure(created.error));
    }
    var command := created.value;
    // the words of a line are never fewer than one, so the source's check
    // for an empty command never fires
    var first := command.RemoveFirst();
    r := Dispatch(Lower(first.value), command, cmdStr, pins, state);
  }

  /** The `switch` of `HandleCommand`. */
  method Dispatch(cmdName: string, command: Internal.Dq<string>, cmdStr: string, pins: PinTable, state: ChartState)
    returns (r: Result<Fragment, Commands.Error>)
    requires command.Valid()
    modifies command, command.elements, pins, state
    ensures Observed(r, pins, state) == Commands.Dispatch(cmdName, old(command.Contents), cmdStr, old(WorldOf(pins, state)))
  {
    if cmdName == "#" {
      r := Success(Empty);
    } else if cmdName == "pin" {
      r := AddPin(command, pins, state);
    } else if cmdName == "split" {
      r := SplitPin(command, pins, state);
    } else if cmdName == "offset" {
      r := PinByOffset(command, pins, state);
    } else if cmdName == "move" {
      r := MovePin(command, pins, state);
    } else if cmdName == "moveto" {
      r := MoveToPin(false, false, command, pins, state);
    } else if cmdName == "centre" || cmdName == "center" {
      r := MoveToPin(false, true, command, pins, state);
    } else if cmdName == "moveover" {
      r := MoveToPin(true, false, command, pins, state);
    } else if cmdName == "reset" {
      r := ResetPinsToOrigin(command, pins, state);
    } else if cmdName == "corner" {
      r := PinAtCorner(command, pins, state);
    } else if cmdName == "autobox" {
      r := DrawAutoBox(false, command, pins, state);
    } else if cmdName == "autotable" {
      r := DrawAutoBox(true, command, pins, state);
    } else if cmdName == "box" {
      r := DrawBox(false, command, pins, state, false);
    } else if cmdName == "smallbox" {
      r := DrawBox(false, command, pins, state, true);
    } else if cmdName == "table" {
      r := DrawBox(true, command, pins, state, false);
    } else {
      r := DispatchLines(cmdName, command, cmdStr, pins, state);
    }
  }

  /** The rest of the `switch`: lines, colours, `Project` and `Translate`. */
  method DispatchLines(cmdName: string, command: Internal.Dq<string>, cmdStr: string, pins: PinTable, state: ChartState)
    returns (r: Result<Fragment, Commands.Error>)
    requires command.Valid()
    requires cmdName !in {"#", "pin", "split", "offset", "move", "moveto", "centre", "center", "moveover",
                          "reset", "corner", "autobox", "autotable", "box", "smallbox", "table"}
    modifies command, command.elements, pins, state
    ensures Observed(r, pins, state) == Commands.Dispatch(cmdName, old(command.Contents), cmdStr, old(WorldOf(pins, state)))
  {
    if cmdName == "line" {
      r := DrawLine(false, false, command, pins, state);
    } else if cmdName == "arrow" {
      r := DrawLine(true, false, command, pins, state);
    } else if cmdName == "flipline" {
      r := DrawLine(false, true, command, pins, state);
    } else if cmdName == "fliparrow" {
      r := DrawLine(true, true, command, pins, state);
    } else if cmdName == "fill" {
      r := SetFillColor(command, pins, state);
    } else if cmdName == "stroke" {
      r := SetLineColor(command, pins, state);
    } else if cmdName == "clearfill" {
      r := SetFillColor(null, pins, state);
    } else if cmdName == "clearstroke" {
      r := SetLineColor(null, pins, state);
    } else if cmdName == "project" {
      r := ProjectPin(command, pins, state);
    } else if cmdName == "translate" || cmdName == "group" {
      r := Translate(command, pins, state);
    } else {
      r := Failure(Commands.InvalidCommand(cmdStr));
    }
  }

  // ---------------------------------------------------------------------
  // Whole programs

  /** `RenderToSvg`: every line's command in turn against one pin table and
      chart state, the markup collected, then the canvas fitted to the pins. */
  method RenderToSvg(lines: seq<string>) returns (r: Result<Commands.Svg, Commands.Error>)
    ensures r == Commands.RenderLines(lines)
  {
    var pins := new PinTable();
    var state := new ChartState();
    assert WorldOf(pins, state) == Commands.Start;
    var run := RunLines(lines, pins, state);
    ghost var trace := Commands.Run(lines, Commands.Start);
    if run.Failure? {
      assert trace == Failure(run.error);
      return Failure(run.error);
    }
    assert trace == Success(Commands.Trace(WorldOf(pins, state), run.value));
    var width, height := CanvasExtents(pins.entries);
    // add some margin
    width := Int32.Wrap(width + 20);
    height := Int32.Wrap(height + 20);
    CanvasOf(trace.value);
    return Success(Commands.Svg(-10, -10, width, height, run.value));
  }

  /** The command loop of `RenderToSvg`: the markup of each line, in order,
      skipping lines that emit none; the first error ends it. */
  method RunLines(lines: seq<string>, pins: PinTable, state: ChartState) returns (r: Result<seq<Fragment>, Commands.Error>)
    modifies pins, state
    ensures Commands.Run(lines, old(WorldOf(pins, state))) ==
              if r.Success? then Success(Commands.Trace(WorldOf(pins, state), r.value)) else Failure(r.error)
  {
    ghost var w0 := WorldOf(pins, state);
    var content: seq<Fragment> := [];
    for i := 0 to |lines|
      invariant Commands.Run(lines[..i], w0) == Success(Commands.Trace(WorldOf(pins, state), content))
    {
      Commands.RunStep(lines, i, w0);
      var result := HandleCommand(lines[i], pins, state);
      if result.Failure? {
        Commands.RunStopsAtFailure(lines, i + 1, w0);
        return Failure(result.error);
      }
      if result.value != Empty {
        content := content + [result.value];
      }
    }
    assert lines[..|lines|] == lines;
    return Success(content);
  }

  lemma CanvasOf(t: Commands.Trace)
    ensures Commands.Canvas(Success(t)) ==
              Success(Commands.Svg(-10, -10, Int32.Wrap(Commands.Extent(t.world.pins, X) + 20),
                                   Int32.Wrap(Commands.Extent(t.world.pins, Y) + 20), t.body))
  {
  }

  /** The extents loop of `RenderToSvg`: every pin, in whatever order the
      table yields them, pushes the extents out to its truncated coordinates. */
  method CanvasExtents(m: PinMap) returns (width: int, height: int)
    ensures width == Commands.Extent(m, X) && height == Commands.Extent(m, Y)
  {
    width, height := 100, 100;
    var rest := m.Keys;
    while rest != {}
      invariant rest <= m.Keys
      invariant 0 <= width <= Int32.MaxValue && 0 <= height <= Int32.MaxValue
      invariant Commands.IsExtentOver(m, m.Keys - rest, X, width)
      invariant Commands.IsExtentOver(m, m.Keys - rest, Y, height)
      decreases rest
    {
      var name :| name in rest;
      var pin := m[name];
      Commands.ExtentStepKeeps(m, m.Keys - rest, name, X, width);
      Commands.ExtentStepKeeps(m, m.Keys - rest, name, Y, height);
      assert m.Keys - (rest - {name}) == (m.Keys - rest) + {name};
      width := Commands.ExtentStep(width, pin.x);
      height := Commands.ExtentStep(height, pin.y);
      rest := rest - {name};
    }
    assert m.Keys - rest == m.Keys;
    Commands.ExtentUnique(m, X, width);
    Commands.ExtentUnique(m, Y, height);
  }

  /** `Render(program)`: the program split into trimmed, non-blank lines
      and rendered. */
  method Render(program: string) returns (r: Result<Commands.Svg, Commands.Error>)
    ensures r == Commands.Render(program)
  {
    r := RenderToSvg(Lines(program));
  }
}
