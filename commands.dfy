// What each command of a diagram program does, as functions from the
// command's arguments and the interpreter's state (the pin table and the
// chart settings) to the new state and the markup emitted, or to the error
// the command throws. The imperative handlers in the Rendering module are
// proved to compute exactly these.

module Commands {
  import opened Wrappers
  import Int32
  import Internal
  import opened Text
  import opened Geometry
  import opened PinGroups
  import opened Markup

  /** The state a program runs in: the pin table and the `ChartState`
      fields (fill colour, line colour, translate offset, line counter). */
  datatype World = World(pins: PinMap, boxColor: Option<string>, lineColor: Option<string>,
                         translate: Vec2d, lineNum: int)

  /** A fresh `ChartState`: no colours, no offset, lines numbered from 1. */
  const Start: World := World(map[], None, None, Vec2d(0.0, 0.0), 1)

  /** The exceptions a command throws; their message texts are not modelled. */
  datatype Error =
    | DqFailure(dq: Internal.DqError)
    | ParseFailure(parse: ParseError)
    | TooShort
    | PinNotDefined(name: string)
    | ColumnsNotValid(cols: int)
    | WidthNotValid(width: int)
    | HeightNotValid(height: int)
    | InvalidCommand(line: string)

  /** What a command leaves behind: the new state and its markup. */
  datatype Step = Step(world: World, markup: Fragment)

  function Parse(s: string): (r: Result<int, Error>)
    ensures ParseInt(s).Success? ==> r == Success(ParseInt(s).value)
    ensures ParseInt(s).Failure? ==> r == Failure(ParseFailure(ParseInt(s).error))
  {
    match ParseInt(s)
    case Success(n) => Success(n)
    case Failure(e) => Failure(ParseFailure(e))
  }

  /** A position given in whole numbers, moved by the translate offset. */
  function Translated(offset: Vec2d, x: int, y: int): (v: Vec2d)
    ensures Sub(v, offset) == Vec2d(x as real, y as real)
  {
    Vec2d(x as real + offset.x, y as real + offset.y)
  }

  /** `m2` is `m` with pin `name` set to `v`, every other pin as it was. */
  predicate Defines(m: PinMap, m2: PinMap, name: string, v: Vec2d) {
    m2.Keys == m.Keys + {name} && m2[name] == v &&
    forall k :: k in m && k != name ==> m2[k] == m[k]
  }

  /** Everything but the pin table is as it was. */
  predicate KeepsSettings(w: World, w2: World) {
    w2.boxColor == w.boxColor && w2.lineColor == w.lineColor &&
    w2.translate == w.translate && w2.lineNum == w.lineNum
  }

  // ---------------------------------------------------------------------
  // Pins

  /** `Pin name x y`. */
  function AddPin(args: seq<string>, w: World): (r: Result<Step, Error>)
    ensures r.Success? <==> |args| >= 3 && ParseInt(args[1]).Success? && ParseInt(args[2]).Success?
    ensures r.Success? ==>
              r.value.markup == Empty && KeepsSettings(w, r.value.world) &&
              Defines(w.pins, r.value.world.pins, args[0],
                      Translated(w.translate, ParseInt(args[1]).value, ParseInt(args[2]).value))
  {
    if |args| < 3 then Failure(TooShort)
    else
      var x :- Parse(args[1]);
      var y :- Parse(args[2]);
      Success(Step(w.(pins := w.pins[args[0] := Translated(w.translate, x, y)]), Empty))
  }

  /** `Translate x y` (and `Group x y`): sets the offset of later pins. */
  function Translate(args: seq<string>, w: World): (r: Result<Step, Error>)
    ensures r.Success? <==> |args| >= 2 && ParseInt(args[0]).Success? && ParseInt(args[1]).Success?
    ensures r.Success? ==>
              r.value.markup == Empty && r.value.world.pins == w.pins &&
              r.value.world.translate == Vec2d(ParseInt(args[0]).value as real, ParseInt(args[1]).value as real) &&
              r.value.world.(translate := w.translate) == w
  {
    if |args| < 2 then Failure(TooShort)
    else
      var x :- Parse(args[0]);
      var y :- Parse(args[1]);
      Success(Step(w.(translate := Vec2d(x as real, y as real)), Empty))
  }

  /** `Move dx dy pins...`. */
  function MovePin(args: seq<string>, w: World): (r: Result<Step, Error>)
    ensures r.Success? <==>
              |args| >= 3 && ParseInt(args[0]).Success? && ParseInt(args[1]).Success? &&
              AllDefined(w.pins, args[2..])
    ensures r.Success? ==>
              r.value.markup == Empty && KeepsSettings(w, r.value.world) &&
              r.value.world.pins ==
                MoveGroup(w.pins, args[2..], Vec2d(ParseInt(args[0]).value as real, ParseInt(args[1]).value as real))
  {
    if |args| < 3 then Failure(TooShort)
    else
      var dx :- Parse(args[0]);
      var dy :- Parse(args[1]);
      var names := args[2..];
      match FirstUndefined(w.pins, names)
      case Some(n) => Failure(PinNotDefined(n))
      case None => Success(Step(w.(pins := MoveGroup(w.pins, names, Vec2d(dx as real, dy as real))), Empty))
  }

  /** `Project name a b x`: the foot of the perpendicular from `x` onto the
      line through `a` and `b`. */
  function ProjectPin(args: seq<string>, w: World): (r: Result<Step, Error>)
    ensures r.Success? <==> |args| >= 4 && args[1] in w.pins && args[2] in w.pins && args[3] in w.pins
    ensures r.Success? ==>
              r.value.markup == Empty && KeepsSettings(w, r.value.world) &&
              Defines(w.pins, r.value.world.pins, args[0],
                      ProjectPoint(w.pins[args[1]], w.pins[args[2]], w.pins[args[3]]))
  {
    if |args| < 4 then Failure(TooShort)
    else
      var m := w.pins;
      if args[1] !in m then Failure(PinNotDefined(args[1]))
      else if args[2] !in m then Failure(PinNotDefined(args[2]))
      else if args[3] !in m then Failure(PinNotDefined(args[3]))
      else Success(Step(w.(pins := m[args[0] := ProjectPoint(m[args[1]], m[args[2]], m[args[3]])]), Empty))
  }

  /** `Corner name a b`: the pin at `(a.x, b.y)`. */
  function PinAtCorner(args: seq<string>, w: World): (r: Result<Step, Error>)
    ensures r.Success? <==> |args| >= 3 && args[1] in w.pins && args[2] in w.pins
    ensures r.Success? ==>
              r.value.markup == Empty && KeepsSettings(w, r.value.world) &&
              Defines(w.pins, r.value.world.pins, args[0], Corner(w.pins[args[1]], w.pins[args[2]]))
  {
    if |args| < 3 then Failure(TooShort)
    else
      var m := w.pins;
      if args[1] !in m then Failure(PinNotDefined(args[1]))
      else if args[2] !in m then Failure(PinNotDefined(args[2]))
      else Success(Step(w.(pins := m[args[0] := Corner(m[args[1]], m[args[2]])]), Empty))
  }

  /** `Split name a b`: the pin half-way between `a` and `b`. */
  function SplitPin(args: seq<string>, w: World): (r: Result<Step, Error>)
    ensures r.Success? <==> |args| >= 3 && args[1] in w.pins && args[2] in w.pins
    ensures r.Success? ==>
              r.value.markup == Empty && KeepsSettings(w, r.value.world) &&
              Defines(w.pins, r.value.world.pins, args[0], Midpoint(w.pins[args[1]], w.pins[args[2]]))
  {
    if |args| < 3 then Failure(TooShort)
    else
      var m := w.pins;
      if args[1] !in m then Failure(PinNotDefined(args[1]))
      else if args[2] !in m then Failure(PinNotDefined(args[2]))
      else Success(Step(w.(pins := m[args[0] := Midpoint(m[args[1]], m[args[2]])]), Empty))
  }

  /** `Offset name src dx dy`: the source pin is checked before the numbers
      are parsed. */
  function PinByOffset(args: seq<string>, w: World): (r: Result<Step, Error>)
    ensures r.Success? <==>
              |args| >= 4 && args[1] in w.pins && ParseInt(args[2]).Success? && ParseInt(args[3]).Success?
    ensures |args| >= 4 && args[1] !in w.pins ==> r == Failure(PinNotDefined(args[1]))
    ensures r.Success? ==>
              r.value.markup == Empty && KeepsSettings(w, r.value.world) &&
              Defines(w.pins, r.value.world.pins, args[0],
                      Offset(w.pins[args[1]], ParseInt(args[2]).value as real, ParseInt(args[3]).value as real))
  {
    if |args| < 4 then Failure(TooShort)
    else
      var m := w.pins;
      if args[1] !in m then Failure(PinNotDefined(args[1]))
      else
        var dx :- Parse(args[2]);
        var dy :- Parse(args[3]);
        Success(Step(w.(pins := m[args[0] := Offset(m[args[1]], dx as real, dy as real)]), Empty))
  }

  /** `Reset pins...`. */
  function ResetPinsToOrigin(args: seq<string>, w: World): (r: Result<Step, Error>)
    ensures r.Success? <==> |args| >= 1 && AllDefined(w.pins, args)
    ensures r.Success? ==>
              r.value.markup == Empty && KeepsSettings(w, r.value.world) &&
              r.value.world.pins == ResetGroup(w.pins, args)
  {
    if |args| < 1 then Failure(TooShort)
    else
      match FirstUndefined(w.pins, args)
      case Some(n) => Failure(PinNotDefined(n))
      case None => Success(Step(w.(pins := ResetGroup(w.pins, args)), Empty))
  }

  /** `MoveTo base pins...` (neither flag), `Centre base pins...` (`centre`)
      and `MoveOver base rel pins...` (`useFirst`). The extents take in every
      name after the base, the relative pin included; the relative pin is
      then dropped from the names that move. */
  function MoveToPin(useFirst: bool, centre: bool, args: seq<string>, w: World): (r: Result<Step, Error>)
    ensures r.Success? <==> |args| >= 2 && args[0] in w.pins && AllDefined(w.pins, args[1..])
    ensures r.Success? ==> r.value.markup == Empty && KeepsSettings(w, r.value.world)
    ensures r.Success? && !useFirst ==>
              r.value.world.pins == MoveGroupTo(w.pins, w.pins[args[0]], args[1..], centre)
    ensures r.Success? && useFirst && !centre ==>
              r.value.world.pins == MoveGroupOver(w.pins, w.pins[args[0]], w.pins[args[1]], args[1..][1..])
  {
    if |args| < 2 then Failure(TooShort)
    else
      var m := w.pins;
      var baseName := args[0];
      var names := args[1..];
      if baseName !in m then Failure(PinNotDefined(baseName))
      else
        match FirstUndefined(m, names)
        case Some(n) => Failure(PinNotDefined(n))
        case None => Success(Step(w.(pins := MoveGroupWith(useFirst, centre, m, m[baseName], names)), Empty))
  }

  /** The pins `MoveToPin` leaves once every name is known. */
  function MoveGroupWith(useFirst: bool, centre: bool, m: PinMap, base: Vec2d, names: seq<string>): (r: PinMap)
    requires AllDefined(m, names) && names != []
    ensures !useFirst ==> r == MoveGroupTo(m, base, names, centre)
    ensures useFirst && !centre ==> r == MoveGroupOver(m, base, m[names[0]], names[1..])
  {
    if useFirst then
      AllDefinedTail(m, names);
      var offset := MoveToOffset(m, base, names, Some(m[names[0]]), centre);
      assert !centre ==> offset == Sub(m[names[0]], base);
      ShiftAll(m, names[1..], Negate(offset))
    else
      ShiftAll(m, names, Negate(MoveToOffset(m, base, names, None, centre)))
  }

  // ---------------------------------------------------------------------
  // Boxes

  /** The pieces of a box's text: the remaining words joined by spaces and
      cleaned, split at '|' for a table. */
  function BoxPieces(splitCells: bool, words: seq<string>): (r: seq<string>)
    ensures |r| >= 1
    ensures splitCells ==> Join("|", r) == Clean(Join(" ", words))
    ensures splitCells ==> |r| == 1 + Occurrences(Clean(Join(" ", words)), {'|'})
    ensures splitCells ==> forall i :: 0 <= i < |r| ==> '|' !in r[i]
    ensures !splitCells ==> r == [Clean(Join(" ", words))]
  {
    var textSrc := Clean(Join(" ", words));
    if splitCells then
      JoinSplit(textSrc, '|');
      Split(textSrc, {'|'})
    else [textSrc]
  }

  /** `Box a b text...`, `SmallBox a b text...` and `Table cols a b text...`. */
  function DrawBox(splitCells: bool, small: bool, args: seq<string>, w: World): (r: Result<Step, Error>)
    ensures r.Success? ==> r.value.world == w && r.value.markup.Rect?
  {
    if |args| < 2 then Failure(TooShort)
    else
      var cols :- if splitCells then Parse(args[0]) else Success(1);
      BoxWithColumns(splitCells, small, cols, if splitCells then args[1..] else args, w)
  }

  /** The rest of `DrawBox` once the column count is read: `rest` holds the
      pin names, then the text. */
  function BoxWithColumns(splitCells: bool, small: bool, cols: int, rest: seq<string>, w: World)
    : (r: Result<Step, Error>)
    ensures r.Success? ==> r.value.world == w && r.value.markup.Rect?
  {
    if cols < 1 then Failure(ColumnsNotValid(cols))
    else if |rest| < 2 then Failure(DqFailure(Internal.VectorEmpty))
    else BoxAt(splitCells, small, cols, rest, w)
  }

  /** The rest of `DrawBox` once the column count is known and both pin
      names have been read: `rest` holds the pin names, then the text. */
  function BoxAt(splitCells: bool, small: bool, cols: int, rest: seq<string>, w: World): (r: Result<Step, Error>)
    requires cols >= 1 && |rest| >= 2
    ensures r.Success? <==>
              |BoxPieces(splitCells, rest[2..])| < Internal.MaxCapacity && rest[0] in w.pins && rest[1] in w.pins
    ensures r.Success? ==> r.value.world == w && r.value.markup.Rect?
    ensures r.Success? ==>
              r.value.markup == BoxBetween(w.pins[rest[0]], w.pins[rest[1]], w.boxColor,
                                           BoxText(small, r.value.markup.width / cols as real,
                                                   Table(BoxPieces(splitCells, rest[2..]), cols)))
  {
    var pieces := BoxPieces(splitCells, rest[2..]);
    if |pieces| >= Internal.MaxCapacity then Failure(DqFailure(Internal.InvalidElementCount))
    else if rest[0] !in w.pins then Failure(PinNotDefined(rest[0]))
    else if rest[1] !in w.pins then Failure(PinNotDefined(rest[1]))
    else
      var p1 := w.pins[rest[0]];
      var p2 := w.pins[rest[1]];
      var box := BoxBetween(p1, p2, w.boxColor, BoxText(small, 0.0, []));
      var text := BoxText(small, box.width / cols as real, Table(pieces, cols));
      Success(Step(w, box.(text := text)))
  }

  /** The eight pins `AutoBox` places around its box, moved by the translate
      offset. The sums are 32-bit `int` sums, which wrap around. */
  function AutoPins(w: World, name: string, x: int, y: int, width: int, height: int): (r: PinMap)
    requires width > 0 && height > 0
    ensures r.Keys == w.pins.Keys + AutoPinNames(name)
    ensures forall n :: n in w.pins && n !in AutoPinNames(name) ==> r[n] == w.pins[n]
    ensures r[name + "_tl"] == Translated(w.translate, x, y)
    ensures r[name + "_br"] == Translated(w.translate, Int32.Wrap(x + width), Int32.Wrap(y + height))
  {
    CornerNamesDiffer(name);
    var halfWidth := width / 2;
    var halfHeight := height / 2;
    var xMid := Int32.Wrap(x + halfWidth);
    var xRight := Int32.Wrap(x + width);
    var yMid := Int32.Wrap(y + halfHeight);
    var yBottom := Int32.Wrap(y + height);
    PlacePins(w.pins, w.translate, name, x, xMid, xRight, y, yMid, yBottom)
  }

  /** The eight pin assignments of `AutoPins`, in the order `AutoBox` makes
      them, at the given left, middle and right columns and top, middle and
      bottom rows. */
  function PlacePins(m: PinMap, t: Vec2d, name: string, x: int, xMid: int, xRight: int, y: int, yMid: int, yBottom: int): PinMap {
    m[name + "_tl" := Translated(t, x, y)]
     [name + "_t" := Translated(t, xMid, y)]
     [name + "_tr" := Translated(t, xRight, y)]
     [name + "_l" := Translated(t, x, yMid)]
     [name + "_r" := Translated(t, xRight, yMid)]
     [name + "_bl" := Translated(t, x, yBottom)]
     [name + "_b" := Translated(t, xMid, yBottom)]
     [name + "_br" := Translated(t, xRight, yBottom)]
  }

  /** The names of the eight pins `AutoBox` places for `name`. */
  function AutoPinNames(name: string): set<string> {
    {name + "_tl", name + "_t", name + "_tr", name + "_l", name + "_r", name + "_bl", name + "_b", name + "_br"}
  }

  /** The corner pins `AutoBox` places are distinct from its other six. */
  lemma CornerNamesDiffer(name: string)
    ensures var tl, br := name + "_tl", name + "_br";
      tl != br && tl != name + "_t" && tl != name + "_tr" && tl != name + "_l" && tl != name + "_r" &&
      tl != name + "_bl" && tl != name + "_b" && br != name + "_t" && br != name + "_tr" &&
      br != name + "_l" && br != name + "_r" && br != name + "_bl" && br != name + "_b"
  {
    var n := |name|;
    assert (name + "_tl")[n + 2] == 'l' && (name + "_br")[n + 2] == 'r';
    assert (name + "_tl")[n + 1] == 't' && (name + "_br")[n + 1] == 'b';
    assert (name + "_tr")[n + 1] == 't' && (name + "_bl")[n + 1] == 'b';
    assert |name + "_t"| == |name + "_l"| == |name + "_r"| == |name + "_b"| == n + 2;
  }

  /** `AutoBox name x y width height text...` and `AutoTable cols name x y
      width height text...`: the eight pins, then the box from `name_tl` to
      `name_br`. The length check counts five arguments for both, so an
      `AutoTable` with five runs out of tokens at the height. */
  function DrawAutoBox(splitCells: bool, args: seq<string>, w: World): (r: Result<Step, Error>)
    ensures r.Success? ==> r.value.markup.Rect? && KeepsSettings(w, r.value.world)
  {
    if |args| < 5 then Failure(TooShort)
    else
      var cols :- if splitCells then Parse(args[0]) else Success(1);
      var a := if splitCells then args[1..] else args;
      if cols < 1 then Failure(ColumnsNotValid(cols))
      else AutoBoxAt(splitCells, cols, a, w)
  }

  /** The rest of `DrawAutoBox` once the column count is known: `a` holds
      the name, the corner, the size and the text. */
  function AutoBoxAt(splitCells: bool, cols: int, a: seq<string>, w: World): (r: Result<Step, Error>)
    requires |a| >= 4
    ensures r.Success? ==> r.value.markup.Rect? && KeepsSettings(w, r.value.world)
  {
    var x :- Parse(a[1]);
    var y :- Parse(a[2]);
    AutoBoxSized(splitCells, cols, a[0], x, y, a[3..], w)
  }

  /** The rest of `AutoBoxAt` once the corner is read: `b` holds the size
      and the text. */
  function AutoBoxSized(splitCells: bool, cols: int, name: string, x: int, y: int, b: seq<string>, w: World)
    : (r: Result<Step, Error>)
    requires |b| >= 1
    ensures r.Success? ==> r.value.markup.Rect? && KeepsSettings(w, r.value.world)
  {
    var width :- Parse(b[0]);
    if |b| < 2 then Failure(DqFailure(Internal.VectorEmpty))
    else
      var height :- Parse(b[1]);
      if width <= 0 then Failure(WidthNotValid(width))
      else if height <= 0 then Failure(HeightNotValid(height))
      else
        var boxArgs := (if splitCells then [FormatInt(cols)] else []) + [name + "_tl", name + "_br"] + b[2..];
        DrawBox(splitCells, false, boxArgs, w.(pins := AutoPins(w, name, x, y, width, height)))
  }

  // ---------------------------------------------------------------------
  // Lines

  /** `Line a b text...`, `Arrow ...`, `FlipLine ...` and `FlipArrow ...`. */
  function DrawLine(useArrow: bool, flipText: bool, args: seq<string>, w: World): (r: Result<Step, Error>)
    ensures r.Success? <==> |args| >= 2 && args[0] in w.pins && args[1] in w.pins
    ensures r.Success? ==>
              r.value.world == w.(lineNum := Int32.Wrap(w.lineNum + 1)) &&
              r.value.markup.Path? && r.value.markup.id == w.lineNum
    ensures r.Success? ==>
              var p := r.value.markup;
              var p1 := w.pins[args[0]];
              var p2 := w.pins[args[1]];
              ((p.from == p1 && p.to == p2) || (p.from == p2 && p.to == p1)) &&
              (!flipText ==> p.from.x <= p.to.x) && (flipText ==> p.from.x >= p.to.x) &&
              (useArrow ==> ArrowTip(p) == Some(p2)) && (!useArrow ==> p.marker == NoMarker) &&
              p.upsideDown == flipText && p.stroke == w.lineColor &&
              (p.caption.None? <==> Clean(Join(" ", args[2..])) == []) &&
              (p.caption.Some? ==> p.caption.value == Replace(Clean(Join(" ", args[2..])), "_", "&#160;"))
  {
    if |args| < 2 then Failure(TooShort)
    else
      var text := Clean(Join(" ", args[2..]));
      if args[0] !in w.pins then Failure(PinNotDefined(args[0]))
      else if args[1] !in w.pins then Failure(PinNotDefined(args[1]))
      else
        var p1 := w.pins[args[0]];
        var p2 := w.pins[args[1]];
        var rightToLeft := p1.x > p2.x;
        var start := if rightToLeft then p2 else p1;
        var end := if rightToLeft then p1 else p2;
        var from := if flipText then end else start;
        var to := if flipText then start else end;
        var reversed := if flipText then !rightToLeft else rightToLeft;
        var marker := if !useArrow then NoMarker else if reversed then StartArrow else EndArrow;
        var caption := if text == [] then None else Some(Replace(text, "_", "&#160;"));
        Success(Step(w.(lineNum := Int32.Wrap(w.lineNum + 1)),
                     Path(w.lineNum, from, to, w.lineColor, marker, caption, flipText)))
  }

  // ---------------------------------------------------------------------
  // Colours

  /** `Fill rgb` (`args` present) and `ClearFill` (`args` absent): the first
      argument, if there is one, becomes the fill colour; otherwise it is cleared. */
  function SetFillColor(args: Option<seq<string>>, w: World): (r: Result<Step, Error>)
    ensures r.Success?
    ensures r.value.markup == Empty && r.value.world.(boxColor := w.boxColor) == w
    ensures r.value.world.boxColor.Some? <==> args.Some? && |args.value| > 0
    ensures args.Some? && |args.value| > 0 ==> r.value.world.boxColor == Some(args.value[0])
  {
    var colour := if args.Some? && |args.value| > 0 then Some(args.value[0]) else None;
    Success(Step(w.(boxColor := colour), Empty))
  }

  /** `Stroke rgb` and `ClearStroke`, for the line colour. */
  function SetLineColor(args: Option<seq<string>>, w: World): (r: Result<Step, Error>)
    ensures r.Success?
    ensures r.value.markup == Empty && r.value.world.(lineColor := w.lineColor) == w
    ensures r.value.world.lineColor.Some? <==> args.Some? && |args.value| > 0
    ensures args.Some? && |args.value| > 0 ==> r.value.world.lineColor == Some(args.value[0])
  {
    var colour := if args.Some? && |args.value| > 0 then Some(args.value[0]) else None;
    Success(Step(w.(lineColor := colour), Empty))
  }

  // ---------------------------------------------------------------------
  // Dispatch

  /** The keywords `HandleCommand` knows, in lower case. */
  const Keywords: set<string> := {
    "#", "pin", "split", "offset", "move", "moveto", "centre", "center", "moveover", "reset",
    "corner", "autobox", "autotable", "box", "smallbox", "table", "line", "arrow", "flipline",
    "fliparrow", "fill", "stroke", "clearfill", "clearstroke", "project", "translate", "group"
  }

  /** The words of a line: split at spaces and tabs, empty words kept. */
  function Tokens(line: string): (r: seq<string>)
    ensures |r| >= 1
  {
    Split(line, {' ', '\t'})
  }

  /** The handler for a lower-cased keyword, applied to the words after it. */
  function Dispatch(keyword: string, args: seq<string>, line: string, w: World): (r: Result<Step, Error>)
    ensures keyword !in Keywords ==> r == Failure(InvalidCommand(line))
    ensures keyword == "#" ==> r == Success(Step(w, Empty))
  {
    if keyword == "#" then Success(Step(w, Empty))
    else if keyword == "pin" then AddPin(args, w)
    else if keyword == "split" then SplitPin(args, w)
    else if keyword == "offset" then PinByOffset(args, w)
    else if keyword == "move" then MovePin(args, w)
    else if keyword == "moveto" then MoveToPin(false, false, args, w)
    else if keyword == "centre" || keyword == "center" then MoveToPin(false, true, args, w)
    else if keyword == "moveover" then MoveToPin(true, false, args, w)
    else if keyword == "reset" then ResetPinsToOrigin(args, w)
    else if keyword == "corner" then PinAtCorner(args, w)
    else if keyword == "autobox" then DrawAutoBox(false, args, w)
    else if keyword == "autotable" then DrawAutoBox(true, args, w)
    else if keyword == "box" then DrawBox(false, false, args, w)
    else if keyword == "smallbox" then DrawBox(false, true, args, w)
    else if keyword == "table" then DrawBox(true, false, args, w)
    else if keyword == "line" then DrawLine(false, false, args, w)
    else if keyword == "arrow" then DrawLine(true, false, args, w)
    else if keyword == "flipline" then DrawLine(false, true, args, w)
    else if keyword == "fliparrow" then DrawLine(true, true, args, w)
    else if keyword == "fill" then SetFillColor(Some(args), w)
    else if keyword == "stroke" then SetLineColor(Some(args), w)
    else if keyword == "clearfill" then SetFillColor(None, w)
    else if keyword == "clearstroke" then SetLineColor(None, w)
    else if keyword == "project" then ProjectPin(args, w)
    else if keyword == "translate" || keyword == "group" then Translate(args, w)
    else Failure(InvalidCommand(line))
  }

  /** `HandleCommand(line)`: the line's words go into a buffer, which a line
      of 2^30 or more words is too long for; the first word, lower-cased,
      picks the handler. */
  function HandleCommand(line: string, w: World): (r: Result<Step, Error>)
    ensures |Tokens(line)| >= Internal.MaxCapacity ==> r == Failure(DqFailure(Internal.InvalidElementCount))
    ensures |Tokens(line)| < Internal.MaxCapacity && Lower(Tokens(line)[0]) !in Keywords ==>
              r == Failure(InvalidCommand(line))
  {
    var tokens := Tokens(line);
    if |tokens| >= Internal.MaxCapacity then Failure(DqFailure(Internal.InvalidElementCount))
    else Dispatch(Lower(tokens[0]), tokens[1..], line, w)
  }

  // ---------------------------------------------------------------------
  // Whole programs

  /** The state after some lines and the markup they emitted, in order. */
  datatype Trace = Trace(world: World, body: seq<Fragment>)

  /** The commands of `lines` run in order from `w`; the first error stops
      the run. Commands that emit nothing add nothing to the body. */
  function Run(lines: seq<string>, w: World): (r: Result<Trace, Error>)
    ensures r.Success? ==> forall i :: 0 <= i < |r.value.body| ==> r.value.body[i] != Empty
    decreases |lines|
  {
    if lines == [] then Success(Trace(w, []))
    else
      var t :- Run(lines[..|lines| - 1], w);
      var s :- HandleCommand(lines[|lines| - 1], t.world);
      Success(Trace(s.world, if s.markup == Empty then t.body else t.body + [s.markup]))
  }

  /** The first error stops the run: once a prefix fails, so does every
      longer run, with the same error. */
  lemma {:induction false} RunStopsAtFailure(lines: seq<string>, k: nat, w: World)
    requires k <= |lines| && Run(lines[..k], w).Failure?
    ensures Run(lines, w) == Run(lines[..k], w)
    decreases |lines| - k
  {
    if k < |lines| {
      var n := |lines| - 1;
      assert lines[..n][..k] == lines[..k];
      RunStopsAtFailure(lines[..n], k, w);
      RunStep(lines, n, w);
      assert lines[..n + 1] == lines;
    } else {
      assert lines[..k] == lines;
    }
  }

  /** One more line: the run so far, then that line's command. */
  lemma RunStep(lines: seq<string>, i: nat, w: World)
    requires i < |lines|
    ensures Run(lines[..i + 1], w) ==
              match Run(lines[..i], w)
              case Failure(e) => Failure(e)
              case Success(t) =>
                match HandleCommand(lines[i], t.world)
                case Failure(e) => Failure(e)
                case Success(s) => Success(Trace(s.world, if s.markup == Empty then t.body else t.body + [s.markup]))
  {
    assert lines[..i + 1][..i] == lines[..i];
    assert lines[..i + 1][i] == lines[i];
  }

  /** Taking one more pin into the extents keeps them the extents. */
  lemma ExtentStepKeeps(m: PinMap, keys: set<string>, k: string, axis: Axis, e: int)
    requires IsExtentOver(m, keys, axis, e) && e <= Int32.MaxValue && k in m
    ensures IsExtentOver(m, keys + {k}, axis, ExtentStep(e, Coord(m[k], axis)))
  {
    var r := ExtentStep(e, Coord(m[k], axis));
    if r != e {
      assert r == ToInt32(Coord(m[k], axis));
    } else if e != 100 {
      var j :| j in keys && j in m && e == ToInt32(Coord(m[j], axis));
      assert j in keys + {k};
    }
  }

  /** `(int)x` for a double: truncated toward zero and, as .NET does,
      saturated at the ends of the `int` range. */
  function ToInt32(x: real): (r: int)
    ensures Int32.InRange(r)
    ensures 0.0 <= x < Int32.MaxValue as real ==> r as real <= x < r as real + 1.0
  {
    var t := if x >= 0.0 then x.Floor else -((-x).Floor);
    if t < Int32.MinValue then Int32.MinValue else if t > Int32.MaxValue then Int32.MaxValue else t
  }

  /** One step of the extents loop: `(int)Math.Max(width, x)`. */
  function ExtentStep(e: int, x: real): (r: int)
    requires 0 <= e <= Int32.MaxValue
    ensures r == (if ToInt32(x) > e then ToInt32(x) else e)
  {
    ToInt32(if e as real >= x then e as real else x)
  }

  /** `e` is the larger of 100 and the truncated coordinate of every pin
      named in `keys`. */
  ghost predicate IsExtentOver(m: PinMap, keys: set<string>, axis: Axis, e: int) {
    e >= 100 &&
    (forall k :: k in keys && k in m ==> ToInt32(Coord(m[k], axis)) <= e) &&
    (e == 100 || exists k :: k in keys && k in m && e == ToInt32(Coord(m[k], axis)))
  }

  /** `e` is the larger of 100 and every pin's truncated coordinate. */
  ghost predicate IsExtent(m: PinMap, axis: Axis, e: int) {
    IsExtentOver(m, m.Keys, axis, e)
  }

  /** The canvas extent along an axis; the pins may be taken in any order. */
  ghost function Extent(m: PinMap, axis: Axis): (e: int)
    ensures IsExtent(m, axis, e) && e <= Int32.MaxValue
    decreases |m.Keys|
  {
    if m == map[] then 100
    else
      var k :| k in m;
      var rest := m - {k};
      assert rest.Keys == m.Keys - {k};
      var c := ToInt32(Coord(m[k], axis));
      var e := Extent(rest, axis);
      assert forall j :: j in m ==> j == k || (j in rest && rest[j] == m[j]);
      if c > e then c else e
  }

  /** The extent is determined by the pins alone. */
  lemma ExtentUnique(m: PinMap, axis: Axis, e: int)
    requires IsExtent(m, axis, e)
    ensures e == Extent(m, axis)
  {
    var f := Extent(m, axis);
    if e != 100 {
      var k :| k in m && e == ToInt32(Coord(m[k], axis));
      assert e <= f;
    }
    if f != 100 {
      var k :| k in m && f == ToInt32(Coord(m[k], axis));
      assert f <= e;
    }
  }

  /** The markup of a whole program, inside a canvas that starts at
      (-10, -10) and reaches 20 past the extents of the final pins. */
  datatype Svg = Svg(minX: int, minY: int, width: int, height: int, body: seq<Fragment>)

  /** `RenderToSvg(lines)`: the lines run from a fresh state, then the
      canvas is fitted to the final pins. */
  ghost function RenderLines(lines: seq<string>): (r: Result<Svg, Error>)
    ensures r.Success? <==> Run(lines, Start).Success?
    ensures r.Success? ==> r.value.minX == -10 && r.value.minY == -10 && r.value.body == Run(lines, Start).value.body
    ensures lines == [] ==> r == Success(Svg(-10, -10, 120, 120, []))
  {
    Canvas(Run(lines, Start))
  }

  /** The canvas around a finished run: 20 past the extents of its pins. */
  ghost function Canvas(run: Result<Trace, Error>): (r: Result<Svg, Error>)
    ensures r.Success? <==> run.Success?
    ensures r.Success? ==> r.value.minX == -10 && r.value.minY == -10 && r.value.body == run.value.body
  {
    var t :- run;
    var m := t.world.pins;
    Success(Svg(-10, -10, Int32.Wrap(Extent(m, X) + 20), Int32.Wrap(Extent(m, Y) + 20), t.body))
  }

  /** `Render(program)`: the program's trimmed, non-blank lines rendered. */
  ghost function Render(program: string): (r: Result<Svg, Error>)
    ensures r.Success? <==> Run(Lines(program), Start).Success?
    ensures r.Success? ==> r.value.body == Run(Lines(program), Start).value.body
    ensures Lines(program) == [] ==> r == Success(Svg(-10, -10, 120, 120, []))
  {
    RenderLines(Lines(program))
  }
}
