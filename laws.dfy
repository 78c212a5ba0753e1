// What the commands promise when put together: numbers printed and read
// back, the translate offset, the group moves, the box layout, keywords in
// any case, the line counter and the canvas.

module Laws {
  import opened Wrappers
  import Int32
  import Internal
  import opened Text
  import opened Geometry
  import opened PinGroups
  import opened Markup
  import opened Commands

  // ---------------------------------------------------------------------
  // Pins

  /** `Pin name x y` with numbers as `ToString` prints them sets the pin to
      exactly those numbers, moved by the translate offset. */
  lemma PinRoundTrip(name: string, x: int, y: int, w: World)
    requires Int32.InRange(x) && Int32.InRange(y)
    ensures AddPin([name, FormatInt(x), FormatInt(y)], w) ==
              Success(Step(w.(pins := w.pins[name := Translated(w.translate, x, y)]), Empty))
  {
    ParseFormat(x);
    ParseFormat(y);
    PinParsed(name, FormatInt(x), FormatInt(y), x, y, w);
  }

  /** `Pin name x y` with two numbers that parse sets the pin to them, moved
      by the translate offset, and changes nothing else. */
  lemma PinParsed(name: string, sx: string, sy: string, x: int, y: int, w: World)
    requires ParseInt(sx) == Success(x) && ParseInt(sy) == Success(y)
    ensures AddPin([name, sx, sy], w) ==
              Success(Step(w.(pins := w.pins[name := Translated(w.translate, x, y)]), Empty))
  {
    var args := [name, sx, sy];
    assert args[1] == sx && args[2] == sy;
  }

  /** After `Translate a b`, `Pin name x y` lands at (x + a, y + b),
      whatever the offset was before. */
  lemma TranslateThenPin(sa: string, sb: string, name: string, sx: string, sy: string,
                         a: int, b: int, x: int, y: int, w: World)
    requires ParseInt(sa) == Success(a) && ParseInt(sb) == Success(b)
    requires ParseInt(sx) == Success(x) && ParseInt(sy) == Success(y)
    ensures var t := Translate([sa, sb], w);
      t.Success? &&
      AddPin([name, sx, sy], t.value.world) ==
        Success(Step(w.(translate := Vec2d(a as real, b as real),
                        pins := w.pins[name := Vec2d((x + a) as real, (y + b) as real)]), Empty))
  {
    var moved := w.(translate := Vec2d(a as real, b as real));
    assert Translate([sa, sb], w) == Success(Step(moved, Empty));
    PinParsed(name, sx, sy, x, y, moved);
    var p := Vec2d((x + a) as real, (y + b) as real);
    TranslatedSum(a, b, x, y);
    assert moved.(pins := moved.pins[name := p]) ==
           w.(translate := Vec2d(a as real, b as real), pins := w.pins[name := p]);
  }

  /** A point translated by (a, b) is the point of the integer sums. */
  lemma TranslatedSum(a: int, b: int, x: int, y: int)
    ensures Translated(Vec2d(a as real, b as real), x, y) == Vec2d((x + a) as real, (y + b) as real)
  {
    assert x as real + a as real == (x + a) as real;
    assert y as real + b as real == (y + b) as real;
  }

  /** `Offset new src dx dy` puts the new pin at `src` moved by (dx, dy)
      and leaves every other pin and setting alone. */
  lemma OffsetPlaces(p: string, src: string, sx: string, sy: string, w: World)
    requires ParseInt(sx).Success? && ParseInt(sy).Success? && src in w.pins
    ensures PinByOffset([p, src, sx, sy], w) ==
              Success(Step(w.(pins := w.pins[p := Offset(w.pins[src], ParseInt(sx).value as real,
                                                          ParseInt(sy).value as real)]), Empty))
  {
  }

  /** An `Offset` by (-dx, -dy) from a pin that was placed at `a` moved by
      (dx, dy) lands on `a`. */
  lemma OffsetBack(q: string, p: string, tx: string, ty: string, dx: int, dy: int, a: Vec2d, w: World)
    requires ParseInt(tx) == Success(-dx) && ParseInt(ty) == Success(-dy)
    requires p in w.pins && w.pins[p] == Offset(a, dx as real, dy as real)
    ensures PinByOffset([q, p, tx, ty], w).Success?
    ensures PinByOffset([q, p, tx, ty], w).value.world.pins[q] == a
  {
    OffsetPlaces(q, p, tx, ty, w);
    OffsetInverse(a, dx as real, dy as real);
  }

  /** An `Offset` by (dx, dy) followed by an `Offset` by (-dx, -dy) from the
      new pin lands back where `src` was, whatever text spells the numbers. */
  lemma OffsetRoundTrip(p: string, q: string, src: string, sx: string, sy: string,
                        tx: string, ty: string, dx: int, dy: int, w: World)
    requires ParseInt(sx) == Success(dx) && ParseInt(sy) == Success(dy)
    requires ParseInt(tx) == Success(-dx) && ParseInt(ty) == Success(-dy)
    requires src in w.pins
    ensures PinByOffset([p, src, sx, sy], w).Success?
    ensures var w1 := PinByOffset([p, src, sx, sy], w).value.world;
      PinByOffset([q, p, tx, ty], w1).Success? &&
      PinByOffset([q, p, tx, ty], w1).value.world.pins[q] == w.pins[src]
  {
    OffsetPlaces(p, src, sx, sy, w);
    var w1 := PinByOffset([p, src, sx, sy], w).value.world;
    OffsetBack(q, p, tx, ty, dx, dy, w.pins[src], w1);
  }

  // ---------------------------------------------------------------------
  // Groups

  /** The pins named in `names` all lie inside the pin range. */
  predicate GroupInRange(m: PinMap, names: seq<string>)
    requires AllDefined(m, names)
  {
    forall i :: 0 <= i < |names| ==> InPinRange(m[names[i]])
  }

  /** `Reset pins...` over distinct pins inside the pin range puts the group
      against both axes: none left of or above the origin, one on each. */
  lemma ResetCommand(args: seq<string>, w: World)
    requires ResetPinsToOrigin(args, w).Success? && Distinct(args) && GroupInRange(w.pins, args)
    ensures var r := ResetPinsToOrigin(args, w).value.world.pins;
      (forall i :: 0 <= i < |args| ==> r[args[i]].x >= 0.0 && r[args[i]].y >= 0.0) &&
      (exists i :: 0 <= i < |args| && r[args[i]].x == 0.0) &&
      (exists i :: 0 <= i < |args| && r[args[i]].y == 0.0) &&
      (forall k :: k in w.pins && k !in args ==> r[k] == w.pins[k])
  {
    ResetPutsGroupAtOrigin(w.pins, args);
  }

  /** `MoveTo base pins...` puts the group's top left corner on the base pin. */
  lemma MoveToCommand(args: seq<string>, w: World)
    requires MoveToPin(false, false, args, w).Success?
    requires Distinct(args[1..]) && GroupInRange(w.pins, args[1..])
    ensures var r := MoveToPin(false, false, args, w).value.world.pins;
      var base := w.pins[args[0]];
      (forall i :: 1 <= i < |args| ==> r[args[i]].x >= base.x && r[args[i]].y >= base.y) &&
      (exists i :: 1 <= i < |args| && r[args[i]].x == base.x) &&
      (exists i :: 1 <= i < |args| && r[args[i]].y == base.y)
  {
    var names := args[1..];
    MoveToAlignsWithBase(w.pins, w.pins[args[0]], names);
    var r := MoveGroupTo(w.pins, w.pins[args[0]], names, false);
    forall i | 1 <= i < |args| ensures args[i] == names[i - 1] {
    }
    var jx :| 0 <= jx < |names| && r[names[jx]].x == w.pins[args[0]].x;
    assert args[jx + 1] == names[jx];
    var jy :| 0 <= jy < |names| && r[names[jy]].y == w.pins[args[0]].y;
    assert args[jy + 1] == names[jy];
  }

  /** `Centre base pins...` balances the group around the base pin on both
      axes: its leftmost and rightmost pins lie equally far either side of
      the base, and so do its top and bottom ones. */
  lemma CentreCommand(args: seq<string>, w: World)
    requires MoveToPin(false, true, args, w).Success?
    requires Distinct(args[1..]) && GroupInRange(w.pins, args[1..])
    ensures AllDefined(MoveToPin(false, true, args, w).value.world.pins, args[1..])
    ensures BalancedAlong(MoveToPin(false, true, args, w).value.world.pins, w.pins[args[0]], args[1..], X)
    ensures BalancedAlong(MoveToPin(false, true, args, w).value.world.pins, w.pins[args[0]], args[1..], Y)
  {
    CentreBalancesAroundBase(w.pins, w.pins[args[0]], args[1..]);
  }

  /** `MoveOver base rel pins...` moves the group by the step from `rel` to
      `base`: each moved pin stands to the base as it stood to `rel`, and
      every other pin, `rel` included, stays put. */
  lemma MoveOverCommand(args: seq<string>, w: World)
    requires MoveToPin(true, false, args, w).Success? && Distinct(args[1..])
    ensures var r := MoveToPin(true, false, args, w).value.world.pins;
      (forall i :: 2 <= i < |args| ==> Sub(r[args[i]], w.pins[args[0]]) == Sub(w.pins[args[i]], w.pins[args[1]])) &&
      (forall k :: k in w.pins && k !in args[2..] ==> r[k] == w.pins[k])
  {
    var names := args[1..][1..];
    assert names == args[2..];
    AllDefinedTail(w.pins, args[1..]);
    forall i, j | 0 <= i < j < |names| ensures names[i] != names[j] {
      assert names[i] == args[1..][i + 1] && names[j] == args[1..][j + 1];
    }
    MoveOverKeepsShape(w.pins, w.pins[args[0]], w.pins[args[1]], names);
    forall i | 2 <= i < |args| ensures args[i] == names[i - 2] {
    }
  }

  // ---------------------------------------------------------------------
  // Boxes

  /** The cells of a box, read row by row. */
  function CellTexts(box: Fragment): seq<string>
    requires box.Rect?
  {
    Texts(Flatten(box.text.rows))
  }

  /** `Table cols a b text...` loses no text: its cells, read row by row,
      are the '|'-separated pieces of the cleaned text, so there is one cell
      per piece and joined with '|' they give back the cleaned text. */
  lemma TableKeepsText(small: bool, args: seq<string>, w: World)
    requires DrawBox(true, small, args, w).Success?
    ensures CellTexts(DrawBox(true, small, args, w).value.markup) == Split(Clean(Join(" ", args[3..])), {'|'})
    ensures Join("|", CellTexts(DrawBox(true, small, args, w).value.markup)) == Clean(Join(" ", args[3..]))
  {
    var cols := ParseInt(args[0]).value;
    TableIsBoxAt(small, args, cols, w);
    BoxAtTable(small, cols, args[1..], w);
    assert args[1..][2..] == args[3..];
    JoinSplit(Clean(Join(" ", args[3..])), '|');
  }

  /** `Table cols a b text...` with a column count of at least one fails
      exactly when a pin is missing or the text has 2^30 pieces or more.
      Otherwise it draws the rectangle spanned by the two pins in the fill
      colour, gives every column an equal share of its width and lays the
      '|'-separated pieces of the cleaned text out `cols` to a row. */
  lemma TableCommand(small: bool, args: seq<string>, cols: int, w: World)
    requires |args| >= 3 && ParseInt(args[0]) == Success(cols) && cols >= 1
    ensures var pieces := Split(Clean(Join(" ", args[3..])), {'|'});
      var r := DrawBox(true, small, args, w);
      (r.Success? <==> |pieces| < Internal.MaxCapacity && args[1] in w.pins && args[2] in w.pins) &&
      (r.Success? ==>
         r.value.world == w &&
         r.value.markup == BoxBetween(w.pins[args[1]], w.pins[args[2]], w.boxColor,
                                      BoxText(small, r.value.markup.width / cols as real, Table(pieces, cols))))
  {
    TableIsBoxAt(small, args, cols, w);
    BoxAtTable(small, cols, args[1..], w);
    assert args[1..][2..] == args[3..];
  }

  /** `Table` reads its column count, then goes on as every box does. */
  lemma TableIsBoxAt(small: bool, args: seq<string>, cols: int, w: World)
    requires |args| >= 3 && ParseInt(args[0]) == Success(cols) && cols >= 1
    ensures DrawBox(true, small, args, w) == BoxAt(true, small, cols, args[1..], w)
  {
    assert Parse(args[0]) == Success(cols);
  }

  /** A table box once the column count and the pin names are read. */
  lemma BoxAtTable(small: bool, cols: int, rest: seq<string>, w: World)
    requires cols >= 1 && |rest| >= 2
    ensures var pieces := Split(Clean(Join(" ", rest[2..])), {'|'});
      var r := BoxAt(true, small, cols, rest, w);
      (r.Success? <==> |pieces| < Internal.MaxCapacity && rest[0] in w.pins && rest[1] in w.pins) &&
      (r.Success? ==>
         r.value.world == w &&
         r.value.markup == BoxBetween(w.pins[rest[0]], w.pins[rest[1]], w.boxColor,
                                      BoxText(small, r.value.markup.width / cols as real, Table(pieces, cols))))
  {
    var pieces := Split(Clean(Join(" ", rest[2..])), {'|'});
    assert BoxPieces(true, rest[2..]) == pieces;
  }

  /** After `Fill colour ...`, a box is filled with that colour. */
  lemma FillThenBox(colour: string, more: seq<string>, small: bool, args: seq<string>, w: World)
    requires DrawBox(false, small, args, SetFillColor(Some([colour] + more), w).value.world).Success?
    ensures DrawBox(false, small, args, SetFillColor(Some([colour] + more), w).value.world).value.markup.fill == Some(colour)
  {
    var filled := SetFillColor(Some([colour] + more), w).value.world;
    assert filled.boxColor == Some(colour);
    BoxCommand(small, args, filled);
  }

  /** After `Stroke colour ...`, a line is drawn in that colour. */
  lemma StrokeThenLine(colour: string, more: seq<string>, useArrow: bool, flipText: bool, args: seq<string>, w: World)
    requires DrawLine(useArrow, flipText, args, SetLineColor(Some([colour] + more), w).value.world).Success?
    ensures DrawLine(useArrow, flipText, args, SetLineColor(Some([colour] + more), w).value.world).value.markup.stroke == Some(colour)
  {
    var stroked := SetLineColor(Some([colour] + more), w).value.world;
    assert stroked.lineColor == Some(colour);
  }

  /** `Box a b text...` and `SmallBox a b text...` draw the rectangle
      spanned by the two pins in the fill colour, with the cleaned text in
      a single unstyled cell; they fail exactly when a pin is missing. */
  lemma BoxCommand(small: bool, args: seq<string>, w: World)
    requires |args| >= 2
    ensures DrawBox(false, small, args, w).Success? <==> args[0] in w.pins && args[1] in w.pins
    ensures DrawBox(false, small, args, w).Success? ==>
              var r := DrawBox(false, small, args, w).value;
              var p1 := w.pins[args[0]];
              var p2 := w.pins[args[1]];
              r.world == w &&
              r.markup == BoxBetween(p1, p2, w.boxColor,
                                     BoxText(small, r.markup.width, [[Cell(Clean(Join(" ", args[2..])), false, false, false)]]))
  {
    SingleCellTable(Clean(Join(" ", args[2..])), 1);
  }

  /** The corners `AutoBox` gives its box: (x, y) moved by the translate
      offset, and that point moved by the size, when no sum wraps. */
  lemma AutoCorners(name: string, x: int, y: int, width: int, height: int, w: World)
    requires width > 0 && height > 0 && Int32.InRange(x + width) && Int32.InRange(y + height)
    ensures var m := AutoPins(w, name, x, y, width, height);
      name + "_tl" in m && name + "_br" in m &&
      m[name + "_tl"] == Vec2d(x as real + w.translate.x, y as real + w.translate.y) &&
      m[name + "_br"] == Vec2d(m[name + "_tl"].x + width as real, m[name + "_tl"].y + height as real)
  {
    CornerNamesDiffer(name);
    var m := AutoPins(w, name, x, y, width, height);
    assert Int32.Wrap(x + width) == x + width && Int32.Wrap(y + height) == y + height;
    assert m[name + "_tl"] == Translated(w.translate, x, y);
    assert m[name + "_br"] == Translated(w.translate, x + width, y + height);
    CornerOffset(w.translate, x, y, width, height);
  }

  /** The far corner, translated, is the near corner moved by the size. */
  lemma CornerOffset(t: Vec2d, x: int, y: int, width: int, height: int)
    ensures Translated(t, x + width, y + height) ==
              Vec2d(Translated(t, x, y).x + width as real, Translated(t, x, y).y + height as real)
  {
    assert (x + width) as real == x as real + width as real;
    assert (y + height) as real == y as real + height as real;
  }

  /** A box between two pins, the second below and right of the first. */
  lemma BoxFromCorners(p1: Vec2d, p2: Vec2d, width: real, height: real, args: seq<string>, w: World)
    requires |args| >= 2 && args[0] in w.pins && args[1] in w.pins
    requires w.pins[args[0]] == p1 && w.pins[args[1]] == p2
    requires width > 0.0 && height > 0.0 && p2 == Vec2d(p1.x + width, p1.y + height)
    ensures DrawBox(false, false, args, w).Success?
    ensures var b := DrawBox(false, false, args, w).value.markup;
      b.left == p1.x && b.top == p1.y && b.width == width && b.height == height
  {
    BoxCommand(false, args, w);
  }

  /** `AutoBox` with well-formed numbers is `Box name_tl name_br text...`
      over the table with its eight pins added. */
  lemma AutoBoxIsBox(args: seq<string>, x: int, y: int, width: int, height: int, w: World)
    requires |args| >= 5
    requires ParseInt(args[1]) == Success(x) && ParseInt(args[2]) == Success(y)
    requires ParseInt(args[3]) == Success(width) && ParseInt(args[4]) == Success(height)
    requires width > 0 && height > 0
    ensures DrawAutoBox(false, args, w) ==
              DrawBox(false, false, [args[0] + "_tl", args[0] + "_br"] + args[5..],
                      w.(pins := AutoPins(w, args[0], x, y, width, height)))
  {
    var b := args[3..];
    AutoBoxReadsCorner(args, x, y, w);
    SizedIsBox(args[0], x, y, b, width, height, w);
    assert b[2..] == args[5..];
  }

  /** `AutoBox` reads the corner, then goes on with the rest of its words. */
  lemma AutoBoxReadsCorner(args: seq<string>, x: int, y: int, w: World)
    requires |args| >= 5
    requires ParseInt(args[1]) == Success(x) && ParseInt(args[2]) == Success(y)
    ensures DrawAutoBox(false, args, w) == AutoBoxSized(false, 1, args[0], x, y, args[3..], w)
  {
    assert Parse(args[1]) == Success(x) && Parse(args[2]) == Success(y);
  }

  /** With a well-formed size, `AutoBox` is the box between its corner pins. */
  lemma SizedIsBox(name: string, x: int, y: int, b: seq<string>, width: int, height: int, w: World)
    requires |b| >= 2 && ParseInt(b[0]) == Success(width) && ParseInt(b[1]) == Success(height)
    requires width > 0 && height > 0
    ensures AutoBoxSized(false, 1, name, x, y, b, w) ==
              DrawBox(false, false, [name + "_tl", name + "_br"] + b[2..],
                      w.(pins := AutoPins(w, name, x, y, width, height)))
  {
    var boxArgs := [name + "_tl", name + "_br"] + b[2..];
    assert Parse(b[0]) == Success(width) && Parse(b[1]) == Success(height);
    assert [] + boxArgs == boxArgs;
  }

  /** The box between an `AutoBox`'s corner pins: its top left corner at
      (x, y) moved by the translate offset, and exactly the given size. */
  lemma CornerBoxPlaces(name: string, rest: seq<string>, x: int, y: int, width: int, height: int, w: World)
    requires width > 0 && height > 0 && Int32.InRange(x + width) && Int32.InRange(y + height)
    ensures var r := DrawBox(false, false, [name + "_tl", name + "_br"] + rest,
                             w.(pins := AutoPins(w, name, x, y, width, height)));
      r.Success? &&
      r.value.markup.left == x as real + w.translate.x && r.value.markup.top == y as real + w.translate.y &&
      r.value.markup.width == width as real && r.value.markup.height == height as real
  {
    var m := AutoPins(w, name, x, y, width, height);
    AutoCorners(name, x, y, width, height, w);
    BoxFromCorners(m[name + "_tl"], m[name + "_br"], width as real, height as real,
                   [name + "_tl", name + "_br"] + rest, w.(pins := m));
  }

  /** `AutoBox name x y width height text...`, when no sum wraps, draws the
      box with its top left corner at (x, y) moved by the translate offset
      and exactly the given size. */
  lemma AutoBoxPlaces(args: seq<string>, x: int, y: int, width: int, height: int, w: World)
    requires |args| >= 5
    requires ParseInt(args[1]) == Success(x) && ParseInt(args[2]) == Success(y)
    requires ParseInt(args[3]) == Success(width) && ParseInt(args[4]) == Success(height)
    requires width > 0 && height > 0 && Int32.InRange(x + width) && Int32.InRange(y + height)
    ensures DrawAutoBox(false, args, w).Success?
    ensures var b := DrawAutoBox(false, args, w).value.markup;
      b.left == x as real + w.translate.x && b.top == y as real + w.translate.y &&
      b.width == width as real && b.height == height as real
  {
    AutoBoxIsBox(args, x, y, width, height, w);
    CornerBoxPlaces(args[0], args[5..], x, y, width, height, w);
  }

  /** `AutoTable` with well-formed numbers is `Table cols name_tl name_br
      text...` over the table with its eight pins added, the column count
      written back as `ToString` prints it. */
  lemma AutoTableIsTable(args: seq<string>, cols: int, x: int, y: int, width: int, height: int, w: World)
    requires |args| >= 6
    requires ParseInt(args[0]) == Success(cols) && cols >= 1
    requires ParseInt(args[2]) == Success(x) && ParseInt(args[3]) == Success(y)
    requires ParseInt(args[4]) == Success(width) && ParseInt(args[5]) == Success(height)
    requires width > 0 && height > 0
    ensures DrawAutoBox(true, args, w) ==
              DrawBox(true, false, [FormatInt(cols), args[1] + "_tl", args[1] + "_br"] + args[6..],
                      w.(pins := AutoPins(w, args[1], x, y, width, height)))
  {
    TableReadsCorner(args, cols, x, y, w);
    SizedIsTable(cols, args[1], x, y, args[4..], width, height, w);
    assert args[4..][2..] == args[6..];
  }

  /** `AutoTable` reads the column count and the corner, then goes on with
      the rest of its words. */
  lemma TableReadsCorner(args: seq<string>, cols: int, x: int, y: int, w: World)
    requires |args| >= 6
    requires ParseInt(args[0]) == Success(cols) && cols >= 1
    requires ParseInt(args[2]) == Success(x) && ParseInt(args[3]) == Success(y)
    ensures DrawAutoBox(true, args, w) == AutoBoxSized(true, cols, args[1], x, y, args[4..], w)
  {
    var a := args[1..];
    assert Parse(args[0]) == Success(cols);
    assert Parse(a[1]) == Success(x) && Parse(a[2]) == Success(y);
    assert a[3..] == args[4..];
  }

  /** With a well-formed size, `AutoTable` is the table between its corner
      pins, with the column count in front. */
  lemma SizedIsTable(cols: int, name: string, x: int, y: int, b: seq<string>, width: int, height: int, w: World)
    requires |b| >= 2 && ParseInt(b[0]) == Success(width) && ParseInt(b[1]) == Success(height)
    requires width > 0 && height > 0
    ensures AutoBoxSized(true, cols, name, x, y, b, w) ==
              DrawBox(true, false, [FormatInt(cols), name + "_tl", name + "_br"] + b[2..],
                      w.(pins := AutoPins(w, name, x, y, width, height)))
  {
    assert Parse(b[0]) == Success(width) && Parse(b[1]) == Success(height);
    assert [FormatInt(cols)] + [name + "_tl", name + "_br"] + b[2..] ==
           [FormatInt(cols), name + "_tl", name + "_br"] + b[2..];
  }

  /** `AutoTable cols name x y width height text...`, when no sum wraps,
      fails only when the text has 2^30 pieces or more. Otherwise it draws
      the table with its top left corner at (x, y) moved by the translate
      offset and exactly the given size, each column `width / cols` wide,
      holding the '|'-separated pieces of the cleaned text `cols` to a row. */
  lemma AutoTablePlaces(args: seq<string>, cols: int, x: int, y: int, width: int, height: int, w: World)
    requires |args| >= 6
    requires ParseInt(args[0]) == Success(cols) && cols >= 1
    requires ParseInt(args[2]) == Success(x) && ParseInt(args[3]) == Success(y)
    requires ParseInt(args[4]) == Success(width) && ParseInt(args[5]) == Success(height)
    requires width > 0 && height > 0 && Int32.InRange(x + width) && Int32.InRange(y + height)
    ensures var pieces := Split(Clean(Join(" ", args[6..])), {'|'});
      var r := DrawAutoBox(true, args, w);
      (r.Success? <==> |pieces| < Internal.MaxCapacity) &&
      (r.Success? ==>
         var b := r.value.markup;
         b.left == x as real + w.translate.x && b.top == y as real + w.translate.y &&
         b.width == width as real && b.height == height as real &&
         b.text == BoxText(false, width as real / cols as real, Table(pieces, cols)))
  {
    AutoTableIsTable(args, cols, x, y, width, height, w);
    CornerTablePlaces(cols, args[1], args[6..], x, y, width, height, w);
  }

  /** The table between an `AutoTable`'s corner pins: its top left corner
      at (x, y) moved by the translate offset, and exactly the given size. */
  lemma CornerTablePlaces(cols: int, name: string, rest: seq<string>, x: int, y: int, width: int, height: int, w: World)
    requires cols >= 1 && Int32.InRange(cols)
    requires width > 0 && height > 0 && Int32.InRange(x + width) && Int32.InRange(y + height)
    ensures var pieces := Split(Clean(Join(" ", rest)), {'|'});
      var r := DrawBox(true, false, [FormatInt(cols), name + "_tl", name + "_br"] + rest,
                       w.(pins := AutoPins(w, name, x, y, width, height)));
      (r.Success? <==> |pieces| < Internal.MaxCapacity) &&
      (r.Success? ==>
         var b := r.value.markup;
         b.left == x as real + w.translate.x && b.top == y as real + w.translate.y &&
         b.width == width as real && b.height == height as real &&
         b.text == BoxText(false, width as real / cols as real, Table(pieces, cols)))
  {
    var boxArgs := [FormatInt(cols), name + "_tl", name + "_br"] + rest;
    var m := AutoPins(w, name, x, y, width, height);
    ParseFormat(cols);
    assert boxArgs[3..] == rest;
    TableCommand(false, boxArgs, cols, w.(pins := m));
    AutoCorners(name, x, y, width, height, w);
  }

  /** `AutoTable` passes the length check with five arguments, one fewer
      than it reads, and then fails on the missing height: an empty-buffer
      error rather than the too-short one. */
  lemma AutoTableFiveArgs(args: seq<string>, w: World)
    requires |args| == 5
    requires ParseInt(args[0]).Success? && ParseInt(args[0]).value >= 1
    requires ParseInt(args[2]).Success? && ParseInt(args[3]).Success? && ParseInt(args[4]).Success?
    ensures DrawAutoBox(true, args, w) == Failure(DqFailure(Internal.VectorEmpty))
  {
  }

  // ---------------------------------------------------------------------
  // Dispatch and the line counter

  /** For a known keyword the handler does not look at the line itself. */
  lemma DispatchIgnoresLine(keyword: string, args: seq<string>, l1: string, l2: string, w: World)
    requires keyword in Keywords
    ensures Dispatch(keyword, args, l1, w) == Dispatch(keyword, args, l2, w)
  {
  }

  /** Keywords are matched ignoring case: two lines whose first words
      differ only in case, and that agree on the rest, do the same. */
  lemma KeywordIgnoresCase(l1: string, l2: string, w: World)
    requires Tokens(l1)[1..] == Tokens(l2)[1..]
    requires forall i :: 0 <= i < |Tokens(l2)[0]| ==> 'a' <= Tokens(l2)[0][i] <= 'z'
    requires Tokens(l2)[0] in Keywords
    requires |Tokens(l1)[0]| == |Tokens(l2)[0]|
    requires forall i :: 0 <= i < |Tokens(l1)[0]| ==> SameLetter(Tokens(l1)[0][i], Tokens(l2)[0][i])
    ensures HandleCommand(l1, w) == HandleCommand(l2, w)
  {
    var t1, t2 := Tokens(l1), Tokens(l2);
    LowerMatchesIgnoringCase(t1[0], t2[0]);
    LowerMatchesIgnoringCase(t2[0], t2[0]);
    assert |t1| == |t1[1..]| + 1 == |t2[1..]| + 1 == |t2|;
    DispatchIgnoresLine(t2[0], t1[1..], l1, l2, w);
  }

  /** A line whose first word is `#` is a comment: nothing changes and
      nothing is drawn. One that merely starts with `#` is not. */
  lemma Comments(line: string, w: World)
    requires |Tokens(line)| < Internal.MaxCapacity
    ensures Tokens(line)[0] == "#" ==> HandleCommand(line, w) == Success(Step(w, Empty))
    ensures Tokens(line)[0] == "#foo" ==> HandleCommand(line, w) == Failure(InvalidCommand(line))
  {
    assert Lower("#") == "#";
    assert Lower("#foo") == "#foo";
  }

  /** A command that succeeds numbers its line if it draws one: the path
      takes the counter's value and the counter moves on by one (as an
      `int`, wrapping); any other command leaves the counter alone. */
  predicate Numbered(w: World, s: Step) {
    (s.markup.Path? ==> s.markup.id == w.lineNum && s.world.lineNum == Int32.Wrap(w.lineNum + 1)) &&
    (!s.markup.Path? ==> s.world.lineNum == w.lineNum)
  }

  lemma DispatchNumbers(keyword: string, args: seq<string>, line: string, w: World)
    requires Dispatch(keyword, args, line, w).Success?
    ensures Numbered(w, Dispatch(keyword, args, line, w).value)
  {
    if keyword in {"line", "arrow", "flipline", "fliparrow"} {
      LinesNumbered(keyword, args, line, w);
    } else if keyword in {"autobox", "autotable", "box", "smallbox", "table"} {
      BoxesNumbered(keyword, args, line, w);
    } else if keyword in {"pin", "split", "offset", "move", "moveto", "centre", "center", "moveover", "reset",
                          "corner", "project"} {
      PinsNumbered(keyword, args, line, w);
    } else {
      OthersNumbered(keyword, args, line, w);
    }
  }

  /** The line commands draw one line each, numbered in turn. */
  lemma LinesNumbered(keyword: string, args: seq<string>, line: string, w: World)
    requires keyword in {"line", "arrow", "flipline", "fliparrow"}
    requires Dispatch(keyword, args, line, w).Success?
    ensures Numbered(w, Dispatch(keyword, args, line, w).value)
  {
  }

  /** The box commands draw no line and leave the counter alone. */
  lemma BoxesNumbered(keyword: string, args: seq<string>, line: string, w: World)
    requires keyword in {"autobox", "autotable", "box", "smallbox", "table"}
    requires Dispatch(keyword, args, line, w).Success?
    ensures Numbered(w, Dispatch(keyword, args, line, w).value)
  {
  }

  /** The pin commands draw nothing and leave the counter alone. */
  lemma PinsNumbered(keyword: string, args: seq<string>, line: string, w: World)
    requires keyword in {"pin", "split", "offset", "move", "moveto", "centre", "center", "moveover", "reset",
                         "corner", "project"}
    requires Dispatch(keyword, args, line, w).Success?
    ensures Numbered(w, Dispatch(keyword, args, line, w).value)
  {
  }

  /** Comments and the setting commands draw nothing and leave the counter alone. */
  lemma OthersNumbered(keyword: string, args: seq<string>, line: string, w: World)
    requires keyword in {"#", "fill", "stroke", "clearfill", "clearstroke", "translate", "group"}
    requires Dispatch(keyword, args, line, w).Success?
    ensures Numbered(w, Dispatch(keyword, args, line, w).value)
  {
  }

  /** Every command keeps the line counter in step with the lines drawn. */
  lemma CommandNumbers(line: string, w: World)
    requires HandleCommand(line, w).Success?
    ensures Numbered(w, HandleCommand(line, w).value)
  {
    var tokens := Tokens(line);
    DispatchNumbers(Lower(tokens[0]), tokens[1..], line, w);
  }

  /** The number of lines drawn in a body. */
  function PathCount(body: seq<Fragment>): (n: nat)
    ensures n <= |body|
  {
    if body == [] then 0
    else PathCount(body[..|body| - 1]) + (if body[|body| - 1].Path? then 1 else 0)
  }

  /** The `n`th line drawn from a counter at `start` gets this number. */
  function LineId(start: int, n: nat): int {
    Int32.Wrap(start + n)
  }

  /** Every line in `b` is numbered by how many lines came before it. */
  predicate IdsFrom(start: int, b: seq<Fragment>) {
    forall i :: 0 <= i < |b| && b[i].Path? ==> b[i].id == LineId(start, PathCount(b[..i]))
  }

  /** A run's lines are numbered consecutively from the counter it starts
      with, and the counter ends past the last of them. */
  predicate NumberedRun(start: int, t: Trace) {
    t.world.lineNum == LineId(start, PathCount(t.body)) && IdsFrom(start, t.body)
  }

  /** One more command keeps a run's numbering. */
  lemma NumberedStep(start: int, t: Trace, s: Step)
    requires NumberedRun(start, t) && Numbered(t.world, s)
    ensures NumberedRun(start, Trace(s.world, if s.markup == Empty then t.body else t.body + [s.markup]))
  {
    if s.markup != Empty {
      var n := PathCount(t.body);
      if s.markup.Path? {
        Int32.WrapAdd(start + n, 1);
        assert s.world.lineNum == LineId(start, n + 1);
      }
      NumberedAppend(start, t.body, s.markup);
    }
  }

  /** Appending a fragment that is numbered next keeps the numbering. */
  lemma NumberedAppend(start: int, b: seq<Fragment>, f: Fragment)
    requires IdsFrom(start, b)
    requires f.Path? ==> f.id == LineId(start, PathCount(b))
    ensures PathCount(b + [f]) == PathCount(b) + (if f.Path? then 1 else 0)
    ensures IdsFrom(start, b + [f])
  {
    var b2 := b + [f];
    assert b2[..|b2| - 1] == b;
    forall i | 0 <= i < |b2| && b2[i].Path?
      ensures b2[i].id == LineId(start, PathCount(b2[..i]))
    {
      if i < |b| {
        assert b2[..i] == b[..i] && b2[i] == b[i];
      }
    }
  }

  lemma {:induction false} RunNumbersLines(lines: seq<string>, w: World)
    requires Int32.InRange(w.lineNum) && Run(lines, w).Success?
    ensures NumberedRun(w.lineNum, Run(lines, w).value)
    decreases |lines|
  {
    if lines != [] {
      var n := |lines| - 1;
      RunStep(lines, n, w);
      assert lines[..n + 1] == lines;
      RunNumbersLines(lines[..n], w);
      var t := Run(lines[..n], w).value;
      CommandNumbers(lines[n], t.world);
      NumberedStep(w.lineNum, t, HandleCommand(lines[n], t.world).value);
    }
  }

  // ---------------------------------------------------------------------
  // The canvas

  /** The canvas reaches 20 past every pin's truncated coordinates and is
      at least 120 wide and high, as long as adding the margin does not
      wrap. */
  lemma CanvasCoversPins(t: Trace)
    requires Extent(t.world.pins, X) <= Int32.MaxValue - 20 && Extent(t.world.pins, Y) <= Int32.MaxValue - 20
    ensures var c := Canvas(Success(t)).value;
      c.width >= 120 && c.height >= 120 &&
      forall k :: k in t.world.pins ==>
        ToInt32(t.world.pins[k].x) + 20 <= c.width && ToInt32(t.world.pins[k].y) + 20 <= c.height
  {
    var m := t.world.pins;
    forall k | k in m
      ensures ToInt32(m[k].x) <= Extent(m, X) && ToInt32(m[k].y) <= Extent(m, Y)
    {
      assert Coord(m[k], X) == m[k].x && Coord(m[k], Y) == m[k].y;
    }
  }

  /** A pin within 20 of the largest `int` makes the margin wrap, and the
      canvas width comes out negative. */
  lemma CanvasWidthWraps(t: Trace)
    requires Extent(t.world.pins, X) > Int32.MaxValue - 20
    ensures Canvas(Success(t)).value.width < 0
  {
    var e := Extent(t.world.pins, X);
    assert Int32.Wrap(e + 20) == e + 20 - 0x1_0000_0000;
  }
}
