/**
  QuantizedBitmapSource: the Indexed8 view of a BGRA image through a palette
  map, with optional Floyd–Steinberg error diffusion.

  The source keeps one `CopyPixelsImpl` between calls: a cursor `nextY` (the
  first row not yet dithered), two error rows of `width + 1` entries per
  channel and a reusable destination row. Dithering only goes forward; a
  request above the cursor throws the state away and restarts from row 0.
  Here that state is the immutable `DitherState`, the image is a sequence of
  rows, and the palette map is seen through its colour table and its lookup,
  which is a deterministic function of the target colour.
 */
module QuantizedBitmapSource {
  import opened Wrappers
  import opened Int32Util
  import opened Colors
  import opened Bitmaps
  import Geometry

  // ---------------------------------------------------------------- inputs

  /** One pixel's error, per channel; the source keeps one int array per channel, here one sequence of triples. */
  datatype Rgb = Rgb(b: int, g: int, r: int)

  const NoError: Rgb := Rgb(0, 0, 0)

  function Zeros(n: nat): (z: seq<Rgb>)
    ensures |z| == n
  {
    seq(n, _ => NoError)
  }

  predicate AllZero(s: seq<Rgb>) {
    forall i :: 0 <= i < |s| ==> s[i] == NoError
  }

  /** What the ditherer uses of a palette map: `Colors` and `FindClosestPaletteIndex`. */
  datatype PaletteView = PaletteView(colors: seq<ColorBgra32>, find: ColorBgra32 -> Result<byte>)

  /** The source bitmap. */
  type Image = Bitmap<ColorBgra32>

  datatype Source = Source(image: Image, palette: PaletteView, ditherLevel: int)

  predicate ValidSource(src: Source) {
    0 <= src.ditherLevel <= 8 && WellFormed(src.image)
  }

  /** The constructor: a dither level outside [0, 8] is rejected. */
  function Create(image: Image, palette: PaletteView, ditherLevel: int): (r: Result<Source>)
    ensures r.Err? <==> ditherLevel < 0 || ditherLevel > 8
    ensures r.Err? ==> r.error == ArgumentOutOfRange
    ensures r.Ok? ==> r.value.image == image && r.value.palette == palette && r.value.ditherLevel == ditherLevel
    ensures r.Ok? && WellFormed(image) ==> ValidSource(r.value)
  {
    if ditherLevel < 0 || ditherLevel > 8 then Err(ArgumentOutOfRange)
    else Ok(Source(image, palette, ditherLevel))
  }

  // ---------------------------------------------------------------- arithmetic of one pixel

  lemma MulSigns(e: int, level: int)
    requires 0 <= level
    ensures e >= 0 ==> e * level >= 0
    ensures e <= 0 ==> e * level <= 0
  {
  }

  /** One channel of the target colour: the source component less `level/8` of the accumulated error, clamped. */
  function Corrected(component: byte, error: int, level: int): (v: byte)
    requires 0 <= level
    ensures error == 0 || level == 0 ==> v == component
    ensures error >= 0 ==> v <= component
    ensures error <= 0 ==> v >= component
  {
    MulSigns(error, level);
    ClampToByte(component - ShiftRight(error * level, 3))
  }

  /** The colour looked up for a pixel: each channel corrected by its error, alpha passed through. */
  function Target(pixel: ColorBgra32, e: Rgb, level: int): (t: ColorBgra32)
    requires 0 <= level
    ensures t.a == pixel.a
    ensures e == NoError ==> t == pixel
  {
    FromBgra(Corrected(pixel.b, e.b, level), Corrected(pixel.g, e.g, level), Corrected(pixel.r, e.r, level), pixel.a)
  }

  /** The four parts an error is split into, named as in the source: a = 7/16, b = 5/16, c = 3/16 (each rounded down) and d the remainder. */
  datatype Portion = A | B | C | D

  /** One channel's share of an error. */
  function Share(e: int, p: Portion): (s: int)
    ensures p == A ==> 16 * s <= 7 * e < 16 * s + 16
    ensures p == B ==> 16 * s <= 5 * e < 16 * s + 16
    ensures p == C ==> 16 * s <= 3 * e < 16 * s + 16
    ensures e == 0 ==> s == 0
  {
    match p
    case A => ShiftRight(e * 7, 4)
    case B => ShiftRight(e * 5, 4)
    case C => ShiftRight(e * 3, 4)
    case D => e - ShiftRight(e * 7, 4) - ShiftRight(e * 5, 4) - ShiftRight(e * 3, 4)
  }

  /** The four shares add up to the error exactly, and the remainder d is about 1/16 of it (between 1/16 and 1/16 plus 3). */
  lemma SharesSplitTheError(e: int)
    ensures Share(e, A) + Share(e, B) + Share(e, C) + Share(e, D) == e
    ensures e <= 16 * Share(e, D) < e + 48
  {
  }

  /** A share of an error, channel by channel. */
  function ShareRgb(e: Rgb, p: Portion): (s: Rgb)
    ensures e == NoError ==> s == NoError
  {
    Rgb(Share(e.b, p), Share(e.g, p), Share(e.r, p))
  }

  // ---------------------------------------------------------------- one row

  /** The column visited at step `x` of row `y`: even rows run left to right, odd rows right to left. */
  function ColumnOf(width: nat, y: nat, x: int): int {
    if y % 2 == 0 then x else width - 1 - x
  }

  /** The scan direction of row `y` as a column step. */
  function Direction(y: nat): int {
    if y % 2 == 0 then 1 else -1
  }

  /** Entry i of an error row plus `v`, channel by channel. */
  function AddAt(s: seq<Rgb>, i: int, v: Rgb): (t: seq<Rgb>)
    requires 0 <= i < |s|
    ensures |t| == |s|
  {
    s[i := Rgb(s[i].b + v.b, s[i].g + v.g, s[i].r + v.r)]
  }

  datatype Step = Step(index: byte, errThis: seq<Rgb>, errNext: seq<Rgb>)

  /**
    The next-row entry that share b, c or d of step `x` is added to, as the
    code indexes it: b to width - x, c to width - x + 1 and d to width - x - 1.
   */
  function NextRowSlot(width: nat, x: nat, p: Portion): int
    requires p != A
  {
    match p
    case B => width - x
    case C => width - x + 1
    case D => width - x - 1
  }

  /**
    Step `x` of row `y`: look up the corrected pixel, then spread the
    palette colour's error: share a to this row's entry x + 1 and shares b,
    c and d to the next row's entries NextRowSlot (c skipped at x = 0, where
    it would fall outside the array). A palette index past the end of the
    colour list fails like IReadOnlyList's indexer, with ArgumentOutOfRange.
   */
  function DitherPixel(src: Source, y: nat, x: nat, errThis: seq<Rgb>, errNext: seq<Rgb>): (r: Result<Step>)
    requires ValidSource(src)
    requires y < |src.image.rows| && x < src.image.width
    requires |errThis| == src.image.width + 1 && |errNext| == src.image.width + 1
    ensures r.Ok? ==> |r.value.errThis| == |errThis| && |r.value.errNext| == |errNext|
  {
    var w := src.image.width;
    var pixel := src.image.rows[y][ColumnOf(w, y, x)];
    var target := Target(pixel, errThis[x], src.ditherLevel);
    var index :- src.palette.find(target);
    if index as int >= |src.palette.colors| then Err(ArgumentOutOfRange)
    else
      var paletteColor := src.palette.colors[index];
      var error := Rgb(paletteColor.b - target.b, paletteColor.g - target.g, paletteColor.r - target.r);
      var next1 := AddAt(errNext, NextRowSlot(w, x, B), ShareRgb(error, B));
      var next2 := if x != 0 then AddAt(next1, NextRowSlot(w, x, C), ShareRgb(error, C)) else next1;
      Ok(Step(index, AddAt(errThis, x + 1, ShareRgb(error, A)), AddAt(next2, NextRowSlot(w, x, D), ShareRgb(error, D))))
  }

  /**
    What a step looks up and where it fails: the target is the pixel at the
    step's column corrected by this row's error entry x; the step fails when
    the lookup fails or answers an index outside the palette's colours, and
    this row's errors change only at entry x + 1.
   */
  lemma DitherPixelLooksUpTarget(src: Source, y: nat, x: nat, errThis: seq<Rgb>, errNext: seq<Rgb>)
    requires ValidSource(src)
    requires y < |src.image.rows| && x < src.image.width
    requires |errThis| == src.image.width + 1 && |errNext| == src.image.width + 1
    ensures var r := DitherPixel(src, y, x, errThis, errNext);
      var t := Target(src.image.rows[y][ColumnOf(src.image.width, y, x)], errThis[x], src.ditherLevel);
      && (r.Err? <==> src.palette.find(t).Err? || src.palette.find(t).value as int >= |src.palette.colors|)
      && (r.Ok? ==> r.value.index == src.palette.find(t).value && t.a == src.image.rows[y][ColumnOf(src.image.width, y, x)].a)
      && (r.Ok? ==> forall i :: 0 <= i < |errThis| && i != x + 1 ==> r.value.errThis[i] == errThis[i])
      && (src.palette.find(t).Ok? && src.palette.find(t).value as int >= |src.palette.colors| ==> r == Err(ArgumentOutOfRange))
      && (src.palette.find(t).Err? ==> r == Err(src.palette.find(t).error))
  {
  }

  /**
    Where the shares of step `x` of row `y` are read back, as the code
    indexes them. Share a is read by the next step of the same row, one
    column ahead. In the next row, whose entry j is read at step j, share d
    lands directly below the pixel, share b one column behind it and share c
    two columns behind it (behind meaning against the direction of row `y`);
    at x = 0 share b, and at x = 1 share c, goes to entry width, which no
    step reads. The comments
    of the source ask for b below, c one behind and d one ahead.
   */
  lemma {:induction false} ShareLanding(width: nat, y: nat, x: nat)
    requires x < width
    ensures x + 1 < width ==> ColumnOf(width, y, x + 1) == ColumnOf(width, y, x) + Direction(y)
    ensures 0 <= NextRowSlot(width, x, D) < width
    ensures ColumnOf(width, y + 1, NextRowSlot(width, x, D)) == ColumnOf(width, y, x)
    ensures x >= 1 ==> ColumnOf(width, y + 1, NextRowSlot(width, x, B)) == ColumnOf(width, y, x) - Direction(y)
    ensures x >= 2 ==> ColumnOf(width, y + 1, NextRowSlot(width, x, C)) == ColumnOf(width, y, x) - 2 * Direction(y)
    ensures x == 0 ==> NextRowSlot(width, x, B) == width
    ensures x == 1 ==> NextRowSlot(width, x, C) == width
  {
    if y % 2 == 0 {
      assert (y + 1) % 2 == 1;
    } else {
      assert (y + 1) % 2 == 0;
    }
  }

  /**
    The next-row entries the source's comments describe: b directly below
    (width - x - 1), c one column behind (width - x, for x >= 1) and d one
    column ahead (width - x - 2, for x + 1 < width).
   */
  function IntendedNextRowSlot(width: nat, x: nat, p: Portion): int
    requires p != A
  {
    match p
    case B => width - x - 1
    case C => width - x
    case D => width - x - 2
  }

  /**
    With the intended entries every share lands where the comments say:
    b below, c one column behind, d one column ahead, each in an entry the
    next row reads, so no share is lost except past the image's edge.
   */
  lemma {:induction false} IntendedShareLanding(width: nat, y: nat, x: nat)
    requires x < width
    ensures 0 <= IntendedNextRowSlot(width, x, B) < width
    ensures ColumnOf(width, y + 1, IntendedNextRowSlot(width, x, B)) == ColumnOf(width, y, x)
    ensures x >= 1 ==> 0 <= IntendedNextRowSlot(width, x, C) < width
    ensures x >= 1 ==> ColumnOf(width, y + 1, IntendedNextRowSlot(width, x, C)) == ColumnOf(width, y, x) - Direction(y)
    ensures x + 1 < width ==> 0 <= IntendedNextRowSlot(width, x, D) < width
    ensures x + 1 < width ==> ColumnOf(width, y + 1, IntendedNextRowSlot(width, x, D)) == ColumnOf(width, y, x) + Direction(y)
  {
    if y % 2 == 0 {
      assert (y + 1) % 2 == 1;
    } else {
      assert (y + 1) % 2 == 0;
    }
  }

  /**
    The written entries are the intended ones moved one entry up, that is one
    column against the scan direction: the first pixel's b share (5/16 of its
    error) goes to entry `width`, past every entry the next row reads.
   */
  lemma WrittenIsIntendedShifted(width: nat, x: nat)
    requires x < width
    ensures NextRowSlot(width, x, B) == IntendedNextRowSlot(width, x, B) + 1
    ensures NextRowSlot(width, x, C) == IntendedNextRowSlot(width, x, C) + 1
    ensures NextRowSlot(width, x, D) == IntendedNextRowSlot(width, x, D) + 1
    ensures x == 0 ==> NextRowSlot(width, x, B) == width && IntendedNextRowSlot(width, x, B) == width - 1
  {
  }

  datatype RowState = RowState(errThis: seq<Rgb>, errNext: seq<Rgb>, dest: seq<byte>, found: seq<byte>)

  predicate RowShaped(src: Source, st: RowState) {
    && |st.errThis| == src.image.width + 1
    && |st.errNext| == src.image.width + 1
    && |st.dest| == src.image.width
  }

  /** Steps x, x + 1, …, width - 1 of row `y`; `found` lists the looked-up indices in step order. */
  function DitherRowFrom(src: Source, y: nat, x: nat, st: RowState): (r: Result<RowState>)
    requires ValidSource(src) && y < |src.image.rows|
    requires x <= src.image.width && RowShaped(src, st) && |st.found| == x
    ensures r.Ok? ==> RowShaped(src, r.value) && |r.value.found| == src.image.width
    decreases src.image.width - x
  {
    var w := src.image.width;
    if x == w then Ok(st)
    else
      var step :- DitherPixel(src, y, x, st.errThis, st.errNext);
      DitherRowFrom(src, y, x + 1, Advance(st, step, ColumnOf(w, y, x)))
  }

  /** The row state after a step that visited column `c`: its error rows, its index written at `c` and appended to `found`. */
  function Advance(st: RowState, step: Step, c: int): (next: RowState)
    requires 0 <= c < |st.dest|
    ensures |next.dest| == |st.dest| && next.dest[c] == step.index
    ensures forall c' :: 0 <= c' < |st.dest| && c' != c ==> next.dest[c'] == st.dest[c']
    ensures |next.found| == |st.found| + 1 && next.found[|st.found|] == step.index && next.found[..|st.found|] == st.found
    ensures next.errThis == step.errThis && next.errNext == step.errNext
  {
    RowState(step.errThis, step.errNext, st.dest[c := step.index], st.found + [step.index])
  }

  /** Step k writes its index to the destination at the column it visits, and no later step overwrites it. */
  lemma {:induction false} DitherRowFromPlaces(src: Source, y: nat, x: nat, st: RowState)
    requires ValidSource(src) && y < |src.image.rows|
    requires x <= src.image.width && RowShaped(src, st) && |st.found| == x
    requires forall k :: 0 <= k < x ==> st.dest[ColumnOf(src.image.width, y, k)] == st.found[k]
    ensures var r := DitherRowFrom(src, y, x, st);
      r.Ok? ==> forall k :: 0 <= k < src.image.width ==> r.value.dest[ColumnOf(src.image.width, y, k)] == r.value.found[k]
    decreases src.image.width - x
  {
    var w := src.image.width;
    if x < w {
      var step := DitherPixel(src, y, x, st.errThis, st.errNext);
      if step.Ok? {
        var next := Advance(st, step.value, ColumnOf(w, y, x));
        forall k | 0 <= k < x + 1
          ensures next.dest[ColumnOf(w, y, k)] == next.found[k]
        {
          if k < x {
            assert ColumnOf(w, y, k) != ColumnOf(w, y, x);
          }
        }
        DitherRowFromPlaces(src, y, x + 1, next);
      }
    }
  }

  function Reverse<T>(s: seq<T>): (r: seq<T>)
    ensures |r| == |s|
  {
    seq(|s|, i requires 0 <= i < |s| => s[|s| - 1 - i])
  }

  /** A row is written in serpentine order: the destination row is the lookups in step order, reversed on odd rows. */
  lemma {:induction false} RowIsSerpentine(width: nat, y: nat, dest: seq<byte>, found: seq<byte>)
    requires |dest| == width && |found| == width
    requires forall k :: 0 <= k < width ==> dest[ColumnOf(width, y, k)] == found[k]
    ensures dest == if y % 2 == 0 then found else Reverse(found)
  {
    if y % 2 == 0 {
      forall c | 0 <= c < width
        ensures dest[c] == found[c]
      {
        assert ColumnOf(width, y, c) == c;
      }
    } else {
      forall c | 0 <= c < width
        ensures dest[c] == Reverse(found)[c]
      {
        assert ColumnOf(width, y, width - 1 - c) == c;
      }
    }
  }

  // ---------------------------------------------------------------- rows

  /** The state kept between calls: the two error rows, the reused destination row and the cursor. */
  datatype DitherState = DitherState(errThis: seq<Rgb>, errNext: seq<Rgb>, dest: seq<byte>, nextY: nat)

  predicate Shaped(src: Source, st: DitherState) {
    && |st.errThis| == src.image.width + 1
    && |st.errNext| == src.image.width + 1
    && |st.dest| == src.image.width
  }

  /** A new CopyPixelsImpl: zeroed arrays, cursor at row 0. */
  function Fresh(src: Source): (st: DitherState)
    ensures Shaped(src, st) && st.nextY == 0 && AllZero(st.errThis) && AllZero(st.errNext)
  {
    DitherState(Zeros(src.image.width + 1), Zeros(src.image.width + 1), seq(src.image.width, _ => 0), 0)
  }

  datatype RowOutcome = RowOutcome(state: DitherState, found: seq<byte>)

  /** Dithers the row at the cursor, then swaps the error rows, clears the new next row and advances the cursor. */
  function DitherRow(src: Source, st: DitherState): (r: Result<RowOutcome>)
    requires ValidSource(src) && Shaped(src, st) && st.nextY < |src.image.rows|
    ensures r.Ok? ==> Shaped(src, r.value.state) && r.value.state.nextY == st.nextY + 1
    ensures r.Ok? ==> AllZero(r.value.state.errNext)
    ensures r.Ok? ==> |r.value.found| == src.image.width
  {
    var y := st.nextY;
    var row :- DitherRowFrom(src, y, 0, RowState(st.errThis, st.errNext, st.dest, []));
    Ok(RowOutcome(DitherState(row.errNext, Zeros(src.image.width + 1), row.dest, y + 1), row.found))
  }

  /** The destination row is written in serpentine order: the lookups in step order, reversed on odd rows. */
  lemma DitherRowIsSerpentine(src: Source, st: DitherState)
    requires ValidSource(src) && Shaped(src, st) && st.nextY < |src.image.rows|
    ensures var r := DitherRow(src, st);
      r.Ok? ==> r.value.state.dest == if st.nextY % 2 == 0 then r.value.found else Reverse(r.value.found)
  {
    var r := DitherRow(src, st);
    if r.Ok? {
      DitherRowFromPlaces(src, st.nextY, 0, RowState(st.errThis, st.errNext, st.dest, []));
      var row := DitherRowFrom(src, st.nextY, 0, RowState(st.errThis, st.errNext, st.dest, [])).value;
      RowIsSerpentine(src.image.width, st.nextY, row.dest, row.found);
    }
  }

  /** A quantized row handed to the write callback. */
  datatype Emitted = Emitted(y: int, row: seq<byte>)

  datatype Run = Run(state: DitherState, rows: seq<Emitted>)

  predicate Consecutive(rows: seq<Emitted>, base: int, width: nat) {
    forall i :: 0 <= i < |rows| ==> rows[i].y == base + i && |rows[i].row| == width
  }

  /** A row function steps the cursor by one and keeps the state's shape. */
  ghost predicate Stepping(f: DitherState -> Result<RowOutcome>, src: Source) {
    forall st :: f(st).Ok? ==> f(st).value.state.nextY == st.nextY + 1 && Shaped(src, f(st).value.state)
  }

  /** The row loop over any row function: rows from the cursor up to `bottom`, each handed on as it is finished. */
  function RowLoop(f: DitherState -> Result<RowOutcome>, src: Source, st: DitherState, bottom: int): (r: Result<Run>)
    requires Stepping(f, src)
    ensures r.Ok? && Shaped(src, st) ==> Shaped(src, r.value.state)
    ensures r.Ok? ==> r.value.state.nextY == if st.nextY < bottom then bottom else st.nextY
    ensures r.Ok? ==> |r.value.rows| == (if st.nextY < bottom then bottom - st.nextY else 0)
    ensures r.Ok? && Shaped(src, st) ==> Consecutive(r.value.rows, st.nextY, src.image.width)
    ensures r.Ok? && st.nextY >= bottom ==> r.value.state == st
    decreases bottom - st.nextY
  {
    if st.nextY >= bottom then Ok(Run(st, []))
    else
      var out :- f(st);
      var rest :- RowLoop(f, src, out.state, bottom);
      Ok(Run(rest.state, [Emitted(st.nextY, out.state.dest)] + rest.rows))
  }

  /** A successful loop to `bottom` passes through `mid`: it is the loop to `mid` followed by the loop on from the state reached there. */
  lemma {:induction false} LoopsCompose(f: DitherState -> Result<RowOutcome>, src: Source, st: DitherState, mid: int, bottom: int)
    requires Stepping(f, src) && st.nextY <= mid <= bottom
    requires RowLoop(f, src, st, bottom).Ok?
    ensures var first := RowLoop(f, src, st, mid);
      && first.Ok?
      && var rest := RowLoop(f, src, first.value.state, bottom);
      && rest.Ok?
      && RowLoop(f, src, st, bottom).value == Run(rest.value.state, first.value.rows + rest.value.rows)
    decreases mid - st.nextY
  {
    if st.nextY < mid {
      var out := f(st).value;
      var head := Emitted(st.nextY, out.state.dest);
      LoopsCompose(f, src, out.state, mid, bottom);
      var first := RowLoop(f, src, out.state, mid).value;
      var rest := RowLoop(f, src, first.state, bottom).value;
      assert [head] + (first.rows + rest.rows) == ([head] + first.rows) + rest.rows;
    }
  }

  /**
    The ditherer's row function: DitherRow on the row at the cursor. A state
    of another shape or a cursor past the last row, which the loop is never
    given, is refused with ArgumentOutOfRange.
   */
  function RowFn(src: Source): DitherState -> Result<RowOutcome> {
    st => if ValidSource(src) && Shaped(src, st) && st.nextY < |src.image.rows| then DitherRow(src, st) else Err(ArgumentOutOfRange)
  }

  lemma RowFnSteps(src: Source)
    ensures Stepping(RowFn(src), src)
  {
  }

  /** The Floyd–Steinberg loop of CopyRowsFloydSteinberg, run from the cursor to `bottom`. */
  function RunRows(src: Source, st: DitherState, bottom: int): (r: Result<Run>)
    requires ValidSource(src) && Shaped(src, st) && bottom <= |src.image.rows|
    ensures r.Ok? ==> Shaped(src, r.value.state)
    ensures r.Ok? ==> r.value.state.nextY == if st.nextY < bottom then bottom else st.nextY
    ensures r.Ok? ==> |r.value.rows| == (if st.nextY < bottom then bottom - st.nextY else 0)
    ensures r.Ok? ==> Consecutive(r.value.rows, st.nextY, src.image.width)
    ensures r.Ok? && st.nextY >= bottom ==> r.value.state == st
  {
    RowFnSteps(src);
    RowLoop(RowFn(src), src, st, bottom)
  }

  /** Running to `bottom` from a state is running to `mid` and then on from the state reached there. */
  lemma RunsCompose(src: Source, st: DitherState, mid: int, bottom: int)
    requires ValidSource(src) && Shaped(src, st) && st.nextY <= mid <= bottom <= |src.image.rows|
    requires RunRows(src, st, bottom).Ok?
    ensures var first := RunRows(src, st, mid);
      && first.Ok?
      && var rest := RunRows(src, first.value.state, bottom);
      && rest.Ok?
      && RunRows(src, st, bottom).value == Run(rest.value.state, first.value.rows + rest.value.rows)
  {
    RowFnSteps(src);
    LoopsCompose(RowFn(src), src, st, mid, bottom);
  }

  /** A state the loop can be in: the state a fresh loop reaches at its own cursor. */
  ghost predicate ReachableBy(f: DitherState -> Result<RowOutcome>, src: Source, st: DitherState)
    requires Stepping(f, src)
  {
    && Shaped(src, st)
    && RowLoop(f, src, Fresh(src), st.nextY).Ok?
    && RowLoop(f, src, Fresh(src), st.nextY).value.state == st
  }

  /** A state the object can be in: the state a fresh run reaches at its own cursor. */
  ghost predicate Reachable(src: Source, st: DitherState)
  {
    RowFnSteps(src);
    ReachableBy(RowFn(src), src, st)
  }

  /** The write callback's guard: rows outside [top, bottom) are dropped. */
  function InRange(rows: seq<Emitted>, top: int, bottom: int): (r: seq<Emitted>)
    ensures |r| <= |rows| && forall i :: 0 <= i < |r| ==> top <= r[i].y < bottom
  {
    if rows == [] then []
    else if top <= rows[0].y < bottom then [rows[0]] + InRange(rows[1..], top, bottom)
    else InRange(rows[1..], top, bottom)
  }

  lemma {:induction false} InRangeOfConsecutive(rows: seq<Emitted>, base: int, width: nat, top: int, bottom: int)
    requires Consecutive(rows, base, width) && base <= top
    requires base + |rows| <= bottom
    ensures InRange(rows, top, bottom) == if top - base <= |rows| then rows[top - base..] else []
    decreases |rows|
  {
    if top == base {
      InRangeAllAbove(rows, base, width, top, bottom);
    } else if rows != [] {
      ConsecutiveSuffix(rows, base, width, 1);
      InRangeOfConsecutive(rows[1..], base + 1, width, top, bottom);
      InRangeSkipsFirst(rows, top, bottom);
      if top - base <= |rows| {
        SuffixOfTail(rows, top - base);
      }
    }
  }

  /** A first row above `top` is dropped. */
  lemma InRangeSkipsFirst(rows: seq<Emitted>, top: int, bottom: int)
    requires rows != [] && rows[0].y < top
    ensures InRange(rows, top, bottom) == InRange(rows[1..], top, bottom)
  {
  }

  lemma SuffixOfTail<T>(s: seq<T>, k: int)
    requires 1 <= k <= |s|
    ensures s[1..][k - 1..] == s[k..]
  {
  }

  lemma {:induction false} InRangeAllAbove(rows: seq<Emitted>, base: int, width: nat, top: int, bottom: int)
    requires Consecutive(rows, base, width) && top <= base
    requires base + |rows| <= bottom
    ensures InRange(rows, top, bottom) == rows
    decreases |rows|
  {
    if rows != [] {
      ConsecutiveSuffix(rows, base, width, 1);
      InRangeAllAbove(rows[1..], base + 1, width, top, bottom);
      assert [rows[0]] + rows[1..] == rows;
    }
  }

  /** The shape of CopyRowsFloydSteinberg over any row function: refuse to go backward, loop from the cursor to `bottom`, emit the rows in [top, bottom). */
  function ForwardRows(f: DitherState -> Result<RowOutcome>, src: Source, st: DitherState, top: int, bottom: int): (r: Result<Run>)
    requires Stepping(f, src) && Shaped(src, st)
    ensures top < st.nextY ==> r == Err(InvalidOperation)
    ensures r.Ok? ==> Shaped(src, r.value.state)
    ensures r.Ok? ==> r.value.state.nextY == if st.nextY < bottom then bottom else st.nextY
    ensures r.Ok? ==> |r.value.rows| == (if top < bottom then bottom - top else 0)
    ensures r.Ok? ==> Consecutive(r.value.rows, top, src.image.width)
  {
    if top < st.nextY then Err(InvalidOperation)
    else
      var run :- RowLoop(f, src, st, bottom);
      InRangeRun(run.rows, st.nextY, src.image.width, top, bottom);
      Ok(Run(run.state, InRange(run.rows, top, bottom)))
  }

  /** CopyRowsFloydSteinberg: refuses to go backward, dithers from the cursor to `bottom` and emits the rows in [top, bottom). */
  function CopyRowsFloydSteinberg(src: Source, st: DitherState, top: int, bottom: int): (r: Result<Run>)
    requires ValidSource(src) && Shaped(src, st)
    ensures top < st.nextY ==> r == Err(InvalidOperation)
    ensures r.Ok? ==> Shaped(src, r.value.state)
    ensures r.Ok? ==> r.value.state.nextY == if st.nextY < bottom then bottom else st.nextY
    ensures r.Ok? ==> |r.value.rows| == (if top < bottom then bottom - top else 0)
    ensures r.Ok? ==> Consecutive(r.value.rows, top, src.image.width)
  {
    RowFnSteps(src);
    ForwardRows(RowFn(src), src, st, top, bottom)
  }

  /** The rows of a run from `base` to `bottom` that the guard lets through are exactly rows top, …, bottom - 1. */
  lemma InRangeRun(rows: seq<Emitted>, base: int, width: nat, top: int, bottom: int)
    requires Consecutive(rows, base, width) && base <= top
    requires |rows| == (if base < bottom then bottom - base else 0)
    ensures |InRange(rows, top, bottom)| == (if top < bottom then bottom - top else 0)
    ensures Consecutive(InRange(rows, top, bottom), top, width)
    ensures top <= bottom ==> InRange(rows, top, bottom) == rows[top - base..]
  {
    if base < bottom {
      InRangeOfConsecutive(rows, base, width, top, bottom);
      if top > bottom {
        assert InRange(rows, top, bottom) == [];
      } else {
        ConsecutiveSuffix(rows, base, width, top - base);
      }
    } else {
      assert rows == [];
    }
  }

  lemma ConsecutiveSuffix(rows: seq<Emitted>, base: int, width: nat, k: nat)
    requires Consecutive(rows, base, width) && k <= |rows|
    ensures Consecutive(rows[k..], base + k, width)
  {
    forall i | 0 <= i < |rows[k..]|
      ensures rows[k..][i].y == base + k + i && |rows[k..][i].row| == width
    {
      assert rows[k..][i] == rows[k + i];
    }
  }

  /** Resuming a loop is invisible: from a reachable state, going forward gives what a fresh loop gives for those rows. */
  lemma ResumeLoop(f: DitherState -> Result<RowOutcome>, src: Source, st: DitherState, top: int, bottom: int)
    requires Stepping(f, src) && ReachableBy(f, src, st)
    requires st.nextY <= top <= bottom
    requires RowLoop(f, src, Fresh(src), bottom).Ok?
    ensures var r := ForwardRows(f, src, st, top, bottom);
      var whole := RowLoop(f, src, Fresh(src), bottom).value;
      && r.Ok?
      && r.value.state == whole.state
      && ReachableBy(f, src, r.value.state)
      && r.value.rows == whole.rows[top..]
  {
    var whole := RowLoop(f, src, Fresh(src), bottom).value;
    LoopsCompose(f, src, Fresh(src), st.nextY, bottom);
    var first := RowLoop(f, src, Fresh(src), st.nextY).value;
    var rest := RowLoop(f, src, st, bottom).value;
    assert whole.rows == first.rows + rest.rows;
    InRangeRun(rest.rows, st.nextY, src.image.width, top, bottom);
    assert |first.rows| == st.nextY;
    SuffixOfConcat(first.rows, rest.rows, top);
  }

  /** The rows part of ResumeLoop, with the consecutive run they are a suffix of. */
  lemma ResumeRows(f: DitherState -> Result<RowOutcome>, src: Source, st: DitherState, top: int, bottom: int)
    requires Stepping(f, src) && ReachableBy(f, src, st)
    requires st.nextY <= top <= bottom
    requires RowLoop(f, src, Fresh(src), bottom).Ok?
    ensures var r := ForwardRows(f, src, st, top, bottom);
      var whole := RowLoop(f, src, Fresh(src), bottom).value.rows;
      && r.Ok? && r.value.rows == whole[top..]
      && Consecutive(whole, 0, src.image.width) && |whole| == bottom
  {
    ResumeLoop(f, src, st, top, bottom);
  }

  lemma SuffixOfConcat<T>(a: seq<T>, b: seq<T>, k: int)
    requires |a| <= k <= |a| + |b|
    ensures (a + b)[k..] == b[k - |a|..]
  {
  }

  /**
    Resuming is invisible: from any reachable state, a request that does not
    go back above the cursor emits exactly the rows a fresh run to `bottom`
    produces for [top, bottom), and leaves the state that run reaches.
   */
  lemma ResumeMatchesFresh(src: Source, st: DitherState, top: int, bottom: int)
    requires ValidSource(src) && Reachable(src, st)
    requires st.nextY <= top <= bottom <= |src.image.rows|
    requires RunRows(src, Fresh(src), bottom).Ok?
    ensures var r := CopyRowsFloydSteinberg(src, st, top, bottom);
      var whole := RunRows(src, Fresh(src), bottom).value;
      && r.Ok?
      && r.value.state == whole.state
      && Reachable(src, r.value.state)
      && r.value.rows == whole.rows[top..]
  {
    RowFnSteps(src);
    ResumeLoop(RowFn(src), src, st, top, bottom);
  }

  // ---------------------------------------------------------------- without dithering

  /** The lookups of row `y` from column `x` on. */
  function LookupRow(src: Source, y: nat, x: nat): (r: Result<seq<byte>>)
    requires WellFormed(src.image) && y < |src.image.rows| && x <= src.image.width
    ensures r.Ok? ==> |r.value| == src.image.width - x
    ensures r.Ok? ==> forall k :: x <= k < src.image.width ==>
      src.palette.find(src.image.rows[y][k]).Ok? && r.value[k - x] == src.palette.find(src.image.rows[y][k]).value
    decreases src.image.width - x
  {
    if x == src.image.width then Ok([])
    else
      var index :- src.palette.find(src.image.rows[y][x]);
      var rest :- LookupRow(src, y, x + 1);
      Ok([index] + rest)
  }

  /** CopyRowsNoDithering: every row of [top, bottom) looked up pixel by pixel; the cursor is left alone. */
  function CopyRowsNoDithering(src: Source, st: DitherState, top: nat, bottom: int): (r: Result<Run>)
    requires WellFormed(src.image) && Shaped(src, st) && bottom <= |src.image.rows|
    ensures r.Ok? ==> Shaped(src, r.value.state) && r.value.state.nextY == st.nextY
    ensures r.Ok? ==> r.value.state.errThis == st.errThis && r.value.state.errNext == st.errNext
    ensures r.Ok? ==> |r.value.rows| == (if top < bottom then bottom - top else 0)
    ensures r.Ok? ==> Consecutive(r.value.rows, top, src.image.width)
    ensures r.Ok? ==> LookedUp(src, top, r.value.rows)
    decreases bottom - top
  {
    if top >= bottom then Ok(Run(st, []))
    else
      var row :- LookupRow(src, top, 0);
      assert RowLookedUp(src, top, row);
      var rest :- CopyRowsNoDithering(src, st.(dest := row), top + 1, bottom);
      LookedUpCons(src, top, row, rest.rows);
      Ok(Run(rest.state, [Emitted(top, row)] + rest.rows))
  }

  /** `row` holds the lookups of source row y, column by column. */
  ghost predicate RowLookedUp(src: Source, y: int, row: seq<byte>)
    requires WellFormed(src.image)
  {
    && 0 <= y < |src.image.rows| && |row| == src.image.width
    && forall k :: 0 <= k < src.image.width ==>
      src.palette.find(src.image.rows[y][k]).Ok? && row[k] == src.palette.find(src.image.rows[y][k]).value
  }

  /** Rows i = 0, 1, … hold the lookups of source rows top + i. */
  ghost predicate LookedUp(src: Source, top: int, rows: seq<Emitted>)
    requires WellFormed(src.image)
  {
    forall i :: 0 <= i < |rows| ==> RowLookedUp(src, top + i, rows[i].row)
  }

  lemma LookedUpCons(src: Source, top: nat, row: seq<byte>, rest: seq<Emitted>)
    requires WellFormed(src.image) && RowLookedUp(src, top, row)
    requires LookedUp(src, top + 1, rest)
    ensures LookedUp(src, top, [Emitted(top, row)] + rest)
  {
    var rows := [Emitted(top, row)] + rest;
    forall i | 0 <= i < |rows|
      ensures RowLookedUp(src, top + i, rows[i].row)
    {
      if i > 0 {
        assert rows[i] == rest[i - 1];
      }
    }
  }

  /** A row's lookups fail exactly when some pixel's lookup fails. */
  lemma {:induction false} LookupRowFails(src: Source, y: nat, x: nat)
    requires WellFormed(src.image) && y < |src.image.rows| && x <= src.image.width
    ensures LookupRow(src, y, x).Err? <==> exists k :: x <= k < src.image.width && src.palette.find(src.image.rows[y][k]).Err?
    decreases src.image.width - x
  {
    if x < src.image.width {
      LookupRowFails(src, y, x + 1);
    }
  }

  /** Without dithering a request fails exactly when the lookup of some pixel in its rows fails. */
  lemma {:induction false} NoDitheringFails(src: Source, st: DitherState, top: nat, bottom: int)
    requires WellFormed(src.image) && Shaped(src, st) && bottom <= |src.image.rows|
    ensures CopyRowsNoDithering(src, st, top, bottom).Err?
      <==> exists y, k :: top <= y < bottom && 0 <= k < src.image.width && src.palette.find(src.image.rows[y][k]).Err?
    decreases bottom - top
  {
    if top < bottom {
      LookupRowFails(src, top, 0);
      var row := LookupRow(src, top, 0);
      if row.Ok? {
        NoDitheringFails(src, st.(dest := row.value), top + 1, bottom);
        if exists y, k :: top <= y < bottom && 0 <= k < src.image.width && src.palette.find(src.image.rows[y][k]).Err? {
          var y, k :| top <= y < bottom && 0 <= k < src.image.width && src.palette.find(src.image.rows[y][k]).Err?;
          assert y != top;
        }
      }
    }
  }

  /** The dispatch of CopyRows over any row function: dither level 0 selects the plain lookup, any other level the row loop. */
  function CopyRowsBy(f: DitherState -> Result<RowOutcome>, src: Source, st: DitherState, top: nat, bottom: int): (r: Result<Run>)
    requires Stepping(f, src) && ValidSource(src) && Shaped(src, st) && bottom <= |src.image.rows|
    ensures r.Ok? ==> Shaped(src, r.value.state)
    ensures r.Ok? ==> |r.value.rows| == (if top < bottom then bottom - top else 0)
    ensures r.Ok? ==> Consecutive(r.value.rows, top, src.image.width)
    ensures src.ditherLevel != 0 && top < st.nextY ==> r == Err(InvalidOperation)
  {
    if src.ditherLevel == 0 then CopyRowsNoDithering(src, st, top, bottom)
    else ForwardRows(f, src, st, top, bottom)
  }

  /** CopyRows: dither level 0 selects the plain lookup, any other level Floyd–Steinberg. */
  function CopyRows(src: Source, st: DitherState, top: nat, bottom: int): (r: Result<Run>)
    requires ValidSource(src) && Shaped(src, st) && bottom <= |src.image.rows|
    ensures src.ditherLevel == 0 ==> r == CopyRowsNoDithering(src, st, top, bottom)
    ensures src.ditherLevel != 0 ==> r == CopyRowsFloydSteinberg(src, st, top, bottom)
  {
    RowFnSteps(src);
    CopyRowsBy(RowFn(src), src, st, top, bottom)
  }

  // ---------------------------------------------------------------- CopyPixels

  /** The `NextY` property: the cursor of the kept state, 0 before the first request. */
  function NextY(cache: Option<DitherState>): nat {
    if cache.Some? then cache.value.nextY else 0
  }

  /**
    The write callback applied to every emitted row: columns [left, left + width)
    of row y are copied to the start of buffer line y - top, and the rest of
    that line keeps its bytes. The rectangle's bottom edge is its top plus its
    height, as it does not wrap around.
   */
  function WriteRows(buffer: seq<seq<byte>>, rows: seq<Emitted>, rect: Geometry.RectInt32, width: nat): (out: seq<seq<byte>>)
    requires 0 <= rect.x && 0 <= rect.width && rect.x + rect.width <= width
    requires 0 <= rect.height && |buffer| == rect.height && LinesFit(buffer, rect.width) && Geometry.NoOverflow(rect)
    requires forall i :: 0 <= i < |rows| ==> |rows[i].row| == width
    ensures |out| == |buffer| && forall i :: 0 <= i < |out| ==> |out[i]| == |buffer[i]|
    decreases |rows|
  {
    if rows == [] then buffer
    else
      var e := rows[|rows| - 1];
      var earlier := WriteRows(buffer, rows[..|rows| - 1], rect, width);
      if e.y < rect.y || e.y >= rect.y + rect.height then earlier
      else earlier[e.y - rect.y := Overlay(earlier[e.y - rect.y], e.row[rect.x..rect.x + rect.width])]
  }

  lemma {:induction false} WriteRowsFills(buffer: seq<seq<byte>>, rows: seq<Emitted>, rect: Geometry.RectInt32, width: nat)
    requires 0 <= rect.x && 0 <= rect.width && rect.x + rect.width <= width
    requires 0 <= rect.height && |buffer| == rect.height && LinesFit(buffer, rect.width) && Geometry.NoOverflow(rect)
    requires Consecutive(rows, rect.y, width) && |rows| <= rect.height
    ensures forall i :: 0 <= i < |rows| ==> WriteRows(buffer, rows, rect, width)[i] == Overlay(buffer[i], rows[i].row[rect.x..rect.x + rect.width])
    ensures forall i :: |rows| <= i < |buffer| ==> WriteRows(buffer, rows, rect, width)[i] == buffer[i]
    decreases |rows|
  {
    if rows != [] {
      var n := |rows| - 1;
      assert Consecutive(rows[..n], rect.y, width) by {
        forall i | 0 <= i < n
          ensures rows[..n][i].y == rect.y + i && |rows[..n][i].row| == width
        {
          assert rows[..n][i] == rows[i];
        }
      }
      WriteRowsFills(buffer, rows[..n], rect, width);
      var earlier := WriteRows(buffer, rows[..n], rect, width);
      assert rows[n].y == rect.y + n && n < rect.height;
      assert WriteRows(buffer, rows, rect, width) == earlier[n := Overlay(earlier[n], rows[n].row[rect.x..rect.x + rect.width])];
      assert earlier[n] == buffer[n];
    }
  }

  datatype Copied = Copied(cache: DitherState, buffer: seq<seq<byte>>)

  /** The state CopyPixels works from: the kept one, unless there is none or the request starts above its cursor. */
  function Impl(src: Source, cache: Option<DitherState>, top: int): (st: DitherState)
    requires cache.Some? ==> Shaped(src, cache.value)
    ensures Shaped(src, st)
    ensures cache.None? || top < cache.value.nextY ==> st == Fresh(src)
    ensures cache.Some? && top >= cache.value.nextY ==> st == cache.value
  {
    if cache.None? || top < cache.value.nextY then Fresh(src) else cache.value
  }

  /** What CopyPixels needs of its arguments: the rectangle lies inside the image and the buffer has a line, with room for the rectangle's width, per row of it. */
  predicate Request(src: Source, cache: Option<DitherState>, srcRect: Option<Geometry.RectInt32>, buffer: seq<seq<byte>>) {
    && ValidSource(src) && (cache.Some? ==> Shaped(src, cache.value))
    && Inside(src.image, RequestRect(src.image, srcRect)) && |buffer| == RequestRect(src.image, srcRect).height
    && LinesFit(buffer, RequestRect(src.image, srcRect).width)
  }

  /** The body of CopyPixels once the rectangle and the starting state are fixed: produce the rectangle's rows and write them. */
  function CopyRect(f: DitherState -> Result<RowOutcome>, src: Source, st: DitherState, rect: Geometry.RectInt32, buffer: seq<seq<byte>>): (r: Result<Copied>)
    requires Stepping(f, src) && ValidSource(src) && Shaped(src, st) && Inside(src.image, rect) && |buffer| == rect.height && LinesFit(buffer, rect.width)
    ensures r.Ok? ==> Shaped(src, r.value.cache) && |r.value.buffer| == |buffer|
  {
    // rect.Bottom is the plain sum: it does not wrap around inside the image (InsideBottom)
    WriteRun(CopyRowsBy(f, src, st, rect.y, rect.y + rect.height), buffer, rect, src.image.width)
  }

  /** A failed run fails the copy; a successful one keeps its state and has its rows written into the buffer. */
  function WriteRun(run: Result<Run>, buffer: seq<seq<byte>>, rect: Geometry.RectInt32, width: nat): (r: Result<Copied>)
    requires 0 <= rect.x && 0 <= rect.width && rect.x + rect.width <= width
    requires 0 <= rect.height && |buffer| == rect.height && LinesFit(buffer, rect.width) && Geometry.NoOverflow(rect)
    requires run.Ok? ==> forall i :: 0 <= i < |run.value.rows| ==> |run.value.rows[i].row| == width
    ensures r.Ok? <==> run.Ok?
    ensures r.Ok? ==> r.value == Copied(run.value.state, WriteRows(buffer, run.value.rows, rect, width))
  {
    if run.Err? then Err(run.error)
    else Ok(Copied(run.value.state, WriteRows(buffer, run.value.rows, rect, width)))
  }

  /** CopyPixels over any row function. */
  function CopyPixelsBy(f: DitherState -> Result<RowOutcome>, src: Source, cache: Option<DitherState>, srcRect: Option<Geometry.RectInt32>, buffer: seq<seq<byte>>): (r: Result<Copied>)
    requires Stepping(f, src) && Request(src, cache, srcRect, buffer)
    ensures r.Ok? ==> Shaped(src, r.value.cache) && |r.value.buffer| == |buffer|
  {
    var rect := RequestRect(src.image, srcRect);
    CopyRect(f, src, Impl(src, cache, rect.y), rect, buffer)
  }

  /**
    CopyPixels: a missing rectangle means the whole image; the kept state is
    replaced by a fresh one when there is none or the request starts above
    its cursor; the rows are then produced and written into the buffer.
   */
  function CopyPixels(src: Source, cache: Option<DitherState>, srcRect: Option<Geometry.RectInt32>, buffer: seq<seq<byte>>): (r: Result<Copied>)
    requires Request(src, cache, srcRect, buffer)
    ensures r.Ok? ==> Shaped(src, r.value.cache) && |r.value.buffer| == |buffer|
  {
    RowFnSteps(src);
    CopyPixelsBy(RowFn(src), src, cache, srcRect, buffer)
  }

  /** A copied rectangle is the rows CopyRowsBy produces for it, written into the buffer; its failure is theirs. */
  lemma CopyRectRows(f: DitherState -> Result<RowOutcome>, src: Source, st: DitherState, rect: Geometry.RectInt32, buffer: seq<seq<byte>>)
    requires Stepping(f, src) && ValidSource(src) && Shaped(src, st) && Inside(src.image, rect) && |buffer| == rect.height && LinesFit(buffer, rect.width)
    ensures var run := CopyRowsBy(f, src, st, rect.y, rect.y + rect.height);
      && (CopyRect(f, src, st, rect, buffer).Ok? <==> run.Ok?)
      && (run.Ok? ==> CopyRect(f, src, st, rect, buffer).value.cache == run.value.state)
      && (run.Ok? ==> CopyRect(f, src, st, rect, buffer).value.buffer == WriteRows(buffer, run.value.rows, rect, src.image.width))
  {
    var run := CopyRowsBy(f, src, st, rect.y, rect.y + rect.height);
    assert CopyRect(f, src, st, rect, buffer) == WriteRun(run, buffer, rect, src.image.width);
  }

  /** A successful CopyRect keeps the length of every buffer line (the stride). */
  lemma CopyRectWidths(f: DitherState -> Result<RowOutcome>, src: Source, st: DitherState, rect: Geometry.RectInt32, buffer: seq<seq<byte>>)
    requires Stepping(f, src) && ValidSource(src) && Shaped(src, st) && Inside(src.image, rect) && |buffer| == rect.height && LinesFit(buffer, rect.width)
    ensures var r := CopyRect(f, src, st, rect, buffer);
      r.Ok? ==> forall i :: 0 <= i < |buffer| ==> |r.value.buffer[i]| == |buffer[i]|
  {
    CopyRectRows(f, src, st, rect, buffer);
    var run := CopyRowsBy(f, src, st, rect.y, rect.y + rect.height);
    if run.Ok? {
      WriteRowsFills(buffer, run.value.rows, rect, src.image.width);
    }
  }

  /** CopyPixelsBy works on the requested rectangle from the state Impl picks. */
  lemma CopyPixelsByRect(f: DitherState -> Result<RowOutcome>, src: Source, cache: Option<DitherState>, srcRect: Option<Geometry.RectInt32>, buffer: seq<seq<byte>>)
    requires Stepping(f, src) && Request(src, cache, srcRect, buffer)
    ensures var rect := RequestRect(src.image, srcRect);
      CopyPixelsBy(f, src, cache, srcRect, buffer) == CopyRect(f, src, Impl(src, cache, rect.y), rect, buffer)
  {
  }

  lemma FreshIsReachableBy(f: DitherState -> Result<RowOutcome>, src: Source)
    requires Stepping(f, src)
    ensures ReachableBy(f, src, Fresh(src))
  {
    assert RowLoop(f, src, Fresh(src), 0) == Ok(Run(Fresh(src), []));
  }

  /**
    `lines` are the buffer lines `buffer` with, one per rectangle row, the
    rectangle's columns of rows rect.y, rect.y + 1, … of `whole` copied to
    their start; the rest of every line is unchanged.
   */
  ghost predicate SlicesOf(lines: seq<seq<byte>>, buffer: seq<seq<byte>>, whole: seq<Emitted>, rect: Geometry.RectInt32) {
    && |lines| == rect.height && |buffer| == rect.height && LinesFit(buffer, rect.width)
    && 0 <= rect.y && rect.y + rect.height <= |whole|
    && forall i :: 0 <= i < rect.height ==>
      && 0 <= rect.x <= rect.x + rect.width <= |whole[rect.y + i].row|
      && lines[i] == Overlay(buffer[i], whole[rect.y + i].row[rect.x..rect.x + rect.width])
  }

  /** The rows of a successful request, line by line, from the rows CopyRowsBy produced. */
  lemma WrittenLines(buffer: seq<seq<byte>>, rows: seq<Emitted>, whole: seq<Emitted>, rect: Geometry.RectInt32, width: nat)
    requires 0 <= rect.x && 0 <= rect.width && rect.x + rect.width <= width
    requires 0 <= rect.y && 0 <= rect.height && |buffer| == rect.height && LinesFit(buffer, rect.width) && Geometry.NoOverflow(rect)
    requires Consecutive(rows, rect.y, width) && |rows| == rect.height
    requires rect.y <= |whole| && rows == whole[rect.y..]
    ensures SlicesOf(WriteRows(buffer, rows, rect, width), buffer, whole, rect)
  {
    WriteRowsFills(buffer, rows, rect, width);
    forall i | 0 <= i < rect.height
      ensures rows[i] == whole[rect.y + i]
    {
    }
  }

  /** Writing the rows of a run from row 0 that are at or below the rectangle's top fills the rectangle with their slices. */
  lemma WrittenSuffix(buffer: seq<seq<byte>>, rows: seq<Emitted>, whole: seq<Emitted>, rect: Geometry.RectInt32, width: nat)
    requires 0 <= rect.x && 0 <= rect.width && rect.x + rect.width <= width
    requires 0 <= rect.y && 0 <= rect.height && |buffer| == rect.height && LinesFit(buffer, rect.width) && Geometry.NoOverflow(rect)
    requires Consecutive(whole, 0, width) && |whole| == rect.y + rect.height && rows == whole[rect.y..]
    ensures SlicesOf(WriteRows(buffer, rows, rect, width), buffer, whole, rect)
  {
    ConsecutiveSuffix(whole, 0, width, rect.y);
    WrittenLines(buffer, rows, whole, rect, width);
  }

  /** `lines` are the rectangle's slices of the rows one fresh run computes down to the rectangle's bottom. */
  ghost predicate FreshLines(f: DitherState -> Result<RowOutcome>, src: Source, rect: Geometry.RectInt32, buffer: seq<seq<byte>>, lines: seq<seq<byte>>)
    requires Stepping(f, src) && ValidSource(src) && Inside(src.image, rect)
  {
    var whole := RowLoop(f, src, Fresh(src), rect.y + rect.height);
    whole.Ok? && SlicesOf(lines, buffer, whole.value.rows, rect)
  }

  /** Resuming from a reachable state at or above the rectangle's top writes the lines a fresh run computes, and keeps a reachable state. */
  lemma HistoryFreeRect(f: DitherState -> Result<RowOutcome>, src: Source, st: DitherState, rect: Geometry.RectInt32, buffer: seq<seq<byte>>)
    requires Stepping(f, src) && ValidSource(src) && ReachableBy(f, src, st) && src.ditherLevel != 0
    requires Inside(src.image, rect) && |buffer| == rect.height && LinesFit(buffer, rect.width) && st.nextY <= rect.y
    requires RowLoop(f, src, Fresh(src), rect.y + rect.height).Ok?
    ensures var r := CopyRect(f, src, st, rect, buffer);
      r.Ok? && ReachableBy(f, src, r.value.cache) && FreshLines(f, src, rect, buffer, r.value.buffer)
  {
    CopyRectReachable(f, src, st, rect, buffer);
    CopyRectResumes(f, src, st, rect, buffer);
  }

  /** From a reachable state at or above the rectangle's top, the copy succeeds and keeps a reachable state. */
  lemma CopyRectReachable(f: DitherState -> Result<RowOutcome>, src: Source, st: DitherState, rect: Geometry.RectInt32, buffer: seq<seq<byte>>)
    requires Stepping(f, src) && ValidSource(src) && ReachableBy(f, src, st) && src.ditherLevel != 0
    requires Inside(src.image, rect) && |buffer| == rect.height && LinesFit(buffer, rect.width) && st.nextY <= rect.y
    requires RowLoop(f, src, Fresh(src), rect.y + rect.height).Ok?
    ensures var r := CopyRect(f, src, st, rect, buffer);
      r.Ok? && ReachableBy(f, src, r.value.cache)
  {
    ResumeLoop(f, src, st, rect.y, rect.y + rect.height);
    CopyRectRows(f, src, st, rect, buffer);
  }

  /** From a reachable state at or above the rectangle's top, the copy writes the slices of the rows a fresh run computes. */
  lemma CopyRectResumes(f: DitherState -> Result<RowOutcome>, src: Source, st: DitherState, rect: Geometry.RectInt32, buffer: seq<seq<byte>>)
    requires Stepping(f, src) && ValidSource(src) && ReachableBy(f, src, st) && src.ditherLevel != 0
    requires Inside(src.image, rect) && |buffer| == rect.height && LinesFit(buffer, rect.width) && st.nextY <= rect.y
    requires RowLoop(f, src, Fresh(src), rect.y + rect.height).Ok?
    ensures var r := CopyRect(f, src, st, rect, buffer);
      var whole := RowLoop(f, src, Fresh(src), rect.y + rect.height).value;
      r.Ok? && SlicesOf(r.value.buffer, buffer, whole.rows, rect)
  {
    var bottom := rect.y + rect.height;
    ResumeRows(f, src, st, rect.y, bottom);
    CopyRectFromRun(f, src, st, rect, buffer, RowLoop(f, src, Fresh(src), bottom).value.rows);
  }

  /** When the rows from the rectangle's top are the suffix of a consecutive run `whole`, the copy writes the slices of `whole`. */
  lemma CopyRectFromRun(f: DitherState -> Result<RowOutcome>, src: Source, st: DitherState, rect: Geometry.RectInt32, buffer: seq<seq<byte>>, whole: seq<Emitted>)
    requires Stepping(f, src) && ValidSource(src) && Shaped(src, st) && src.ditherLevel != 0
    requires Inside(src.image, rect) && |buffer| == rect.height && LinesFit(buffer, rect.width)
    requires Consecutive(whole, 0, src.image.width) && |whole| == rect.y + rect.height
    requires ForwardRows(f, src, st, rect.y, rect.y + rect.height).Ok?
    requires ForwardRows(f, src, st, rect.y, rect.y + rect.height).value.rows == whole[rect.y..]
    ensures var r := CopyRect(f, src, st, rect, buffer);
      r.Ok? && SlicesOf(r.value.buffer, buffer, whole, rect)
  {
    var run := CopyRowsBy(f, src, st, rect.y, rect.y + rect.height);
    WriteRunSlices(run, buffer, rect, src.image.width, whole);
  }

  /** Writing a successful run whose rows are the suffix of a consecutive run `whole` from the rectangle's top puts the slices of `whole` into the buffer. */
  lemma WriteRunSlices(run: Result<Run>, buffer: seq<seq<byte>>, rect: Geometry.RectInt32, width: nat, whole: seq<Emitted>)
    requires 0 <= rect.x && 0 <= rect.width && rect.x + rect.width <= width
    requires 0 <= rect.y && 0 <= rect.height && |buffer| == rect.height && LinesFit(buffer, rect.width) && Geometry.NoOverflow(rect)
    requires Consecutive(whole, 0, width) && |whole| == rect.y + rect.height
    requires run.Ok? && run.value.rows == whole[rect.y..]
    ensures WriteRun(run, buffer, rect, width).Ok?
    ensures SlicesOf(WriteRun(run, buffer, rect, width).value.buffer, buffer, whole, rect)
  {
    ConsecutiveSuffix(whole, 0, width, rect.y);
    WrittenSuffix(buffer, run.value.rows, whole, rect, width);
  }

  /** The state CopyPixels starts from is reachable when the kept one is, and its cursor is at or above the request's top. */
  lemma ImplIsReachable(f: DitherState -> Result<RowOutcome>, src: Source, cache: Option<DitherState>, top: nat)
    requires Stepping(f, src) && (cache.Some? ==> ReachableBy(f, src, cache.value))
    ensures ReachableBy(f, src, Impl(src, cache, top)) && Impl(src, cache, top).nextY <= top
  {
    FreshIsReachableBy(f, src);
  }

  /** The history-free property over any row function (see CopyPixelsIsHistoryFree). */
  lemma HistoryFreeBy(f: DitherState -> Result<RowOutcome>, src: Source, cache: Option<DitherState>, srcRect: Option<Geometry.RectInt32>, buffer: seq<seq<byte>>)
    requires Stepping(f, src) && Request(src, cache, srcRect, buffer) && src.ditherLevel != 0
    requires cache.Some? ==> ReachableBy(f, src, cache.value)
    requires RowLoop(f, src, Fresh(src), RequestRect(src.image, srcRect).y + RequestRect(src.image, srcRect).height).Ok?
    ensures var r := CopyPixelsBy(f, src, cache, srcRect, buffer);
      r.Ok? && ReachableBy(f, src, r.value.cache) && FreshLines(f, src, RequestRect(src.image, srcRect), buffer, r.value.buffer)
  {
    var rect := RequestRect(src.image, srcRect);
    var st := Impl(src, cache, rect.y);
    ImplIsReachable(f, src, cache, rect.y);
    HistoryFreeRect(f, src, st, rect, buffer);
    CopyPixelsByRect(f, src, cache, srcRect, buffer);
  }

  /** `lines` are the rectangle's slices of the rows one fresh Floyd–Steinberg run computes (FreshLines for the real row step). */
  ghost predicate RunLines(src: Source, rect: Geometry.RectInt32, buffer: seq<seq<byte>>, lines: seq<seq<byte>>)
    requires ValidSource(src) && Inside(src.image, rect)
  {
    RowFnSteps(src);
    FreshLines(RowFn(src), src, rect, buffer, lines)
  }

  /**
    The dithered pixels never depend on earlier requests: whatever reachable
    state is kept, and whatever the buffer held, every line of the requested
    rectangle receives the matching slice of the row a single fresh run
    computes, and the state kept afterwards is reachable again.
   */
  lemma CopyPixelsIsHistoryFree(src: Source, cache: Option<DitherState>, srcRect: Option<Geometry.RectInt32>, buffer: seq<seq<byte>>)
    requires Request(src, cache, srcRect, buffer) && src.ditherLevel != 0
    requires cache.Some? ==> Reachable(src, cache.value)
    requires RunRows(src, Fresh(src), RequestRect(src.image, srcRect).y + RequestRect(src.image, srcRect).height).Ok?
    ensures var r := CopyPixels(src, cache, srcRect, buffer);
      r.Ok? && Reachable(src, r.value.cache) && RunLines(src, RequestRect(src.image, srcRect), buffer, r.value.buffer)
  {
    RowFnSteps(src);
    HistoryFreeBy(RowFn(src), src, cache, srcRect, buffer);
  }

  /** Level 0 once the rectangle and the starting state are fixed. */
  lemma WithoutDitheringRect(f: DitherState -> Result<RowOutcome>, src: Source, st: DitherState, rect: Geometry.RectInt32, buffer: seq<seq<byte>>)
    requires Stepping(f, src) && ValidSource(src) && Shaped(src, st) && Inside(src.image, rect) && |buffer| == rect.height && LinesFit(buffer, rect.width)
    requires src.ditherLevel == 0
    ensures var r := CopyRect(f, src, st, rect, buffer);
      && (r.Err? <==> exists y, k :: rect.y <= y < rect.y + rect.height && 0 <= k < src.image.width && src.palette.find(src.image.rows[y][k]).Err?)
      && (r.Ok? ==> r.value.cache.nextY == st.nextY)
      && (r.Ok? ==> forall i :: 0 <= i < rect.height ==> LineLookedUp(src, rect.y + i, rect.x, rect.width, buffer[i], r.value.buffer[i]))
  {
    var bottom := rect.y + rect.height;
    NoDitheringFails(src, st, rect.y, bottom);
    var run := CopyRowsNoDithering(src, st, rect.y, bottom);
    assert CopyRowsBy(f, src, st, rect.y, bottom) == run;
    CopyRectRows(f, src, st, rect, buffer);
    if run.Ok? {
      LookedUpLines(src, buffer, run.value.rows, rect);
    }
  }

  /** Level 0 over any row function (see CopyPixelsWithoutDithering). */
  lemma WithoutDitheringBy(f: DitherState -> Result<RowOutcome>, src: Source, cache: Option<DitherState>, srcRect: Option<Geometry.RectInt32>, buffer: seq<seq<byte>>)
    requires Stepping(f, src) && Request(src, cache, srcRect, buffer) && src.ditherLevel == 0
    ensures var r := CopyPixelsBy(f, src, cache, srcRect, buffer);
      var rect := RequestRect(src.image, srcRect);
      && (r.Err? <==> exists y, k :: rect.y <= y < rect.y + rect.height && 0 <= k < src.image.width && src.palette.find(src.image.rows[y][k]).Err?)
      && (r.Ok? ==> r.value.cache.nextY == Impl(src, cache, rect.y).nextY)
      && (r.Ok? ==> forall i :: 0 <= i < rect.height ==> LineLookedUp(src, rect.y + i, rect.x, rect.width, buffer[i], r.value.buffer[i]))
  {
    var rect := RequestRect(src.image, srcRect);
    CopyPixelsByRect(f, src, cache, srcRect, buffer);
    WithoutDitheringRect(f, src, Impl(src, cache, rect.y), rect, buffer);
  }

  /** `line` is the buffer line `before` whose first w entries now hold, at column j, the palette lookup of source pixel (x + j, y). */
  ghost predicate LineLookedUp(src: Source, y: int, x: int, w: int, before: seq<byte>, line: seq<byte>)
    requires WellFormed(src.image) && 0 <= y < |src.image.rows| && 0 <= x && x + w <= src.image.width
  {
    && 0 <= w <= |before| && |line| == |before| && line[w..] == before[w..]
    && forall j :: 0 <= j < w ==>
      src.palette.find(src.image.rows[y][x + j]).Ok? && line[j] == src.palette.find(src.image.rows[y][x + j]).value
  }

  /** Written rows that hold the lookups of their source rows put, at line i and column j, the lookup of pixel (rect.x + j, rect.y + i). */
  lemma LookedUpLines(src: Source, buffer: seq<seq<byte>>, rows: seq<Emitted>, rect: Geometry.RectInt32)
    requires WellFormed(src.image) && Inside(src.image, rect) && |buffer| == rect.height && LinesFit(buffer, rect.width)
    requires Consecutive(rows, rect.y, src.image.width) && |rows| == rect.height
    requires LookedUp(src, rect.y, rows)
    ensures var out := WriteRows(buffer, rows, rect, src.image.width);
      |out| == rect.height && forall i :: 0 <= i < rect.height ==> LineLookedUp(src, rect.y + i, rect.x, rect.width, buffer[i], out[i])
  {
    var out := WriteRows(buffer, rows, rect, src.image.width);
    WriteRowsFills(buffer, rows, rect, src.image.width);
    forall i | 0 <= i < rect.height
      ensures LineLookedUp(src, rect.y + i, rect.x, rect.width, buffer[i], out[i])
    {
      var row := rows[i].row;
      assert out[i] == Overlay(buffer[i], row[rect.x..rect.x + rect.width]);
      assert RowLookedUp(src, rect.y + i, row);
      SliceLookedUp(src, rect.y + i, row, buffer[i], out[i], rect.x, rect.width);
    }
  }

  /** A slice [x, x + w) of a looked-up row, copied to the start of a buffer line, puts the lookups of those columns there. */
  lemma SliceLookedUp(src: Source, y: int, row: seq<byte>, before: seq<byte>, line: seq<byte>, x: int, w: int)
    requires WellFormed(src.image) && RowLookedUp(src, y, row)
    requires 0 <= x && 0 <= w && x + w <= src.image.width && w <= |before| && line == Overlay(before, row[x..x + w])
    ensures LineLookedUp(src, y, x, w, before, line)
  {
    forall j | 0 <= j < w
      ensures src.palette.find(src.image.rows[y][x + j]).Ok? && line[j] == src.palette.find(src.image.rows[y][x + j]).value
    {
      assert line[j] == line[..w][j] == row[x + j];
    }
  }

  /** Without dithering every line of the rectangle holds the palette lookups of the matching source pixels, and the cursor stays put. */
  lemma CopyPixelsWithoutDithering(src: Source, cache: Option<DitherState>, srcRect: Option<Geometry.RectInt32>, buffer: seq<seq<byte>>)
    requires Request(src, cache, srcRect, buffer) && src.ditherLevel == 0
    ensures var r := CopyPixels(src, cache, srcRect, buffer);
      var rect := RequestRect(src.image, srcRect);
      && (r.Err? <==> exists y, k :: rect.y <= y < rect.y + rect.height && 0 <= k < src.image.width && src.palette.find(src.image.rows[y][k]).Err?)
      && (r.Ok? ==> r.value.cache.nextY == Impl(src, cache, rect.y).nextY)
      && (r.Ok? ==> forall i :: 0 <= i < rect.height ==> LineLookedUp(src, rect.y + i, rect.x, rect.width, buffer[i], r.value.buffer[i]))
  {
    RowFnSteps(src);
    WithoutDitheringBy(RowFn(src), src, cache, srcRect, buffer);
  }

  // ---------------------------------------------------------------- exact palettes

  /** Every pixel of the image is found in the palette with exactly its own colour channels. */
  predicate ExactPalette(src: Source)
    requires WellFormed(src.image)
  {
    forall y, x :: 0 <= y < |src.image.rows| && 0 <= x < src.image.width ==> ExactAt(src, src.image.rows[y][x])
  }

  lemma AddNoError(s: seq<Rgb>, i: int)
    requires 0 <= i < |s| && AllZero(s)
    ensures AddAt(s, i, NoError) == s
  {
  }

  /** With an exact palette and no error so far, a step finds the pixel's own index and leaves the error rows zero. */
  lemma ExactStep(src: Source, y: nat, x: nat, errThis: seq<Rgb>, errNext: seq<Rgb>)
    requires ValidSource(src) && ExactPalette(src)
    requires y < |src.image.rows| && x < src.image.width
    requires |errThis| == src.image.width + 1 && |errNext| == src.image.width + 1
    requires AllZero(errThis) && AllZero(errNext)
    ensures var r := DitherPixel(src, y, x, errThis, errNext);
      && r.Ok? && r.value.errThis == errThis && r.value.errNext == errNext
      && r.value.index == src.palette.find(src.image.rows[y][ColumnOf(src.image.width, y, x)]).value
  {
    var pixel := src.image.rows[y][ColumnOf(src.image.width, y, x)];
    assert ExactAt(src, pixel) by {
      var c := ColumnOf(src.image.width, y, x);
      assert src.image.rows[y][c] == pixel;
    }
    ExactPixelStep(src, y, x, errThis, errNext);
  }

  /** `pixel` is found in the palette with exactly its own colour channels. */
  predicate ExactAt(src: Source, pixel: ColorBgra32) {
    var f := src.palette.find(pixel);
    && f.Ok? && (f.value as int) < |src.palette.colors|
    && src.palette.colors[f.value].b == pixel.b
    && src.palette.colors[f.value].g == pixel.g
    && src.palette.colors[f.value].r == pixel.r
  }

  /** A step over an exactly found pixel with zero error rows changes no error. */
  lemma ExactPixelStep(src: Source, y: nat, x: nat, errThis: seq<Rgb>, errNext: seq<Rgb>)
    requires ValidSource(src)
    requires y < |src.image.rows| && x < src.image.width
    requires |errThis| == src.image.width + 1 && |errNext| == src.image.width + 1
    requires AllZero(errThis) && AllZero(errNext)
    requires ExactAt(src, src.image.rows[y][ColumnOf(src.image.width, y, x)])
    ensures var r := DitherPixel(src, y, x, errThis, errNext);
      && r.Ok? && r.value.errThis == errThis && r.value.errNext == errNext
      && r.value.index == src.palette.find(src.image.rows[y][ColumnOf(src.image.width, y, x)]).value
  {
    var w := src.image.width;
    var pixel := src.image.rows[y][ColumnOf(w, y, x)];
    assert errThis[x] == NoError;
    var index := src.palette.find(pixel).value;
    var pc := src.palette.colors[index];
    assert Rgb(pc.b - pixel.b, pc.g - pixel.g, pc.r - pixel.r) == NoError;
    AddNoError(errNext, w - x);
    if x != 0 {
      AddNoError(errNext, w - x + 1);
    }
    AddNoError(errNext, w - x - 1);
    AddNoError(errThis, x + 1);
  }

  /** The first `n` steps of row `y` found the exact palette entries of the pixels they visited. */
  ghost predicate FoundExact(src: Source, y: nat, n: nat, found: seq<byte>)
    requires ValidSource(src) && y < |src.image.rows| && n <= |found| && n <= src.image.width
  {
    forall k :: 0 <= k < n ==>
      var f := src.palette.find(src.image.rows[y][ColumnOf(src.image.width, y, k)]);
      f.Ok? && found[k] == f.value
  }

  /** One exact step keeps the error rows zero and extends the exact lookups by the pixel it visits. */
  lemma ExactAdvance(src: Source, y: nat, x: nat, st: RowState)
    requires ValidSource(src) && ExactPalette(src) && y < |src.image.rows|
    requires x < src.image.width && RowShaped(src, st) && |st.found| == x
    requires AllZero(st.errThis) && AllZero(st.errNext) && FoundExact(src, y, x, st.found)
    ensures var step := DitherPixel(src, y, x, st.errThis, st.errNext);
      step.Ok? &&
      var next := Advance(st, step.value, ColumnOf(src.image.width, y, x));
      && RowShaped(src, next) && |next.found| == x + 1
      && AllZero(next.errThis) && AllZero(next.errNext) && FoundExact(src, y, x + 1, next.found)
  {
    ExactStep(src, y, x, st.errThis, st.errNext);
    var step := DitherPixel(src, y, x, st.errThis, st.errNext).value;
    var next := Advance(st, step, ColumnOf(src.image.width, y, x));
    assert forall k :: 0 <= k < x ==> next.found[k] == st.found[k];
  }

  lemma {:induction false} ExactRowFrom(src: Source, y: nat, x: nat, st: RowState)
    requires ValidSource(src) && ExactPalette(src) && y < |src.image.rows|
    requires x <= src.image.width && RowShaped(src, st) && |st.found| == x
    requires AllZero(st.errThis) && AllZero(st.errNext) && FoundExact(src, y, x, st.found)
    ensures var r := DitherRowFrom(src, y, x, st);
      r.Ok? && AllZero(r.value.errThis) && AllZero(r.value.errNext) && FoundExact(src, y, src.image.width, r.value.found)
    decreases src.image.width - x
  {
    var w := src.image.width;
    if x < w {
      var step := DitherPixel(src, y, x, st.errThis, st.errNext);
      ExactAdvance(src, y, x, st);
      ExactRowFrom(src, y, x + 1, Advance(st, step.value, ColumnOf(w, y, x)));
    }
  }

  /** With an exact palette a dithered row is the plain lookup of the source row, and the error rows stay zero. */
  lemma ExactRow(src: Source, st: DitherState)
    requires ValidSource(src) && ExactPalette(src) && Shaped(src, st) && st.nextY < |src.image.rows|
    requires AllZero(st.errThis) && AllZero(st.errNext)
    ensures DitherRow(src, st).Ok?
    ensures AllZero(DitherRow(src, st).value.state.errThis)
    ensures RowLookedUp(src, st.nextY, DitherRow(src, st).value.state.dest)
  {
    var w := src.image.width;
    var y := st.nextY;
    ExactRowFrom(src, y, 0, RowState(st.errThis, st.errNext, st.dest, []));
    DitherRowFromPlaces(src, y, 0, RowState(st.errThis, st.errNext, st.dest, []));
    var row := DitherRowFrom(src, y, 0, RowState(st.errThis, st.errNext, st.dest, [])).value;
    forall c | 0 <= c < w
      ensures src.palette.find(src.image.rows[y][c]).Ok? && row.dest[c] == src.palette.find(src.image.rows[y][c]).value
    {
      var k := if y % 2 == 0 then c else w - 1 - c;
      assert ColumnOf(w, y, k) == c;
    }
  }

  /**
    Dithering against a palette that holds every colour of the image exactly
    changes nothing: every row the loop emits holds the plain lookups of its
    source row.
   */
  lemma ExactPaletteNeedsNoDithering(src: Source, st: DitherState, bottom: int)
    requires ValidSource(src) && ExactPalette(src) && Shaped(src, st) && bottom <= |src.image.rows|
    requires AllZero(st.errThis) && AllZero(st.errNext)
    ensures RunRows(src, st, bottom).Ok?
    ensures LookedUp(src, st.nextY, RunRows(src, st, bottom).value.rows)
  {
    RowFnSteps(src);
    forall s | Shaped(src, s) && AllZero(s.errThis) && AllZero(s.errNext) && s.nextY < |src.image.rows|
      ensures ExactRowStep(RowFn(src), src, s)
    {
      ExactRow(src, s);
    }
    LoopLooksUp(RowFn(src), src, st, bottom);
  }

  /** From an error-free state the row function succeeds, emits the plain lookups and leaves the errors at zero. */
  ghost predicate ExactRowStep(f: DitherState -> Result<RowOutcome>, src: Source, st: DitherState)
    requires WellFormed(src.image)
  {
    && f(st).Ok?
    && AllZero(f(st).value.state.errThis) && AllZero(f(st).value.state.errNext)
    && RowLookedUp(src, st.nextY, f(st).value.state.dest)
  }

  /** A row function that keeps error-free states error-free and emits plain lookups makes the whole loop emit plain lookups. */
  lemma {:induction false} LoopLooksUp(f: DitherState -> Result<RowOutcome>, src: Source, st: DitherState, bottom: int)
    requires Stepping(f, src) && WellFormed(src.image) && Shaped(src, st) && bottom <= |src.image.rows|
    requires forall s :: Shaped(src, s) && AllZero(s.errThis) && AllZero(s.errNext) && s.nextY < |src.image.rows| ==> ExactRowStep(f, src, s)
    requires AllZero(st.errThis) && AllZero(st.errNext)
    ensures RowLoop(f, src, st, bottom).Ok?
    ensures LookedUp(src, st.nextY, RowLoop(f, src, st, bottom).value.rows)
    decreases bottom - st.nextY
  {
    if st.nextY < bottom {
      assert ExactRowStep(f, src, st);
      var out := f(st).value;
      LoopLooksUp(f, src, out.state, bottom);
      var rest := RowLoop(f, src, out.state, bottom).value;
      assert RowLoop(f, src, st, bottom).value.rows == [Emitted(st.nextY, out.state.dest)] + rest.rows;
      LookedUpCons(src, st.nextY, out.state.dest, rest.rows);
    }
  }

  /** Two runs of rows that both hold the lookups of the same source rows are the same rows. */
  lemma LookedUpDetermines(src: Source, top: int, r1: seq<Emitted>, r2: seq<Emitted>)
    requires WellFormed(src.image) && |r1| == |r2|
    requires Consecutive(r1, top, src.image.width) && Consecutive(r2, top, src.image.width)
    requires LookedUp(src, top, r1) && LookedUp(src, top, r2)
    ensures r1 == r2
  {
    forall i | 0 <= i < |r1|
      ensures r1[i] == r2[i]
    {
      assert RowLookedUp(src, top + i, r1[i].row) && RowLookedUp(src, top + i, r2[i].row);
      assert r1[i].row == r2[i].row;
    }
  }

  /**
    With an exact palette, Floyd–Steinberg from a fresh state emits exactly the
    rows that dither level 0 emits for the same rows.
   */
  lemma ExactPaletteMatchesLevelZero(src: Source, bottom: int)
    requires ValidSource(src) && ExactPalette(src) && 0 <= bottom <= |src.image.rows|
    ensures RunRows(src, Fresh(src), bottom).Ok?
    ensures CopyRowsNoDithering(src, Fresh(src), 0, bottom).Ok?
    ensures RunRows(src, Fresh(src), bottom).value.rows == CopyRowsNoDithering(src, Fresh(src), 0, bottom).value.rows
  {
    ExactPaletteNeedsNoDithering(src, Fresh(src), bottom);
    NoDitheringFails(src, Fresh(src), 0, bottom);
    var plain := CopyRowsNoDithering(src, Fresh(src), 0, bottom);
    LookedUpDetermines(src, 0, RunRows(src, Fresh(src), bottom).value.rows, plain.value.rows);
  }

  // ---------------------------------------------------------------- palettes that answer every colour

  /** The palette answers every colour with an index inside its colour list. */
  ghost predicate AnswersAll(src: Source) {
    forall c: ColorBgra32 :: src.palette.find(c).Ok? && (src.palette.find(c).value as int) < |src.palette.colors|
  }

  /** Against a palette that answers every colour, no step of a row fails, whatever the error rows hold. */
  lemma {:induction false} AnsweredRowFrom(src: Source, y: nat, x: nat, st: RowState)
    requires ValidSource(src) && AnswersAll(src) && y < |src.image.rows|
    requires x <= src.image.width && RowShaped(src, st) && |st.found| == x
    ensures DitherRowFrom(src, y, x, st).Ok?
    decreases src.image.width - x
  {
    if x < src.image.width {
      DitherPixelLooksUpTarget(src, y, x, st.errThis, st.errNext);
      var step := DitherPixel(src, y, x, st.errThis, st.errNext).value;
      AnsweredRowFrom(src, y, x + 1, Advance(st, step, ColumnOf(src.image.width, y, x)));
    }
  }

  /** Against such a palette the row loop reaches `bottom` from any state of the image's shape. */
  lemma {:induction false} AnsweredRunRows(src: Source, st: DitherState, bottom: int)
    requires ValidSource(src) && AnswersAll(src) && Shaped(src, st) && bottom <= |src.image.rows|
    ensures RunRows(src, st, bottom).Ok?
    decreases bottom - st.nextY
  {
    RowFnSteps(src);
    if st.nextY < bottom {
      AnsweredRowFrom(src, st.nextY, 0, RowState(st.errThis, st.errNext, st.dest, []));
      var out := DitherRow(src, st).value;
      AnsweredRunRows(src, out.state, bottom);
    }
  }

  /**
    Against such a palette CopyPixels never fails, whatever state is kept:
    Impl never hands on a state whose cursor is below the request's top, and
    no lookup fails. A failed copy, after which the source keeps a partly
    advanced state, needs a palette that fails on some colour.
   */
  lemma AnsweredCopyPixels(src: Source, cache: Option<DitherState>, srcRect: Option<Geometry.RectInt32>, buffer: seq<seq<byte>>)
    requires Request(src, cache, srcRect, buffer) && AnswersAll(src)
    ensures CopyPixels(src, cache, srcRect, buffer).Ok?
  {
    var rect := RequestRect(src.image, srcRect);
    if src.ditherLevel == 0 {
      CopyPixelsWithoutDithering(src, cache, srcRect, buffer);
      assert !exists y, k :: rect.y <= y < rect.y + rect.height && 0 <= k < src.image.width && src.palette.find(src.image.rows[y][k]).Err?;
    } else {
      RowFnSteps(src);
      AnsweredCopyRect(src, Impl(src, cache, rect.y), rect, buffer);
      CopyPixelsByRect(RowFn(src), src, cache, srcRect, buffer);
    }
  }

  /** The dithering half of AnsweredCopyPixels, once Impl has picked a state at or above the rectangle's top. */
  lemma AnsweredCopyRect(src: Source, st: DitherState, rect: Geometry.RectInt32, buffer: seq<seq<byte>>)
    requires ValidSource(src) && AnswersAll(src) && src.ditherLevel != 0 && Shaped(src, st)
    requires Inside(src.image, rect) && st.nextY <= rect.y && |buffer| == rect.height && LinesFit(buffer, rect.width)
    ensures CopyRect(RowFn(src), src, st, rect, buffer).Ok?
  {
    RowFnSteps(src);
    AnsweredRunRows(src, st, rect.y + rect.height);
    assert CopyRowsBy(RowFn(src), src, st, rect.y, rect.y + rect.height).Ok?;
    CopyRectRows(RowFn(src), src, st, rect, buffer);
  }
}
