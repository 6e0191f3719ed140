/**
 * graphing.py: the layout arithmetic of `graph`: which side an axis sits on, how far extra
 * axes are pushed out, which palette colour a series gets, which y-limits it is given and
 * which axes object it is drawn on. The matplotlib calls themselves are not modelled.
 */
module Graphing {
  import opened Wrappers

  datatype Side = Left | Right

  /** orient(i, flip): "right" when i + flip is odd, else "left". */
  function Orient(i: nat, flip: nat): Side
  {
    if (i + flip) % 2 == 1 then Right else Left
  }

  /** Flipping selects the other side, so toggling one on and the other off never clash. */
  lemma OrientFlip(i: nat)
    ensures Orient(i, 1) != Orient(i, 0)
    ensures Orient(i, 0) == Right <==> i % 2 == 1
  {
  }

  /** offset.multiplier */
  const OffsetStep := 60

  /** offset(i): (60 * (i // 2)) * ((i % 2) + ((i + 1) % 2) * -1). */
  function Offset(i: nat): int
  {
    (OffsetStep * (i / 2)) * ((i % 2) + ((i + 1) % 2) * -1)
  }

  /** Even axes move out to the left by 60 per pair, odd axes to the right. */
  lemma OffsetValues(k: nat)
    ensures Offset(2 * k) == -60 * k
    ensures Offset(2 * k + 1) == 60 * k
    ensures Offset(2 * k + 1) == -Offset(2 * k)
  {
    assert (2 * k) / 2 == k && (2 * k) % 2 == 0 && (2 * k + 1) % 2 == 1;
    assert (2 * k + 1) / 2 == k && (2 * k + 1) % 2 == 1 && (2 * k + 2) % 2 == 0;
  }

  /**
   * From the third axis on, every axis gets its own offset and is pushed away from the plot
   * on the side it is placed: left axes by a negative offset, right axes by a positive one.
   */
  lemma OffsetsSeparate(i: nat, j: nat)
    requires 2 <= i && 2 <= j
    ensures i != j ==> Offset(i) != Offset(j)
    ensures Orient(i, 0) == Left <==> Offset(i) < 0
  {
    OffsetValues(i / 2);
    OffsetValues(j / 2);
    assert i == 2 * (i / 2) + i % 2;
    assert j == 2 * (j / 2) + j % 2;
  }

  /**
   * The extra axis series i gets when drawn on twinned x axes without twinned y axes: the
   * side it is shown on, its offset, and the side switched off.
   */
  function ExtraAxis(i: nat, twinX: bool, twinY: bool): (r: Option<(Side, int, Side)>)
    ensures r.Some? <==> i > 1 && twinX && !twinY
    ensures r.Some? ==> r.value.0 != r.value.2 && (r.value.0 == Left <==> r.value.1 < 0)
    ensures r.Some? ==> (r.value.0 == Right <==> i % 2 == 1) &&
                        r.value.1 == (if i % 2 == 1 then 60 else -60) * (i / 2)
  {
    if i > 1 && twinX && !twinY then
      OrientFlip(i);
      OffsetsSeparate(i, i);
      OffsetValues(i / 2);
      assert i == 2 * (i / 2) + i % 2;
      Some((Orient(i, 0), Offset(i), Orient(i, 1)))
    else None
  }

  /** graph.colors: the Tableau20 palette. */
  const Palette: seq<string> := [
    "#1f77b4", "#aec7e8", "#ff7f0e", "#ffbb78", "#2ca02c", "#98df8a", "#d62728",
    "#ff9896", "#9467bd", "#c5b0d5", "#8c564b", "#c49c94", "#e377c2", "#f7b6d2",
    "#7f7f7f", "#c7c7c7", "#bcbd22", "#dbdb8d", "#17becf", "#9edae5"]

  /** colors[i % len(colors)]; an empty list divides by zero. */
  function ColorFor(colors: seq<string>, i: nat): (r: Option<string>)
    ensures r.None? <==> |colors| == 0
    ensures r.Some? ==> r.value in colors
  {
    if |colors| == 0 then None else Some(colors[i % |colors|])
  }

  /** With the default palette, colours repeat every 20 series. */
  lemma ColorPeriodic(i: nat)
    ensures ColorFor(Palette, i + 20) == ColorFor(Palette, i)
  {
    assert |Palette| == 20;
    assert (i + 20) % 20 == i % 20;
  }

  /** The first three hex digits of a colour written `#rrggbb`. */
  function Key(colour: string): (char, char, char)
    requires |colour| >= 4
  {
    (colour[1], colour[2], colour[3])
  }

  /** The palette position whose colour starts with the given three hex digits; -1 when none does. */
  function PalettePosition(key: (char, char, char)): int
  {
    if key == ('1', 'f', '7') then 0
    else if key == ('a', 'e', 'c') then 1
    else if key == ('f', 'f', '7') then 2
    else if key == ('f', 'f', 'b') then 3
    else if key == ('2', 'c', 'a') then 4
    else if key == ('9', '8', 'd') then 5
    else if key == ('d', '6', '2') then 6
    else if key == ('f', 'f', '9') then 7
    else if key == ('9', '4', '6') then 8
    else if key == ('c', '5', 'b') then 9
    else if key == ('8', 'c', '5') then 10
    else if key == ('c', '4', '9') then 11
    else if key == ('e', '3', '7') then 12
    else if key == ('f', '7', 'b') then 13
    else if key == ('7', 'f', '7') then 14
    else if key == ('c', '7', 'c') then 15
    else if key == ('b', 'c', 'b') then 16
    else if key == ('d', 'b', 'd') then 17
    else if key == ('1', '7', 'b') then 18
    else if key == ('9', 'e', 'd') then 19
    else -1
  }

  /** The palette's entries are pairwise different (already in their first three hex digits). */
  lemma PaletteDistinct()
    ensures |Palette| == 20
    ensures forall a, b :: 0 <= a < b < |Palette| ==> Palette[a] != Palette[b]
  {
    forall a | 0 <= a < |Palette|
      ensures |Palette[a]| >= 4 && PalettePosition(Key(Palette[a])) == a
    {
    }
  }

  /** With the default palette any 20 consecutive series get 20 different colours. */
  lemma PaletteWindowDistinct(i: nat, j: nat)
    requires i < j < i + 20
    ensures ColorFor(Palette, i).Some? && ColorFor(Palette, j).Some?
    ensures ColorFor(Palette, i) != ColorFor(Palette, j)
  {
    PaletteDistinct();
    assert i % 20 != j % 20 by {
      assert j - i < 20;
    }
  }

  /** The ylim argument: absent, one (low, high) tuple, or a list of optional tuples. */
  datatype YLim = NoYLim | Bounds(low: int, high: int) | PerSeries(limits: seq<Option<(int, int)>>)

  /**
   * The y-limits set on series i's axis when it is drawn as a line: a tuple applies to every
   * series, a list's entry i applies when it is not None; an empty list is falsy; a list
   * shorter than the series count raises IndexError.
   */
  function LineYLim(ylim: YLim, i: nat): (r: Result<Option<(int, int)>>)
    ensures ylim.Bounds? ==> r == Success(Some((ylim.low, ylim.high)))
    ensures ylim.NoYLim? ==> r == Success(None)
    ensures ylim.PerSeries? && i < |ylim.limits| ==> r == Success(ylim.limits[i])
    ensures ylim.PerSeries? && |ylim.limits| == 0 ==> r == Success(None)
    ensures r.Failure? <==> ylim.PerSeries? && 0 < |ylim.limits| <= i
  {
    match ylim
    case NoYLim => Success(None)
    case Bounds(low, high) => Success(Some((low, high)))
    case PerSeries(limits) =>
      if |limits| == 0 then Success(None)
      else if i < |limits| then Success(limits[i])
      else Failure("IndexError")
  }

  /**
   * The y-limits of series i: a 'vlines' series is pinned to (0, 1) and ignores ylim; an
   * empty plot_func list is falsy; one shorter than the series count raises IndexError.
   */
  function SeriesYLim(plotFuncs: seq<string>, ylim: YLim, i: nat): (r: Result<Option<(int, int)>>)
    ensures i < |plotFuncs| && plotFuncs[i] == "vlines" ==> r == Success(Some((0, 1)))
    ensures (|plotFuncs| == 0 || (i < |plotFuncs| && plotFuncs[i] != "vlines")) ==> r == LineYLim(ylim, i)
    ensures 0 < |plotFuncs| <= i ==> r.Failure?
  {
    if |plotFuncs| == 0 then LineYLim(ylim, i)
    else if i >= |plotFuncs| then Failure("IndexError")
    else if plotFuncs[i] == "vlines" then Success(Some((0, 1)))
    else LineYLim(ylim, i)
  }

  /** The axes a series is drawn on: the host, a twinned x axis, or a twinned x-then-y axis. */
  datatype Axes = Host | TwinX | TwinXY

  /**
   * The axes choice as written: `if twin_x` comes before `elif twin_x and twin_y`, so the
   * second branch is never taken.
   */
  function AxesForAsWritten(i: nat, twinX: bool, twinY: bool): Axes
  {
    if twinX then (if i == 0 then Host else TwinX)
    else if twinX && twinY then (if i == 0 then Host else TwinXY)
    else Host
  }

  /** No input reaches the twinned-both branch. */
  lemma TwinXYUnreachable(i: nat, twinX: bool, twinY: bool)
    ensures AxesForAsWritten(i, twinX, twinY) != TwinXY
    ensures AxesForAsWritten(1, true, true) == TwinX
  {
  }

  /** The axes choice with the more specific test first. */
  function AxesFor(i: nat, twinX: bool, twinY: bool): (r: Axes)
    ensures r == TwinXY <==> i > 0 && twinX && twinY
    ensures r == TwinX <==> i > 0 && twinX && !twinY
    ensures i == 0 || !twinX ==> r == Host
  {
    if twinX && twinY then (if i == 0 then Host else TwinXY)
    else if twinX then (if i == 0 then Host else TwinX)
    else Host
  }

  /** Both choices agree whenever y axes are not twinned. */
  lemma AxesForAgrees(i: nat, twinX: bool, twinY: bool)
    requires !(twinX && twinY)
    ensures AxesFor(i, twinX, twinY) == AxesForAsWritten(i, twinX, twinY)
  {
  }
}
