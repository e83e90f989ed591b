/**
  `positionPopover`: choose the side (above or below the trigger) and the
  horizontal alignment of a popover, and record both as attributes on it.

  Geometry is in CSS pixels as exact reals; the function only subtracts and
  compares, so no rounding is involved.
 */
module Position {
  import opened Js

  datatype Side = Top | Bottom
  datatype Align = Start | End

  datatype PositionResult = PositionResult(side: Side, align: Align)

  /** `getBoundingClientRect()` of the trigger. */
  datatype Rect = Rect(top: real, right: real, bottom: real, left: real)

  /** The popover element: its layout size and its attributes. */
  datatype Popover = Popover(offsetWidth: real, offsetHeight: real, attributes: map<JsString, JsString>)

  /** The browser window, when there is one. */
  datatype Window = Window(innerWidth: real, innerHeight: real)

  datatype PositionConfig = PositionConfig(offset: Option<real>, padding: Option<real>)

  const DefaultOffset: real := 4.0
  const DefaultPadding: real := 8.0
  const NoConfig: PositionConfig := PositionConfig(None, None)

  const DataSide: JsString := Str("data-side")
  const DataAlign: JsString := Str("data-align")

  function SideName(s: Side): JsString {
    match s
    case Top => Str("top")
    case Bottom => Str("bottom")
  }

  function AlignName(a: Align): JsString {
    match a
    case Start => Str("start")
    case End => Str("end")
  }

  /** The result and the popover with `data-side` and `data-align` written. */
  datatype Placement = Placement(result: PositionResult, popover: Popover)

  function PositionPopover(window: Option<Window>, trigger: Rect, popover: Popover, config: PositionConfig): (r: Placement)
    ensures r.popover.offsetWidth == popover.offsetWidth && r.popover.offsetHeight == popover.offsetHeight
    ensures window.None? ==> r.popover == popover
    ensures window.Some? ==>
      r.popover.attributes == popover.attributes[DataSide := SideName(r.result.side)][DataAlign := AlignName(r.result.align)]
  {
    if window.None? then Placement(PositionResult(Bottom, End), popover)
    else
      var offset := Coalesce(config.offset, Some(DefaultOffset)).value;
      var padding := Coalesce(config.padding, Some(DefaultPadding)).value;
      var viewportHeight := window.value.innerHeight;
      var spaceBelow := viewportHeight - trigger.bottom - offset;
      var spaceAbove := trigger.top - offset;
      var side := if popover.offsetHeight + padding > spaceBelow && spaceAbove > spaceBelow then Top else Bottom;
      var align := if trigger.right - popover.offsetWidth < padding then Start else End;
      var attributes := popover.attributes[DataSide := SideName(side)][DataAlign := AlignName(align)];
      Placement(PositionResult(side, align), popover.(attributes := attributes))
  }

  function Place(window: Option<Window>, trigger: Rect, popover: Popover, config: PositionConfig): PositionResult {
    PositionPopover(window, trigger, popover, config).result
  }

  // ---------------------------------------------------------------------------
  // The decision rules
  // ---------------------------------------------------------------------------

  /**
    Above the trigger exactly when the popover and its padding do not fit in the
    space below and there is strictly more space above.
   */
  lemma SideRule(w: Window, trigger: Rect, popover: Popover, config: PositionConfig)
    ensures var offset := if config.offset.Some? then config.offset.value else 4.0;
      var padding := if config.padding.Some? then config.padding.value else 8.0;
      var below := w.innerHeight - trigger.bottom - offset;
      var above := trigger.top - offset;
      (Place(Some(w), trigger, popover, config).side == Top
       <==> popover.offsetHeight + padding > below && above > below)
  {
  }

  /** The popover never goes above when there is no more room above than below. */
  lemma NeverTopWithoutRoom(w: Window, trigger: Rect, popover: Popover, config: PositionConfig)
    requires trigger.top <= w.innerHeight - trigger.bottom
    ensures Place(Some(w), trigger, popover, config).side == Bottom
  {
  }

  /** Aligned to the start exactly when ending at the trigger's right edge would leave less than the padding. */
  lemma AlignRule(w: Window, trigger: Rect, popover: Popover, config: PositionConfig)
    ensures var padding := if config.padding.Some? then config.padding.value else 8.0;
      (Place(Some(w), trigger, popover, config).align == Start
       <==> trigger.right - popover.offsetWidth < padding)
  {
  }

  /**
    The side ignores every horizontal input and the alignment every vertical
    one; the viewport width and the trigger's left edge are never read.
   */
  lemma Independence(w1: Window, t1: Rect, p1: Popover, w2: Window, t2: Rect, p2: Popover, config: PositionConfig)
    ensures w1.innerHeight == w2.innerHeight && t1.top == t2.top && t1.bottom == t2.bottom
            && p1.offsetHeight == p2.offsetHeight
        ==> Place(Some(w1), t1, p1, config).side == Place(Some(w2), t2, p2, config).side
    ensures t1.right == t2.right && p1.offsetWidth == p2.offsetWidth
        ==> Place(Some(w1), t1, p1, config).align == Place(Some(w2), t2, p2, config).align
  {
  }

  /** A taller popover goes above no less readily: the choice of the top side is monotone in height. */
  lemma TallerStaysOnTop(w: Window, trigger: Rect, popover: Popover, config: PositionConfig, h: real)
    requires popover.offsetHeight <= h
    requires Place(Some(w), trigger, popover, config).side == Top
    ensures Place(Some(w), trigger, popover.(offsetHeight := h), config).side == Top
  {
  }

  /** The attributes written are the names of the pair returned. */
  lemma AttributesMatchResult(w: Window, trigger: Rect, popover: Popover, config: PositionConfig)
    ensures var r := PositionPopover(Some(w), trigger, popover, config);
      && r.popover.attributes[DataSide] == SideName(r.result.side)
      && r.popover.attributes[DataAlign] == AlignName(r.result.align)
  {
    assert DataSide != DataAlign by { assert DataSide[5] != DataAlign[5]; }
  }

  /** Without a window the placement is below and end-aligned and nothing is written. */
  lemma NoWindowDefault(trigger: Rect, popover: Popover, config: PositionConfig)
    ensures PositionPopover(None, trigger, popover, config) == Placement(PositionResult(Bottom, End), popover)
  {
  }

  // ---------------------------------------------------------------------------
  // Worked scenarios in a 1024 by 768 viewport, popover 200 by 150 unless stated
  // ---------------------------------------------------------------------------

  const Viewport: Window := Window(1024.0, 768.0)

  function Box(width: real, height: real): Popover {
    Popover(width, height, map[])
  }

  /** The default placement and each of its flips, one trigger per corner or edge. */
  lemma Scenarios()
    ensures Place(Some(Viewport), Rect(100.0, 500.0, 140.0, 400.0), Box(200.0, 150.0), NoConfig) == PositionResult(Bottom, End)
    ensures Place(Some(Viewport), Rect(650.0, 500.0, 690.0, 400.0), Box(200.0, 150.0), NoConfig).side == Top
    ensures Place(Some(Viewport), Rect(100.0, 80.0, 140.0, 0.0), Box(200.0, 150.0), NoConfig).align == Start
    ensures Place(Some(Viewport), Rect(700.0, 80.0, 740.0, 0.0), Box(200.0, 150.0), NoConfig) == PositionResult(Top, Start)
    ensures Place(Some(Viewport), Rect(10.0, 1000.0, 50.0, 900.0), Box(200.0, 150.0), NoConfig) == PositionResult(Bottom, End)
  {
  }

  /** A zero-size trigger and popover go below, start-aligned, since no width clears the padding. */
  lemma ZeroSize()
    ensures Place(Some(Viewport), Rect(0.0, 0.0, 0.0, 0.0), Box(0.0, 0.0), NoConfig) == PositionResult(Bottom, Start)
  {
  }

  /** A larger offset shrinks the space below enough to flip a 100-high popover above. */
  lemma CustomOffset()
    ensures Place(Some(Viewport), Rect(600.0, 500.0, 640.0, 400.0), Box(200.0, 100.0), NoConfig).side == Bottom
    ensures Place(Some(Viewport), Rect(600.0, 500.0, 640.0, 400.0), Box(200.0, 100.0), PositionConfig(Some(50.0), None)).side == Top
  {
  }

  /** With no padding, a trigger whose right edge clears the popover width keeps end alignment. */
  lemma CustomPadding()
    ensures Place(Some(Viewport), Rect(100.0, 190.0, 140.0, 90.0), Box(200.0, 150.0), NoConfig).align == Start
    ensures Place(Some(Viewport), Rect(100.0, 201.0, 140.0, 101.0), Box(200.0, 150.0), PositionConfig(None, Some(0.0))).align == End
  {
  }
}
