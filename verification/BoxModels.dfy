/**
 * The used box model of one box: CSS 2.1 sections 10.3.3 (widths and auto
 * margins), 10.4 and 10.7 (minimum and maximum), 10.5 (heights). Everything here
 * depends on the box's own style and its containing block only.
 */
module BoxModels {
  import opened AppUnits
  import opened Geometry
  import opened Styles
  import opened Wrappers

  /** How a percentage of a length comes out; rounding is not interpreted. */
  type PercentOf = (Au, real) -> Au

  datatype BoxModel = BoxModel(
    marginLeft: Au,
    marginTop: Au,
    marginBottom: Au,
    padding: Sides<Au>,
    border: Sides<Au>,
    contentWidth: Au,
    minHeight: Au,
    maxHeight: Option<Au>,
    knownHeight: Option<Au>)

  datatype Widths = Widths(content: Au, left: Au, right: Au)

  function ResolveOrZero(pct: PercentOf, l: Length, against: Au): Au {
    match l
    case Auto => 0
    case Px(au) => au
    case Percent(p) => pct(against, p)
  }

  function ResolveAgainstHeight(pct: PercentOf, l: Length, against: Option<Au>): Au {
    match l
    case Auto => 0
    case Px(au) => au
    case Percent(p) => if against.Some? then pct(against.value, p) else 0
  }

  /** The minimum wins over the maximum: a maximum below it is raised to it first. */
  function ClampAu(v: Au, min: Au, max: Option<Au>): Au {
    var effectiveMax := if max.Some? then Some(Max(max.value, min) as Au) else None;
    var floored: Au := Max(v, min);
    if effectiveMax.Some? then Min(floored, effectiveMax.value) else floored
  }

  function UsedContentSize(specified: Au, sizing: BoxSizing, nonContent: Au): Au {
    match sizing
    case ContentBox => specified
    case BorderBox => Max(SatSub(specified, nonContent), 0)
  }

  function VerticalNonContent(padding: Sides<Au>, border: Sides<Au>): Au {
    SatAdd(SatAdd(SatAdd(padding.top, padding.bottom), border.top), border.bottom)
  }

  function HorizontalNonContent(padding: Sides<Au>, border: Sides<Au>): Au {
    SatAdd(SatAdd(SatAdd(padding.left, padding.right), border.left), border.right)
  }

  function TentativeWidth(pct: PercentOf, style: LayoutStyle, cbWidth: Au, nonContent: Au): Au {
    if style.width.Auto? then
      var left := ResolveOrZero(pct, style.margin.left, cbWidth);
      var right := ResolveOrZero(pct, style.margin.right, cbWidth);
      Max(SatSub(SatSub(SatSub(cbWidth, left), nonContent), right), 0)
    else
      UsedContentSize(ResolveOrZero(pct, style.width, cbWidth), style.boxSizing, nonContent)
  }

  function UsedMinWidth(pct: PercentOf, style: LayoutStyle, cbWidth: Au, nonContent: Au): Au {
    UsedContentSize(ResolveOrZero(pct, style.minWidth, cbWidth), style.boxSizing, nonContent)
  }

  function UsedMaxWidth(pct: PercentOf, style: LayoutStyle, cbWidth: Au, nonContent: Au): Option<Au> {
    match style.maxWidth
    case None => None
    case Some(l) => Some(UsedContentSize(ResolveOrZero(pct, l, cbWidth), style.boxSizing, nonContent))
  }

  function ResolveWidths(pct: PercentOf, style: LayoutStyle, cbWidth: Au,
                         padding: Sides<Au>, border: Sides<Au>): Widths {
    var nonContent := HorizontalNonContent(padding, border);
    var left0 := ResolveOrZero(pct, style.margin.left, cbWidth);
    var right0 := ResolveOrZero(pct, style.margin.right, cbWidth);
    var tentative := TentativeWidth(pct, style, cbWidth, nonContent);
    var content := ClampAu(tentative, UsedMinWidth(pct, style, cbWidth, nonContent),
                           UsedMaxWidth(pct, style, cbWidth, nonContent));
    if style.width.Auto? && content == tentative then
      Widths(content, left0, right0)
    else
      var nonMargin := SatAdd(nonContent, content);
      if style.margin.left.Auto? && style.margin.right.Auto? then
        var remaining := SatSub(cbWidth, nonMargin);
        if remaining >= 0 then Widths(content, remaining / 2, remaining - remaining / 2)
        else Widths(content, 0, 0)
      else if style.margin.left.Auto? then
        Widths(content, SatSub(SatSub(cbWidth, nonMargin), right0), right0)
      else if style.margin.right.Auto? then
        Widths(content, left0, SatSub(SatSub(cbWidth, nonMargin), left0))
      else
        Widths(content, left0, right0)
  }

  /** A definite content height, or `None` where the height behaves as auto. */
  function ResolveHeight(pct: PercentOf, style: LayoutStyle, cbHeight: Option<Au>,
                         padding: Sides<Au>, border: Sides<Au>): Option<Au> {
    var specified :=
      match style.height
      case Auto => None
      case Px(au) => Some(au)
      case Percent(p) => if cbHeight.Some? then Some(pct(cbHeight.value, p)) else None;
    match specified
    case None => None
    case Some(h) => Some(UsedContentSize(h, style.boxSizing, VerticalNonContent(padding, border)))
  }

  function ResolvePadding(pct: PercentOf, style: LayoutStyle, cbWidth: Au): Sides<Au> {
    Sides(ResolveOrZero(pct, style.padding.top, cbWidth), ResolveOrZero(pct, style.padding.right, cbWidth),
          ResolveOrZero(pct, style.padding.bottom, cbWidth), ResolveOrZero(pct, style.padding.left, cbWidth))
  }

  function ResolveBoxModel(pct: PercentOf, style: LayoutStyle, cbWidth: Au, cbHeight: Option<Au>): BoxModel {
    var padding := ResolvePadding(pct, style, cbWidth);
    var border := style.borderWidth;
    var widths := ResolveWidths(pct, style, cbWidth, padding, border);
    var vertical := VerticalNonContent(padding, border);
    var cbHeightOrZero := if cbHeight.Some? then cbHeight.value else 0;
    var minHeight := UsedContentSize(ResolveOrZero(pct, style.minHeight, cbHeightOrZero), style.boxSizing, vertical);
    var maxHeight :=
      match style.maxHeight
      case None => None
      case Some(l) => Some(UsedContentSize(ResolveOrZero(pct, l, cbHeightOrZero), style.boxSizing, vertical));
    var knownHeight :=
      match ResolveHeight(pct, style, cbHeight, padding, border)
      case None => None
      case Some(h) => Some(ClampAu(h, minHeight, maxHeight));
    BoxModel(widths.left,
             ResolveOrZero(pct, style.margin.top, cbWidth),
             ResolveOrZero(pct, style.margin.bottom, cbWidth),
             padding, border, widths.content, minHeight, maxHeight, knownHeight)
  }

  function ContentOrigin(origin: Point, m: BoxModel): Point {
    Point(SatAdd(SatAdd(origin.x, m.padding.left), m.border.left),
          SatAdd(SatAdd(origin.y, m.padding.top), m.border.top))
  }

  function BorderBoxSize(contentWidth: Au, contentHeight: Au, padding: Sides<Au>, border: Sides<Au>): Size {
    Size(SatAdd(SatAdd(SatAdd(SatAdd(contentWidth, padding.left), padding.right), border.left), border.right),
         SatAdd(SatAdd(SatAdd(SatAdd(contentHeight, padding.top), padding.bottom), border.top), border.bottom))
  }

  function Inset(r: Rect, s: Sides<Au>): Rect {
    Rect(Point(SatAdd(r.origin.x, s.left), SatAdd(r.origin.y, s.top)),
         Size(Max(SatSub(SatSub(r.size.w, s.left), s.right), 0),
              Max(SatSub(SatSub(r.size.h, s.top), s.bottom), 0)))
  }

  /** The `position: relative` offset: left and top win over right and bottom. */
  function ResolveOffset(pct: PercentOf, style: LayoutStyle, cbWidth: Au, cbHeight: Option<Au>): Point {
    var dx: Au :=
      if !style.offset.left.Auto? then ResolveOrZero(pct, style.offset.left, cbWidth)
      else if !style.offset.right.Auto? then SatSub(0, ResolveOrZero(pct, style.offset.right, cbWidth))
      else 0;
    var dy: Au :=
      if !style.offset.top.Auto? then ResolveAgainstHeight(pct, style.offset.top, cbHeight)
      else if !style.offset.bottom.Auto? then SatSub(0, ResolveAgainstHeight(pct, style.offset.bottom, cbHeight))
      else 0;
    Point(dx, dy)
  }
}
