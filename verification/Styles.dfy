/**
 * The computed-style fields that box generation, block layout and painting read.
 * `inherited` stands for the inherited text properties those three copy around
 * but never inspect (colour, font, line height, alignment).
 */
module Styles {
  import opened AppUnits
  import opened Geometry
  import opened Wrappers

  datatype Length = Auto | Px(au: Au) | Percent(points: real)

  datatype Display = Block | Inline | Hide

  datatype Position = Static | Relative

  datatype BoxSizing = ContentBox | BorderBox

  datatype Overflow = Visible | Hidden

  datatype WhiteSpace = Normal | Pre

  type Byte = x: int | 0 <= x < 256

  datatype Rgba = Rgba(r: Byte, g: Byte, b: Byte, a: Byte)

  datatype LayoutStyle = LayoutStyle(
    display: Display,
    position: Position,
    width: Length,
    height: Length,
    minWidth: Length,
    maxWidth: Option<Length>,
    minHeight: Length,
    maxHeight: Option<Length>,
    margin: Sides<Length>,
    padding: Sides<Length>,
    borderWidth: Sides<Au>,
    borderColor: Sides<Rgba>,
    borderSolid: Sides<bool>,
    boxSizing: BoxSizing,
    overflow: Overflow,
    offset: Sides<Length>,
    background: Rgba,
    whiteSpace: WhiteSpace,
    inherited: int)

  const BLACK := Rgba(0, 0, 0, 255)
  const TRANSPARENT := Rgba(0, 0, 0, 0)

  /** Every property at its CSS initial value. */
  const INITIAL := LayoutStyle(
    Display.Inline, Static, Auto, Auto, Auto, None, Auto, None,
    Sides(Px(0), Px(0), Px(0), Px(0)), Sides(Px(0), Px(0), Px(0), Px(0)),
    Sides(0, 0, 0, 0), Sides(BLACK, BLACK, BLACK, BLACK), Sides(false, false, false, false),
    ContentBox, Visible, Sides(Auto, Auto, Auto, Auto), TRANSPARENT, Normal, 0)

  /** The style of an anonymous block: inherited properties from `parent`, the rest initial. */
  function AnonymousBlockStyle(parent: LayoutStyle): LayoutStyle {
    INITIAL.(display := Display.Block, whiteSpace := parent.whiteSpace, inherited := parent.inherited)
  }

  /** What a text node takes from its container: the inherited properties only. */
  function InheritedTextStyle(parent: LayoutStyle): LayoutStyle {
    INITIAL.(display := Display.Inline, whiteSpace := parent.whiteSpace, inherited := parent.inherited)
  }
}
