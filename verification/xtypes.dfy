/** Fixed-width integers and the X protocol records the compositor reads
    from the server. Dafny integers are unbounded; every C cast to a
    narrower type is written out as an explicit wrap-around. */
module XTypes {

  type U8 = x: int | 0 <= x < 0x100
  type U16 = x: int | 0 <= x < 0x1_0000
  type I16 = x: int | -0x8000 <= x < 0x8000
  type U32 = x: int | 0 <= x < 0x1_0000_0000

  /** A window, pixmap, picture, region or damage identifier (XID) */
  type Xid = U32

  /** `XCB_NONE` */
  const NONE: Xid := 0

  /** A window dimension: the X protocol never reports a zero width or
      height for a window */
  type Dim = x: int | 1 <= x < 0x1_0000 witness 1

  /** The `(uint16_t)` cast: reduction modulo 2^16 */
  function ToU16(x: int): (r: U16)
    ensures (r - x) % 0x1_0000 == 0
    ensures 0 <= x < 0x1_0000 ==> r == x
  {
    x % 0x1_0000
  }

  /** The `(int16_t)` cast (two's complement wrap-around) */
  function ToI16(x: int): (r: I16)
    ensures (r - x) % 0x1_0000 == 0
    ensures -0x8000 <= x < 0x8000 ==> r == x
  {
    var m := x % 0x1_0000;
    if m >= 0x8000 then m - 0x1_0000 else m
  }

  /** `xcb_rectangle_t` */
  datatype Rectangle = Rectangle(x: I16, y: I16, width: U16, height: U16)

  /** The part of `xcb_get_geometry_reply_t` the compositor uses */
  datatype Geometry = Geometry(x: I16, y: I16, width: Dim, height: Dim, borderWidth: U16)
}
