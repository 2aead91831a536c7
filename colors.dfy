/** Colors of the canvas: egui's `Color32`, four bytes of (premultiplied) RGBA. */
module Colors {

  newtype Byte = x: int | 0 <= x < 256

  datatype Color32 = Color32(r: Byte, g: Byte, b: Byte, a: Byte)

  /** `Color32::WHITE`, the background of every cell. */
  const White: Color32 := Color32(255, 255, 255, 255)

  /** `Color32::BLACK`, the initial left-click (drawing) color. */
  const Black: Color32 := Color32(0, 0, 0, 255)

  /** `Color32::TRANSPARENT`, which is also `Color32::default()`. */
  const Transparent: Color32 := Color32(0, 0, 0, 0)
}
