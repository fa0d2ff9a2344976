/**
 * Color frames as they travel from the WebSocket decoder to the renderer.
 * The source's `RgbFrameOptions` and `RgbFrame` only assign their fields in
 * their constructors and are never mutated afterwards, so they are values.
 * No field is validated: any pin string and any timestamp (including 0)
 * are accepted, and `rgbData` has no length constraint.
 */
module RgbFrames {

  /** One color sample, an `(r, g, b)` tuple of Python ints. */
  datatype Rgb = Rgb(r: int, g: int, b: int)

  /** The render options of a frame; `clearBuffer` is the only flag. */
  datatype RgbFrameOptions = RgbFrameOptions(clearBuffer: bool)

  /**
   * A frame for the output identified by `pin`, to be shown at `timestamp`
   * milliseconds since the epoch (0 meaning "render now").
   */
  datatype RgbFrame = RgbFrame(pin: string, timestamp: int, options: RgbFrameOptions, rgbData: seq<Rgb>)
}
