/**
 * The pixel representation shared by the intensity adjuster and the
 * histogram: an RGB image is a height x width x 3 array of 8-bit values,
 * plane 0 red, plane 1 green, plane 2 blue.
 */
module Image {

  /** One 8-bit unsigned colour component (a numpy `uint8`). */
  type Byte = b: int | 0 <= b < 256

  /** The number of colour planes of an RGB image. */
  const Channels: nat := 3

  /** The dictionary key that names plane `c`. */
  function ChannelKey(c: nat): (key: string)
    requires c < Channels
  {
    if c == 0 then "R" else if c == 1 then "G" else "B"
  }
}
