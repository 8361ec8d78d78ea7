/** The ways one run of the module can end without an output image. Each
    is an exception the module does not catch, or a null it goes on to use. */
module Errors {

  datatype Error =
    /** `Integer.parseInt` rejected one piece of the class list. */
    | NumberFormat(piece: string)
      /** A class index outside 1..C_out was used to read the output tensor;
          `channel` is the 0-based tensor channel that was read, computed
          as `class - 1` in 32-bit arithmetic. */
    | IndexOutOfBounds(channel: int)
      /** The input was smaller than the model on both axes: tiling yielded
          no image and the next step dereferenced it. */
    | NullImage
      /** A slice does not cover the model's input window (fewer channels,
          or narrower or shorter than the model input). */
    | ShapeMismatch
      /** A decoded slice's plane size differs from the output stack's. */
    | WrongDimensions
}
