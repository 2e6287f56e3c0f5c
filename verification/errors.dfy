/** Failure values of the image tool.  Every `throw` of the C++ sources becomes
    one `Error` case, and every operation that can throw returns a `Result`. */
module Errors {

  /** The error kinds, one per throw site (the exception message names them). */
  datatype Error =
    // src/bmp.cpp, ReadBmp / WriteBmp
    | BadHeaders                 // fewer than 54 header bytes
    | NotBmp                     // signature is not "BM"
    | UnsupportedInfoHeader      // info header size is not 40
    | UnsupportedPlanes          // planes is not 1
    | UnsupportedBitDepth        // bit count is not 24
    | UnsupportedCompression     // compression is not BI_RGB
    | UnsupportedDimensions      // width <= 0 or height == 0
    | UnexpectedEof              // a pixel byte is missing
    | EmptyImage                 // writing an image with no rows or columns
    // include/image.h and src/image.cpp
    | OutOfRange                 // std::out_of_range from At / vector::at
    | NegativeSize               // Image(int, int) with a negative size
    // std::vector
    | LengthError                // a vector sized or reserved past its max_size
    // filter constructors
    | CropSizeNotPositive
    | EmptyKernel
    | RaggedKernel
    | EvenKernel
    | SigmaNotPositive
    | MedianWindowInvalid
    | NegativeRadius
    | ThresholdOutOfRange
    // CreateFilters
    | InvalidStartIndex
    | MissingArgument(op: string)
    | InvalidInteger(text: string)
    | InvalidDouble(text: string)
    | UnknownFilter(op: string)

  /** A value or the error that replaced it; usable with `:-`. */
  datatype Result<+T> = Ok(value: T) | Err(error: Error) {

    predicate IsFailure() {
      Err?
    }

    function PropagateFailure<U>(): Result<U>
      requires Err?
    {
      Err(error)
    }

    function Extract(): T
      requires Ok?
    {
      value
    }
  }

  /** The outcome of a parse that can fail without saying why. */
  datatype Option<+T> = None | Some(value: T)
}
