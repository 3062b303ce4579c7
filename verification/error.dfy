/** The error values of `src/error.rs` that the data path can return. */
module Errors {
  datatype Error =
    | InvalidFragment
    | InvalidUTF8
    | InvalidContinuationFrame
    | ConnectionClosed
    | InvalidCloseFrame
    | InvalidCloseCode
    | UnexpectedEOF
    | ReservedBitsNotZero
    | ControlFrameFragmented
    | PingFrameTooLarge
    | FrameTooLarge
    | InvalidValue
    | IoError
    | SendError
}
