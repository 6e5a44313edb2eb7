/** Types the resolver shares with the rest of the semantic analysis: slot
    indices and kinds, the finalised frame layout, source positions and the
    two user-facing errors. */
module Types {
  import opened Symbols

  /** Index of a storage slot inside one frame. The source stores it as a
      32-bit integer; here it is unbounded. */
  type SlotIx = nat

  /** How the code generator must realise a slot. */
  datatype SlotKind =
    | Regular
      /** A local captured by a nested function: its storage must outlive the activation. */
    | Closed
      /** Forwards to slot `from` of the immediately enclosing frame. */
    | Capture(from: SlotIx)

  /** The finalised slot layout of one function. */
  datatype FrameInfo = FrameInfo(slots: seq<SlotKind>)

  /** An opaque position token, carried only for diagnostics. */
  type SourcePos = nat

  datatype Error =
    | DuplicateVariable(symbol: Symbol, pos: SourcePos)
    | UndeclaredVariable(symbol: Symbol, pos: SourcePos)

  datatype Result<+T> = Ok(value: T) | Err(error: Error)

  datatype Option<+T> = None | Some(value: T)
}
