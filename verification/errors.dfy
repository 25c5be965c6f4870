/** The exceptions that abort processing of a page. */
module Errors {

  datatype Error =
    /** `POIXMLException("Invalid 1d path")`: a 1-D path that does not start with a move. */
    | InvalidPath
    /** `IllegalPathStateException`: a line-to on an empty `Path2D`. */
    | PathState
    /** TinkerGraph refuses a second vertex with the same id. */
    | DuplicateVertex(id: int)
    /** TinkerGraph refuses to remove a vertex it does not hold. */
    | MissingVertex(id: int)
    /** `POIXMLException("Cannot find from node ...")` while collecting connections. */
    | CannotFindFrom(id: int)
    /** `POIXMLException("Cannot find to node ...")` while collecting connections. */
    | CannotFindTo(id: int)
    /** The bare `POIXMLException` for a segment other than a move or a line-to in a 1-D path. */
    | UnexpectedSegment
    /** `POIXMLException("Internal error ...")`: an edge whose two ends are both the shape at hand, or neither. */
    | InternalError
    /** A `NullPointerException`: a missing shape, text centre, line colour or fragment. */
    | NullPointer
}
