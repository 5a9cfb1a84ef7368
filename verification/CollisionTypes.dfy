/** Collision relations between items and the error codes of suppressed items. */
module CollisionTypes {

  datatype CollisionType =
    | NoCollision | Clearance | VertexContact | EdgeContact | FaceContact | WeakInterference
    | Interference | Coincidence | Enclosure | Error | Unknown

  /** The numeric value of the enumerator; relations are compared by it. */
  function Code(c: CollisionType): nat {
    match c
    case NoCollision => 0
    case Clearance => 1
    case VertexContact => 2
    case EdgeContact => 4
    case FaceContact => 8
    case WeakInterference => 16
    case Interference => 32
    case Coincidence => 64
    case Enclosure => 128
    case Error => 256
    case Unknown => 1024
  }

  predicate AtLeast(c: CollisionType, bound: CollisionType) {
    Code(c) >= Code(bound)
  }

  datatype ShapeErrorType =
    | NoError | VolumeTooSmall | ItemInvisible | FloatingShape | BOPCheckFailed
    | InterferenceError | CoincidenceError | EnclosureError | UnknownError | TessellationError

  function ShapeCode(e: ShapeErrorType): nat {
    match e
    case NoError => 0
    case VolumeTooSmall => 1
    case ItemInvisible => 2
    case FloatingShape => 3
    case BOPCheckFailed => 4
    case InterferenceError => 32
    case CoincidenceError => 64
    case EnclosureError => 128
    case UnknownError => 256
    case TessellationError => 512
  }

  /** The error code with the same number, for relations from Interference up to Error. */
  function ToShapeError(c: CollisionType): (e: ShapeErrorType)
    ensures Code(Interference) <= Code(c) <= Code(Error) <==> e != NoError
    ensures e != NoError ==> ShapeCode(e) == Code(c)
  {
    match c
    case Interference => InterferenceError
    case Coincidence => CoincidenceError
    case Enclosure => EnclosureError
    case Error => UnknownError
    case _ => NoError
  }

  /** One recorded relation of item `first` to item `second`. */
  datatype CollisionInfo = CollisionInfo(first: nat, second: nat, value: real, ctype: CollisionType)

  type InfoRow = seq<CollisionInfo>

  datatype Option<T> = None | Some(value: T)
}
