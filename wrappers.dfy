/** Failure-compatible wrappers used throughout the model. */
module Wrappers {

  /** A value that may be absent: Java's null reference. */
  datatype Option<+T> = None | Some(value: T)

  /** The value of an operation that may throw instead. */
  datatype Result<+T, +E> = Success(value: T) | Failure(error: E)

  /** The outcome of a void operation that may throw. */
  datatype Outcome<+E> = Pass | Fail(error: E)
}

/** The exceptions the modelled Java code raises, one constructor per kind. */
module Exceptions {

  datatype Error =
    /** RuntimeException of the BranchNodeGraph constructor: the node count is negative. */
    | IllegalNodeCount
    /** NegativeArraySizeException: an array was allocated with this negative length. */
    | NegativeArraySize(size: int)
    /** ArrayIndexOutOfBoundsException: an array was written at this index. */
    | ArrayIndexOutOfBounds(index: int)
    /** IndexOutOfBoundsException: `index` is not in [0, bound), raised by BranchNodeGraph.validate
        and by `ArrayList.get` in the reconstruction loop of the application. */
    | IndexOutOfBounds(index: int, bound: int)
    /** RuntimeException of Misc.makeDiagonal: "Matrix is not a column vector". */
    | NotColumnVector
    /** RuntimeException of the linear solve: the reduced matrix is singular. */
    | SingularMatrix
    /** NullPointerException: a field that is still null was dereferenced. */
    | NullReference
    /** IllegalArgumentException of Jama's packed-array constructor: the array length does
        not fit the requested row count. */
    | IllegalArgument
    /** IllegalArgumentException of Jama's product: "Matrix inner dimensions must agree". */
    | DimensionMismatch
}
