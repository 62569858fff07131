/** Failure-carrying results and the exceptions the modelled add-on code raises. */
module Wrappers {

  datatype Option<+T> = None | Some(value: T)

  /** One constructor per cause of failure; the comment names the Python exception. */
  datatype Error =
    | OverOccupancy                 // ValueError: occupancies sum above 1 + 1e-6
    | NoMainElement                 // IndexError: no element besides the vacancy filler
    | WrongShape                    // Exception / numpy ValueError: not one frame nor a stack of frames
    | LengthMismatch                // ValueError or host error: not one entry per atom
    | UndefinedLattice              // ValueError: repeat along an all-zero lattice vector
    | IndexOutOfRange               // IndexError: an index outside [-n, n)
    | EmptyIndex                    // IndexError: `index[0]` of an empty index list
    | MissingAttribute(name: string) // KeyError: no per-atom attribute of that name
    | NoShapeKeys                   // AttributeError: the mesh has no shape keys yet
    | UnsupportedType               // KeyError: a new attribute whose first value is not int, float or str

  datatype Result<+T> = Ok(value: T) | Err(error: Error) {

    predicate IsFailure() {
      Err?
    }

    function PropagateFailure<U>(): Result<U>
      requires Err?
    {
      Err(error)
    }

    function Extract(): T
      requires Ok?
    {
      value
    }
  }
}
