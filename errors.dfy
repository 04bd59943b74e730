/** Failure values of the resolution engine and the wrappers that carry them.
    Each Python exception the core raises, or lets escape, is one constructor. */
module Errors {

  datatype Option<+T> = None | Some(value: T)

  datatype Error =
    /** `MappingFormatError`: the first token of a class-mapping rule could not be lexed. */
    | MappingFormatError(message: string)
    /** A `ValueError` raised by the shell-style lexer and not caught by the core. */
    | ValueError(message: string)
    /** An `IndexError` from indexing an empty string (`instr[0]`, `key[0]`). */
    | IndexError(context: string)
    /** A `TypeError` from indexing `None` (a rule whose first token is missing). */
    | TypeError(context: string)
    /** A regular-expression compilation error (`re.error`) for an invalid pattern. */
    | PatternError(pattern: string)
    /** `ClassNotFound`, carrying the class name and the node name it was set to. */
    | ClassNotFound(klass: string, nodename: string)
    /** `NodeNotFound` from the storage lookup of a node. */
    | NodeNotFound(nodename: string)
    /** `UndefinedVariableError`, carrying the reference key that could not be found. */
    | UndefinedVariableError(key: string)
    /** Any failure of an abstract collaborator (interpolation and friends). */
    | CollaboratorError(message: string)

  datatype Result<+T> = Ok(value: T) | Err(error: Error) {
    predicate IsFailure() { Err? }

    function PropagateFailure<U>(): Result<U>
      requires Err?
    {
      Err(error)
    }

    function Extract(): T
      requires Ok?
    {
      value
    }
  }
}
