/**
 * Results shared by every module of the model: an optional value, and the ways an operation of
 * the entity/system/world core can end. A failed `assert(...)` of the source becomes `Fail` with
 * the error kind its message names; a JavaScript runtime crash (reading a property of `undefined`,
 * destructuring an empty Map) becomes `Fail(TypeError)`.
 */
module Outcomes {

  datatype Option<+T> = None | Some(value: T)

  datatype Error =
    | DuplicateComponent
    | ComponentNotFound
    | ProtectedComponent
    | DuplicateSystem
    | SystemNotEnabled
    | RelationshipNotFound
    | RelationshipTargetNotFound
    | DuplicateChild
    | ChildNotFound
    | SystemNotFound
    | TypeError

  /** The end of an operation that returns nothing. */
  datatype Outcome = Done | Fail(error: Error)

  /** The end of an operation that returns a value. */
  datatype Result<+T> = Ok(value: T) | Err(error: Error)
}
