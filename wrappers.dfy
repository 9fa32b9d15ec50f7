/** Option and Result, used where the Java code returns null or throws. */
module Wrappers {

  /** `None` stands for a Java `null`. */
  datatype Option<+T> = None | Some(value: T)

  /** The three `RuntimeException` messages the readers throw. */
  datatype Failure =
    | EnclosingTagExpected     // "Enclosing tag expected."
    | AttributeValueExpected   // "Attribute value expected."
    | ObjectEndExpected        // "Object end expected."

  /** A reader either returns normally or aborts with one of the failures above. */
  datatype Result<+T> = Ok(value: T) | Err(error: Failure)
}
