/** Failure-compatible Option and Result types, and the errors the library raises. */
module Wrappers {

  datatype Option<+T> = None | Some(value: T) {
    function GetOr(default: T): T {
      match this
      case Some(v) => v
      case None => default
    }
  }

  datatype Result<+T, +E> = Ok(value: T) | Err(error: E) {
    predicate IsFailure() {
      Err?
    }

    function PropagateFailure<U>(): Result<U, E>
      requires Err?
    {
      Err(error)
    }

    function Extract(): T
      requires Ok?
    {
      value
    }
  }

  /** The exceptions of the library and of the DOM it drives. */
  datatype Error =
    | AmbiguousEntity    // XmlUtilException 258: a class carries more than one XmlEntity
    | HeaderMalformed    // XmlUtilException 251: "<?xml" present but no "?>"
    | UndefinedPrefix    // XmlUtilException: prefix used before its URI was registered
    | EmptyNodeName      // XmlUtilException: XmlUtil::createChild with an empty name
    | NoDocumentElement  // XmlUtilException: the document has no document element
    | NodeNotFound       // selectSingleNode matched nothing
    | TypeError          // PHP TypeError / Error: a null where a node, array or object is needed
    | InvalidName        // DOMException INVALID_CHARACTER_ERR from createElement / createAttribute
    | HierarchyError     // DOMException HIERARCHY_REQUEST_ERR (a second element under the document)
  {
    /** The exception code the library attaches (0 where it attaches none). */
    function Code(): int {
      match this
      case AmbiguousEntity => 258
      case HeaderMalformed => 251
      case _ => 0
    }
  }
}
