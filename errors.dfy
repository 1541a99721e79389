/** internal/errors/types.go: the error values the core creates and the
    text they render to. Errors from outside the core (the OS, exec, JSON
    decoding) are carried by their text alone. */
module Errors {
  import opened Wrappers
  import opened Strs

  datatype Error =
    | NotImplemented                              // ErrNotImplemented
    | NotFound(resource: string, name: string)    // *NotFoundError
    | Validation(field: string, msg: string)      // *ValidationError
    | Operation(op: string, inner: Option<Error>) // *OperationError; None is a nil Err
    | Failure(text: string)                       // any other error

  const NotImplementedText := "not implemented"

  /** Error(): the text of an error. */
  function Message(e: Error): string
    decreases e
  {
    match e
    case NotImplemented => NotImplementedText
    case NotFound(resource, name) => resource + " '" + name + "' not found"
    case Validation(field, msg) =>
      if field == "" then "validation error: " + msg
      else "validation error: field " + field + " " + msg
    case Operation(op, inner) =>
      if inner.None? then op else op + ": " + Message(inner.value)
    case Failure(text) => text
  }

  /** errors.Unwrap: the wrapped error of an OperationError; nothing for the others. */
  function Unwrap(e: Error): (r: Option<Error>)
    ensures r.Some? ==> r.value < e
  {
    if e.Operation? then e.inner else None
  }

  /** An OperationError reads as its operation, then the error it wraps. */
  lemma OperationMessage(op: string, inner: Option<Error>)
    ensures Unwrap(Operation(op, inner)) == inner
    ensures inner.None? ==> Message(Operation(op, inner)) == op
    ensures inner.Some? ==>
              HasPrefix(Message(Operation(op, inner)), op + ": ") &&
              HasSuffix(Message(Operation(op, inner)), Message(Unwrap(Operation(op, inner)).value))
  {
    if inner.Some? {
      var m := Message(Operation(op, inner));
      assert m == (op + ": ") + Message(inner.value);
      assert m[..|op + ": "|] == op + ": ";
      assert m[|m| - |Message(inner.value)|..] == Message(inner.value);
    }
  }

  /** A NotFoundError names the resource first and ends in "not found". */
  lemma NotFoundMessage(resource: string, name: string)
    ensures HasPrefix(Message(NotFound(resource, name)), resource)
    ensures HasSuffix(Message(NotFound(resource, name)), "' not found")
    ensures Contains(Message(NotFound(resource, name)), "'" + name + "'")
  {
    var m := Message(NotFound(resource, name));
    assert m == resource + " " + ("'" + name + "'") + " not found";
    ContainsInConcat(resource + " ", "'" + name + "'", " not found");
    assert m[..|resource|] == resource;
    assert m[|m| - |"' not found"|..] == "' not found";
  }

  /** A ValidationError always starts "validation error: ", ends with its
      message and, when it has a field, names it. */
  lemma ValidationMessage(field: string, msg: string)
    ensures HasPrefix(Message(Validation(field, msg)), "validation error: ")
    ensures HasSuffix(Message(Validation(field, msg)), msg)
    ensures field == "" ==> |Message(Validation(field, msg))| == |"validation error: "| + |msg|
    ensures field != "" ==> HasPrefix(Message(Validation(field, msg)), "validation error: field " + field + " ")
  {
    var m := Message(Validation(field, msg));
    if field == "" {
      assert m[..|"validation error: "|] == "validation error: ";
    } else {
      var head := "validation error: field " + field + " ";
      assert m == head + msg;
      assert m[..|head|] == head;
      assert head[..|"validation error: "|] == "validation error: ";
    }
    assert m[|m| - |msg|..] == msg;
  }

  /** Wrapping keeps every phrase of the wrapped error's text. */
  lemma WrappedMessageContains(op: string, e: Error, phrase: string)
    requires Contains(Message(e), phrase)
    ensures Contains(Message(Operation(op, Some(e))), phrase)
  {
    var i :| 0 <= i <= |Message(e)| && OccursAt(Message(e), phrase, i);
    var m := Message(Operation(op, Some(e)));
    var k := |op + ": "|;
    assert m == (op + ": ") + Message(e);
    assert m[k + i..k + i + |phrase|] == Message(e)[i..i + |phrase|];
    assert OccursAt(m, phrase, k + i);
  }

  /** ErrNotImplemented wrapped in any number of OperationErrors. */
  predicate WrapsNotImplemented(e: Error)
    decreases e
  {
    e == NotImplemented || (e.Operation? && e.inner.Some? && WrapsNotImplemented(e.inner.value))
  }

  /** Its text always contains "not implemented". */
  lemma {:induction false} NotImplementedShowsThrough(e: Error)
    requires WrapsNotImplemented(e)
    ensures Contains(Message(e), NotImplementedText)
    decreases e
  {
    if e == NotImplemented {
      assert OccursAt(Message(e), NotImplementedText, 0);
    } else {
      NotImplementedShowsThrough(e.inner.value);
      WrappedMessageContains(e.op, e.inner.value, NotImplementedText);
    }
  }
}
