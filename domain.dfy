/**
 * The PollNode entity, the service's failure kinds and the messages they
 * carry.
 */
module Domain {

  datatype Option<T> = None | Some(value: T)

  /**
   * A poll node as the service sees it: an identifier, which may be absent
   * (a node built without one), and a title.
   */
  datatype PollNode = PollNode(id: Option<string>, title: string)

  /** The service's typed failures, each with the message it carries. */
  datatype ServiceError =
    | AlreadyExists(message: string)
    | NotFound(message: string)
    | IllegalArgument(message: string)

  /** The outcome of an operation that returns a value or raises. */
  datatype Result<T> = Ok(value: T) | Err(error: ServiceError)

  /** The outcome of an operation that returns nothing or raises. */
  datatype Outcome = Pass | Fail(error: ServiceError)

  const AlreadyExistsMessage: string := "PollNode already exists"

  const NullParameterMessage: string := "The parameter is null"

  const NotFoundPrefix: string := "PollNode by id "

  const NotFoundSuffix: string := " is not found"

  /** The message of a NotFound failure: it names the id that was missing. */
  function NotFoundMessage(id: string): (m: string)
    ensures |m| == |NotFoundPrefix| + |id| + |NotFoundSuffix|
    ensures m[..|NotFoundPrefix|] == NotFoundPrefix
    ensures m[|NotFoundPrefix|..|NotFoundPrefix| + |id|] == id
    ensures m[|NotFoundPrefix| + |id|..] == NotFoundSuffix
  {
    NotFoundPrefix + id + NotFoundSuffix
  }

  /** Different missing ids give different messages: the message identifies the id. */
  lemma NotFoundMessageInjective(a: string, b: string)
    requires NotFoundMessage(a) == NotFoundMessage(b)
    ensures a == b
  {
    var m := NotFoundMessage(a);
    assert |a| == |b|;
    assert a == m[|NotFoundPrefix|..|NotFoundPrefix| + |a|] == b;
  }
}
