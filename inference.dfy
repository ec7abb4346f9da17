/**
 * The model-serving library both scripts call (`ollama.generate`) and the
 * installer `install_and_setup_ollama`, seen from outside. The service is an
 * oracle: the reply to the n-th call of a session may depend on n and on the
 * request, and on nothing the scripts can observe. Every operation that talks
 * to the service threads the log of the requests issued so far, so a
 * contract can say exactly which calls were made and in which order.
 */
module Inference {

  datatype Request =
    | Generate(model: string, prompt: string, images: seq<string>)  // ollama.generate(model=, prompt=, images=, stream=False)
    | Install(model: string)                                        // install_and_setup_ollama(model)

  /** The exceptions the scripts raise or catch. */
  datatype Exception =
    | ResponseError(message: string)   // ollama._types.ResponseError
    | OtherError(message: string)      // any other exception from the library
    | ImageOpenError(path: string)     // PIL's Image.open could not open the file
    | UnboundLocalError(name: string)  // a local variable read before it is assigned

  datatype Reply = Done(text: string) | Raised(error: Exception)

  /** The service's answer to the call with the given ordinal. */
  type Oracle = (nat, Request) -> Reply

  /** A value returned by the scripts' code, or the exception it raised. */
  datatype Outcome<+T> = Return(value: T) | Raise(error: Exception)

  /** A result together with the log of every request issued up to now. */
  datatype Call<+T> = Call(result: T, log: seq<Request>)

  /** The `text` of a successful reply, or its exception re-raised. */
  function Passed(reply: Reply): (r: Outcome<string>)
    ensures r.Return? <==> reply.Done?
    ensures r.Return? ==> r.value == reply.text
    ensures r.Raise? ==> r.error == reply.error
  {
    match reply
    case Done(text) => Return(text)
    case Raised(e) => Raise(e)
  }
}
