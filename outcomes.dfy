/** Values shared by the two startup parsers of the proxy and by their entry point. */
module Outcomes {

  /** A C pointer that may be NULL: `None` is NULL. */
  datatype Option<T> = None | Some(value: T)

  /** Why startup stops. Each one is an `exit(EXIT_FAILURE)` or a failed `assert`. */
  datatype ConfigError =
    | DownstreamMaxNotPositive  // assert(behavior.downstream_max > 0) fails
    | MissingEquals             // a topology section has no '='
    | BadProxyPort              // atoi of the port text is <= 0
    | AllocFailed               // cproxy_create returned NULL
    | ListenFailed              // cproxy_listen reported no listening connection

  datatype Result<T> = Ok(value: T) | Err(error: ConfigError)

  /** How a startup call ends: it returns a status, or the process terminates. */
  datatype Termination = Returned(code: int) | Aborted(cause: ConfigError)
}
