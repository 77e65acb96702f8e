/** The option, result and error shapes shared by every component. */
module Wrappers {

  datatype Option<+T> = None | Some(value: T)

  /** The daemon's error kinds; the message text carries no logic and is dropped. */
  datatype Error = ConfigError | InvalidInput | RouteError | NetworkError | DnsError

  datatype Result<+T> = Ok(value: T) | Err(error: Error)
}
