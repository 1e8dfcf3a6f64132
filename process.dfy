/** How a child process started with `Command::status` ended, as the modelled code sees it. The
    process itself (curl, tar) is not modelled: its ending is an input. */
module Process {
  /** It ran and exited, successfully or not, or it could not be started (with the error). */
  datatype Status = Exited(success: bool) | SpawnFailed(message: string)

  /** A curl invocation: the URL fetched and the whole argument vector. */
  datatype CurlCall = CurlCall(url: string, args: seq<string>)
}
