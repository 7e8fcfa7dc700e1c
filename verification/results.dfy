/** Results of calls and of readers. An error carries what its message reports. */
module Results {
  import opened Bytes

  datatype Error =
    | SystemCall(call: string)
    | FrameTooLong(len: nat)
    | EmptyBody
    | Truncated
    | UnknownTag(tag: Byte)
    | NotConnected

  datatype Result<+T> = Ok(value: T) | Err(error: Error)

  datatype Option<+T> = None | Some(value: T)

  /** What a reader of text got, and what follows it. */
  datatype Read<+T> = Read(value: T, rest: string)
}
