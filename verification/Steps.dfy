/** What the operations that run concurrently do, in the order in which they do it. */
module Steps {
  import opened Utf8

  datatype Did =
    | Buffered(out: Bytes)
    | Sent(out: Bytes)
    | Listed
    | ContentRead
    | ContentSent
    | Removed(id: int)
    | Announced(id: int)
}
