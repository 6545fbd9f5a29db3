// What the forwarding buffers see of their sockets. Each buffer method is given the
// flags that poll reported for its sockets and the outcome of the one `recv` or
// `send` it may make; the sockets themselves are not modelled.

module Poll {
  import opened Wire

  /**
    The poll result for one socket: PR_POLL_READ, PR_POLL_WRITE, and whether
    PR_POLL_ERR or PR_POLL_HUP was set. A socket missing from the poll dictionary
    reports nothing.
  */
  datatype Flags = Flags(read: bool, write: bool, problem: bool)

  const Quiet := Flags(false, false, false)

  /** An error or hang-up reported without readable data: the source is treated as closed. */
  predicate ProblemWithoutRead(f: Flags) {
    f.problem && !f.read
  }

  /** PR_POLL_WRITE set and neither PR_POLL_ERR nor PR_POLL_HUP: the buffer sends. */
  predicate Writable(f: Flags) {
    f.write && !f.problem
  }

  /**
    The outcome of `recv` on a nonblocking socket: some bytes (none at EOF), or one
    of the NSPR errors the buffers tell apart.
  */
  datatype Recv =
    | Data(bytes: Bytes)
    | ConnectionReset
    | WouldBlock
    | Failed

  /** The bytes a finished `recv` stands for: a reset connection reads as EOF. */
  function Received(r: Recv): (d: Bytes)
    requires r.Data? || r.ConnectionReset?
    ensures r.ConnectionReset? ==> d == []
  {
    if r.Data? then r.bytes else []
  }

  /** `recv(n)` returns at most `n` bytes. */
  predicate RecvAtMost(r: Recv, n: int) {
    r.Data? ==> |r.bytes| <= n
  }

  /** The exceptions a buffer raises. */
  datatype Fault =
    | InnerBufferExceeded
    | OuterBufferExceeded
    | NoRoomLeft
    | BufferFull
    | RecvFailed
    | DataSizeTooLarge

  datatype Status = Completed | Raised(fault: Fault)

  function Min(a: int, b: int): (m: int)
    ensures m <= a && m <= b && (m == a || m == b)
  {
    if a <= b then a else b
  }

  function Max(a: int, b: int): (m: int)
    ensures m >= a && m >= b && (m == a || m == b)
  {
    if a >= b then a else b
  }
}
