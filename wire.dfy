/** Constants and small types shared by the holder (server) and the receiver (client). */
module Wire {

  /** An unsigned char as it travels over the socket. */
  type Byte = b: int | 0 <= b < 256

  /** The four command tags: consecutive values starting at 42. */
  const CmdStart: Byte := 42
  const CmdEnd: Byte := 43
  const CmdFds: Byte := 44
  const CmdError: Byte := 45

  /** The number of namespace kinds, and so of descriptor slots. */
  const NsCount: nat := 6

  /** The slot value that means "no descriptor". */
  const Absent: int := -1

  /** The whole descriptor array, one int per namespace kind. */
  type Slots = s: seq<int> | |s| == NsCount witness [-1, -1, -1, -1, -1, -1]

  // x86-64 Linux values.
  const SolSocket: int := 1
  const ScmRights: int := 1
  const IntSize: nat := 4
  /** sizeof (struct cmsghdr), already a multiple of the cmsg alignment. */
  const CmsgHdrSize: nat := 16
  /** Capacity of sockaddr_un.sun_path, terminator included. */
  const SunPathCapacity: nat := 108
  const Enoent: int := 2

  /** CMSG_LEN: the header followed by n bytes of data. */
  function CmsgLen(n: nat): nat { CmsgHdrSize + n }

  /** sizeof prog->nsfds. */
  const NsFdsBytes: nat := NsCount * IntSize

  datatype Option<T> = None | Some(value: T)

  datatype Result<T, E> = Ok(value: T) | Err(error: E)
}
