/**
 * The ancillary transfer of the descriptor array, abstracted from the byte layout of
 * struct msghdr and struct cmsghdr to records: one in-band byte and one control record.
 */
module Codec {
  import opened Wire

  /** A control record: cmsg_level, cmsg_type, cmsg_len, and the data area read as NsCount ints. */
  datatype ControlRecord = ControlRecord(level: int, kind: int, len: int, data: Slots)

  /** What send_fds hands to sendmsg: the in-band byte, the control record and msg_controllen. */
  datatype Message = Message(tag: Byte, control: ControlRecord, controlLen: int)

  /**
   * What recv_fds finds after recvmsg: the value recvmsg returned, the in-band byte, and
   * the record CMSG_FIRSTHDR points to (None where it would be a null pointer).
   */
  datatype Delivery = Delivery(count: int, tag: Byte, first: Option<ControlRecord>)

  /** The three ways recv_fds rejects what it received. */
  datatype RecvFault = ShortRead | UnexpectedLevelOrType | UnexpectedLength

  /** CMSG_LEN(sizeof nsfds): the only record length the receiver accepts. */
  const FdsRecordLen: nat := CmsgLen(NsFdsBytes)

  /** The message send_fds builds from the holder's slots: the fds tag and a rights record holding every slot in order. */
  function Encode(slots: Slots): Message
  {
    Message(CmdFds, ControlRecord(SolSocket, ScmRights, FdsRecordLen, slots), FdsRecordLen)
  }

  /**
   * A transport that hands the receiver the one in-band byte and the record unchanged.
   * The kernel's renumbering of the passed descriptors is not modelled.
   */
  function Deliver(m: Message): Delivery
  {
    Delivery(1, m.tag, Some(m.control))
  }

  /**
   * recv_fds dereferences CMSG_FIRSTHDR without a null check once at least one byte
   * arrived, so a record must be present whenever the read was long enough.
   */
  predicate HeaderPresent(d: Delivery)
  {
    d.count >= 1 ==> d.first.Some?
  }

  /** The receiver's checks, in the order recv_fds makes them; only when all pass is the data taken. */
  function Validate(d: Delivery): (r: Result<Slots, RecvFault>)
    requires HeaderPresent(d)
    ensures r.Ok? ==> d.first.Some? && r.value == d.first.value.data
  {
    if d.count < 1 then Err(ShortRead)
    else if d.first.value.level != SolSocket || d.first.value.kind != ScmRights then Err(UnexpectedLevelOrType)
    else if d.first.value.len != FdsRecordLen then Err(UnexpectedLength)
    else Ok(d.first.value.data)
  }

  /** What send_fds sends passes every receiver check and yields the holder's slots in slot order. */
  lemma RoundTrip(slots: Slots)
    ensures Validate(Deliver(Encode(slots))) == Ok(slots)
  {
  }

  /** The receiver accepts exactly a rights record of the full length after at least one byte. */
  lemma AcceptsExactly(d: Delivery)
    requires HeaderPresent(d)
    ensures Validate(d).Ok? <==>
      d.count >= 1 && d.first.value.level == SolSocket && d.first.value.kind == ScmRights &&
      d.first.value.len == FdsRecordLen
  {
  }

  /**
   * The checks run in order: a short read is reported whatever the record says, and a wrong
   * level or type is reported before the length is looked at.
   */
  lemma ChecksInOrder(d: Delivery)
    requires HeaderPresent(d)
    ensures d.count < 1 ==> Validate(d) == Err(ShortRead)
    ensures d.count >= 1 && (d.first.value.level != SolSocket || d.first.value.kind != ScmRights) ==>
      Validate(d) == Err(UnexpectedLevelOrType)
  {
  }

  /** A rights record carrying n ints rather than NsCount is rejected for its length. */
  lemma RejectsOtherCounts(n: nat, tag: Byte, data: Slots)
    requires n != NsCount
    ensures Validate(Delivery(1, tag, Some(ControlRecord(SolSocket, ScmRights, CmsgLen(n * IntSize), data))))
      == Err(UnexpectedLength)
  {
  }

  /** The in-band byte is not checked: any tag with a well-formed record is accepted. */
  lemma TagIgnored(d: Delivery, tag: Byte)
    requires HeaderPresent(d)
    ensures Validate(d.(tag := tag)) == Validate(d)
  {
  }
}
