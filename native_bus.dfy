/**
  The native layer under the I2C device class: opening and closing a bus device file,
  selecting the slave address on an open descriptor, and the SMBus / plain transfers.
  The real layer calls into the operating system; here it is a fake driver that hands out
  fresh descriptors (or a negative code for a bus that cannot be opened), keeps the set of
  open descriptors, and records every call in a ghost log so that the order of calls can
  be stated.
*/
module NativeBus {
  import opened Base

  /** The transfer a device method asks the bus to perform, with its arguments. */
  datatype Op =
    | ReadByte
    | WriteByte(value: JByte)
    | ReadByteData(cmd: JByte)
    | WriteByteData(cmd: JByte, value: JByte)
    | ReadWordData(cmd: JByte)
    | WriteWordData(cmd: JByte, word: Int32)
    | Read(count: nat)
    | Write(data: seq<JByte>)
    | WriteRead(wdata: seq<JByte>, count: nat)

  /** One call into the native layer. */
  datatype Call =
    | OpenCall(dev: string, fd: int)
    | CloseCall(fd: int)
    | SetAddrCall(fd: int, addr: JByte)
    | TransferCall(fd: int, op: Op)

  /** Every transfer in the log is issued right after an address selection on the same descriptor. */
  ghost predicate AddressScoped(log: seq<Call>)
  {
    forall i | 0 <= i < |log| && log[i].TransferCall? ::
      0 < i && log[i - 1].SetAddrCall? && log[i - 1].fd == log[i].fd
  }

  /** Opening, closing or selecting an address never breaks the pairing of transfers. */
  lemma ScopedAfterCall(log: seq<Call>, c: Call)
    requires AddressScoped(log)
    requires !c.TransferCall?
    ensures AddressScoped(log + [c])
  {
    var log' := log + [c];
    forall i | 0 <= i < |log'| && log'[i].TransferCall?
      ensures 0 < i && log'[i - 1].SetAddrCall? && log'[i - 1].fd == log'[i].fd
    {
      assert i < |log| && log'[i] == log[i] && log'[i - 1] == log[i - 1];
    }
  }

  /** An address selection followed at once by a transfer on the same descriptor keeps the pairing. */
  lemma ScopedAfterTransaction(log: seq<Call>, fd: int, addr: JByte, op: Op)
    requires AddressScoped(log)
    ensures AddressScoped(log + [SetAddrCall(fd, addr), TransferCall(fd, op)])
  {
    var log' := log + [SetAddrCall(fd, addr), TransferCall(fd, op)];
    forall i | 0 <= i < |log'| && log'[i].TransferCall?
      ensures 0 < i && log'[i - 1].SetAddrCall? && log'[i - 1].fd == log'[i].fd
    {
      if i < |log| {
        assert log'[i] == log[i] && log'[i - 1] == log[i - 1];
      }
    }
  }

  /** A transfer appended without a preceding address selection breaks the pairing. */
  lemma UnscopedTransfer(log: seq<Call>, fd: int, op: Op)
    requires |log| == 0 || !log[|log| - 1].SetAddrCall? || log[|log| - 1].fd != fd
    ensures !AddressScoped(log + [TransferCall(fd, op)])
  {
    var log' := log + [TransferCall(fd, op)];
    assert log'[|log|].TransferCall?;
    assert |log| > 0 ==> log'[|log| - 1] == log[|log| - 1];
  }

  class Driver {
    /** Bus device files whose open fails. */
    const unavailable: set<string>
    /** What the bus answers to a transfer on a descriptor. */
    const respond: (int, Op) -> int
    /** Descriptors currently open. */
    var openFds: set<int>
    /** The next descriptor to hand out. */
    var nextFd: int
    /** Every call made so far, oldest first. */
    ghost var log: seq<Call>

    ghost predicate Valid()
      reads this`nextFd, this`openFds
    {
      0 <= nextFd && forall fd | fd in openFds :: 0 <= fd < nextFd
    }

    constructor (unavailable: set<string>, respond: (int, Op) -> int)
      ensures Valid()
      ensures this.unavailable == unavailable && this.respond == respond
      ensures openFds == {} && log == []
    {
      this.unavailable := unavailable;
      this.respond := respond;
      openFds := {};
      nextFd := 0;
      log := [];
    }

    /** Opens a bus device file: a fresh descriptor, or a negative code when the bus cannot be opened. */
    method Open(dev: string) returns (fd: int)
      requires Valid()
      modifies this
      ensures Valid()
      ensures log == old(log) + [OpenCall(dev, fd)]
      ensures dev in unavailable ==> fd < 0 && openFds == old(openFds)
      ensures dev !in unavailable ==> 0 <= fd && fd !in old(openFds) && openFds == old(openFds) + {fd}
    {
      if dev in unavailable {
        fd := -1;
      } else {
        fd := nextFd;
        nextFd := nextFd + 1;
        openFds := openFds + {fd};
      }
      log := log + [OpenCall(dev, fd)];
    }

    /** Closes a descriptor. */
    method Close(fd: int)
      requires Valid()
      modifies this
      ensures Valid()
      ensures log == old(log) + [CloseCall(fd)]
      ensures openFds == old(openFds) - {fd} && nextFd == old(nextFd)
    {
      openFds := openFds - {fd};
      log := log + [CloseCall(fd)];
    }

    /** Selects the slave address for later transfers on a descriptor; negative when it is not open. */
    method SetAddr(fd: int, addr: JByte) returns (status: int)
      modifies this`log
      ensures log == old(log) + [SetAddrCall(fd, addr)]
      ensures status == if fd in openFds then 0 else -1
    {
      status := if fd in openFds then 0 else -1;
      log := log + [SetAddrCall(fd, addr)];
    }

    /** Performs one transfer on a descriptor and reports the bus's answer. */
    method Transfer(fd: int, op: Op) returns (r: int)
      modifies this`log
      ensures log == old(log) + [TransferCall(fd, op)]
      ensures r == respond(fd, op)
    {
      r := respond(fd, op);
      log := log + [TransferCall(fd, op)];
    }
  }
}
