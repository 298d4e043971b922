/**
  The I2C device class: a process-wide registry that maps a bus device file to one shared,
  reference-counted record holding the open descriptor, device objects bound to one record and
  one slave address, and the transactions, each of which selects the device's address and then
  transfers on the shared descriptor. Each synchronized block of the Java class is one atomic step.
*/
module I2C {
  import opened Base
  import opened NativeBus

  /** What the open, close and transaction methods throw. */
  datatype IOError =
    | BadAddress                          // "Bad I2C address"
    | OpenFailed(dev: string, code: int)  // "Error opening I2C device <dev>: <code>"
    | AlreadyClosed                       // "I2C device already closed"

  /** The shared record of one bus device file: its descriptor (-1 when closed) and its user count. */
  class Handle {
    const dev: string
    var fd: int
    var users: int

    constructor (dev: string)
      ensures this.dev == dev && fd == -1 && users == 0
    {
      this.dev := dev;
      fd := -1;
      users := 0;
    }
  }

  /** The registry of open bus device files, with the native layer it opens them through. */
  class Registry {
    var handles: map<string, Handle>
    /** Every record a successful open has created, whether or not it is still in the map. */
    ghost var records: set<Handle>
    const driver: Driver

    /** The record owning each descriptor a successful open returned. */
    ghost var owners: map<int, Handle>

    /** A record is either closed with no users, or has users and a really open descriptor that it alone owns. */
    ghost predicate RecordOk(h: Handle)
      reads this`owners, h`users, h`fd, driver`openFds
    {
      || (h.users == 0 && h.fd == -1)
      || (h.users > 0 && h.fd >= 0 && h.fd in driver.openFds && h.fd in owners && owners[h.fd] == h)
    }

    ghost predicate RecordsValid()
      reads this`records, this`owners, records, driver`openFds, driver`nextFd
    {
      && driver.Valid()
      && forall h | h in records :: RecordOk(h)
    }

    /** A record holds an open descriptor exactly when it has users, and never fewer than none. */
    lemma OpenExactlyWhenUsed(h: Handle)
      requires RecordsValid() && h in records
      ensures h.fd >= 0 <==> h.users > 0
      ensures h.users >= 0 && h.fd >= -1
    {
      assert RecordOk(h);
    }

    /** Two records with users never hold the same descriptor. */
    lemma LiveRecordsShareNoDescriptor(h1: Handle, h2: Handle)
      requires RecordsValid() && h1 in records && h2 in records
      requires h1.users > 0 && h2.users > 0 && h1.fd == h2.fd
      ensures h1 == h2
    {
      assert RecordOk(h1) && RecordOk(h2);
    }

    /** Every transfer the native layer has seen came right after an address selection on its descriptor. */
    ghost predicate Scoped()
      reads driver`log
    {
      AddressScoped(driver.log)
    }

    /** The registry invariant: records are valid and the map holds only open records, each under its own path. */
    ghost predicate Valid()
      reads this, records, driver`openFds, driver`nextFd
    {
      && RecordsValid()
      && forall dev | dev in handles :: handles[dev] in records && handles[dev].dev == dev && handles[dev].users > 0
    }

    /** Every record that still has users is the one the map holds for its path. */
    ghost predicate Tracked()
      reads this`records, this`handles, records
    {
      forall h | h in records && h.users > 0 :: h.dev in handles && handles[h.dev] == h
    }

    constructor (driver: Driver)
      requires driver.Valid()
      ensures Valid() && Tracked()
      ensures this.driver == driver && handles == map[] && records == {}
    {
      this.driver := driver;
      handles := map[];
      records := {};
      owners := map[];
    }

    /** Opens the device at `addr` on the bus `dev`, sharing the bus's record when it is already open. */
    method Open(dev: string, addr: JByte) returns (r: Result<Device, IOError>)
      requires Valid()
      modifies this, driver, if dev in handles then {handles[dev]} else {}
      ensures Valid()
      ensures old(Tracked()) ==> Tracked()
      ensures old(Scoped()) ==> Scoped()
      ensures r.Success? ==> r.value.handle != null && r.value.handle in records
      ensures addr < 0 ==>
        && r == Failure(BadAddress)
        && handles == old(handles) && records == old(records) && unchanged(driver)
      ensures 0 <= addr && dev in old(handles) ==>
        && r.Success? && fresh(r.value) && r.value.addr == addr
        && r.value.handle == old(handles[dev])
        && r.value.handle.users == old(handles[dev].users) + 1
        && r.value.handle.fd == old(handles[dev].fd)
        && handles == old(handles) && records == old(records) && unchanged(driver)
      ensures 0 <= addr && dev !in old(handles) ==> (r.Failure? <==> dev in driver.unavailable)
      ensures 0 <= addr && dev !in old(handles) ==>
        match r
        case Failure(e) =>
          && e.OpenFailed? && e.dev == dev && e.code < 0
          && driver.log == old(driver.log) + [OpenCall(dev, e.code)]
          && driver.openFds == old(driver.openFds)
          && handles == old(handles) && records == old(records)
        case Success(d) =>
          && fresh(d) && d.addr == addr && d.handle != null && fresh(d.handle)
          && d.handle.dev == dev && d.handle.fd >= 0 && d.handle.users == 1
          && driver.log == old(driver.log) + [OpenCall(dev, d.handle.fd)]
          && driver.openFds == old(driver.openFds) + {d.handle.fd}
          && handles == old(handles)[dev := d.handle] && records == old(records) + {d.handle}
      ensures forall h | h in old(records) && !(0 <= addr && dev in old(handles) && h == old(handles[dev])) ::
        h.users == old(h.users) && h.fd == old(h.fd)
    {
      if addr < 0 {
        return Failure(BadAddress);
      }
      if dev in handles {
        var d := Join(dev, addr);
        return Success(d);
      }
      var handle, fd := Connect(dev);
      if fd < 0 {
        return Failure(OpenFailed(dev, fd));
      }
      var d := new Device(handle, addr);
      return Success(d);
    }

    /** The half of open for a bus already in the map: one more user of its record, no driver call. */
    method Join(dev: string, addr: JByte) returns (d: Device)
      requires Valid() && dev in handles
      modifies handles[dev]
      ensures Valid()
      ensures old(Tracked()) ==> Tracked()
      ensures fresh(d) && d.addr == addr && d.handle == handles[dev]
      ensures d.handle.users == old(handles[dev].users) + 1 && d.handle.fd == old(handles[dev].fd)
    {
      var handle := handles[dev];
      handle.users := handle.users + 1;
      d := new Device(handle, addr);
    }

    /**
      The half of open for a bus not in the map: one driver open, and when it gives a descriptor,
      a new record for the bus with that descriptor and one user.
    */
    method Connect(dev: string) returns (handle: Handle, fd: int)
      requires Valid() && dev !in handles
      modifies this, driver
      ensures Valid()
      ensures old(Tracked()) ==> Tracked()
      ensures old(Scoped()) ==> Scoped()
      ensures driver.log == old(driver.log) + [OpenCall(dev, fd)]
      ensures fd < 0 <==> dev in driver.unavailable
      ensures fd < 0 ==>
        driver.openFds == old(driver.openFds) && handles == old(handles) && records == old(records)
      ensures fd >= 0 ==>
        && fresh(handle) && handle.dev == dev && handle.fd == fd && handle.users == 1
        && driver.openFds == old(driver.openFds) + {fd}
        && handles == old(handles)[dev := handle] && records == old(records) + {handle}
    {
      handle := new Handle(dev);
      fd := driver.Open(dev);
      if old(Scoped()) {
        ScopedAfterCall(old(driver.log), OpenCall(dev, fd));
      }
      handle.fd := fd;
      if handle.fd < 0 {
        return;
      }
      handles, records, owners := handles[dev := handle], records + {handle}, owners[fd := handle];
      handle.users := handle.users + 1;
      ConnectKeepsValid(dev, handle);
    }

    /** The registry invariant survives open's registration of a new record. */
    twostate lemma ConnectKeepsValid(dev: string, new handle: Handle)
      requires old(Valid()) && dev !in old(handles) && !old(allocated(handle))
      requires handle.dev == dev && handle.fd >= 0 && handle.users == 1
      requires handle.fd in driver.openFds && handle.fd !in old(driver.openFds)
      requires driver.openFds == old(driver.openFds) + {handle.fd} && driver.Valid()
      requires handles == old(handles)[dev := handle] && records == old(records) + {handle}
      requires owners == old(owners)[handle.fd := handle]
      requires forall h | h in old(records) :: h.fd == old(h.fd) && h.users == old(h.users)
      ensures Valid()
      ensures old(Tracked()) ==> Tracked()
    {
      forall h | h in old(records)
        ensures RecordOk(h)
      {
        assert old(RecordOk(h));
      }
      if old(Tracked()) {
        forall h | h in old(records) && h.users > 0
          ensures h.dev in handles && handles[h.dev] == h
        {
          assert old(h.users) > 0;
        }
      }
    }

    /**
      Closes every open bus: each record in the map loses all its users and its descriptor, and the
      map is emptied. `order` is the order in which the map's records were visited and `fds` the
      descriptors closed, one per record, in that order.
    */
    method CloseAll() returns (ghost order: seq<Handle>, ghost fds: seq<int>)
      requires Valid()
      modifies this, driver, handles.Values
      ensures Valid() && (old(Scoped()) ==> Scoped())
      ensures handles == map[] && records == old(records)
      ensures forall h | h in old(handles.Values) :: h.users == 0 && h.fd == -1
      ensures forall h | h in records && h !in old(handles.Values) :: h.users == old(h.users) && h.fd == old(h.fd)
      ensures |order| == |fds|
      ensures forall h | h in old(handles.Values) :: h in order
      ensures forall i | 0 <= i < |order| :: order[i] in old(handles.Values) && fds[i] == old(order[i].fd)
      ensures forall i, j | 0 <= i < j < |order| :: order[i] != order[j]
      ensures |driver.log| == |old(driver.log)| + |fds| && driver.log[..|old(driver.log)|] == old(driver.log)
      ensures forall i | 0 <= i < |fds| :: driver.log[|old(driver.log)| + i] == CloseCall(fds[i])
      ensures driver.openFds == old(driver.openFds) - set fd | fd in fds
      ensures old(Tracked()) ==> forall h | h in records :: h.users == 0 && h.fd == -1
    {
      var vals := Values();
      fds := ReleaseAll(vals);
      order := vals;
      handles := map[];
      forall h | h in old(records) && old(Tracked()) && old(h.users) > 0
        ensures h in old(handles.Values)
      {
        assert old(handles[h.dev]) == h;
      }
    }

    /** The map's records in the order the iteration over its values visits them: each exactly once. */
    method Values() returns (vals: seq<Handle>)
      ensures forall h :: h in vals <==> h in handles.Values
      ensures forall i, j | 0 <= i < j < |vals| :: vals[i] != vals[j]
    {
      var todo := handles.Values;
      vals := [];
      while todo != {}
        invariant forall h :: h in handles.Values <==> h in vals || h in todo
        invariant forall h | h in vals :: h !in todo
        invariant forall i, j | 0 <= i < j < |vals| :: vals[i] != vals[j]
        decreases todo
      {
        var h :| h in todo;
        vals, todo := vals + [h], todo - {h};
      }
    }

    /** The loop of closeAll: every record in `vals` is released in turn; `fds` are the descriptors it had. */
    method ReleaseAll(vals: seq<Handle>) returns (ghost fds: seq<int>)
      requires Valid()
      requires forall h | h in vals :: h in handles.Values
      requires forall i, j | 0 <= i < j < |vals| :: vals[i] != vals[j]
      modifies driver, handles.Values
      ensures RecordsValid() && (old(Scoped()) ==> Scoped())
      ensures forall h | h in vals :: h.users == 0 && h.fd == -1
      ensures |fds| == |vals| && forall i | 0 <= i < |vals| :: fds[i] == old(vals[i].fd)
      ensures |driver.log| == |old(driver.log)| + |fds| && driver.log[..|old(driver.log)|] == old(driver.log)
      ensures forall i | 0 <= i < |fds| :: driver.log[|old(driver.log)| + i] == CloseCall(fds[i])
      ensures driver.openFds == old(driver.openFds) - set fd | fd in fds
    {
      fds := [];
      for n := 0 to |vals|
        invariant RecordsValid() && (old(Scoped()) ==> Scoped())
        invariant forall i | 0 <= i < n :: vals[i].users == 0 && vals[i].fd == -1
        invariant forall i | n <= i < |vals| :: vals[i].users == old(vals[i].users) && vals[i].fd == old(vals[i].fd)
        invariant |fds| == n && forall i | 0 <= i < n :: fds[i] == old(vals[i].fd)
        invariant |driver.log| == |old(driver.log)| + n && driver.log[..|old(driver.log)|] == old(driver.log)
        invariant forall i | 0 <= i < n :: driver.log[|old(driver.log)| + i] == CloseCall(fds[i])
        invariant driver.openFds == old(driver.openFds) - set fd | fd in fds
      {
        fds := fds + [vals[n].fd];
        Release(vals[n]);
      }
    }

    /**
      The block of close that holds the record: one user less, and the descriptor closed when that
      was the last user. The map is not touched here.
    */
    method Leave(h: Handle)
      requires RecordsValid() && h in records && h.users > 0
      modifies h, driver
      ensures RecordsValid() && (old(Scoped()) ==> Scoped())
      ensures h.users == old(h.users) - 1
      ensures h.users == 0 ==>
        && h.fd == -1
        && driver.log == old(driver.log) + [CloseCall(old(h.fd))]
        && driver.openFds == old(driver.openFds) - {old(h.fd)}
      ensures h.users > 0 ==> h.fd == old(h.fd) && unchanged(driver)
    {
      h.users := h.users - 1;
      if h.users == 0 {
        if Scoped() {
          ScopedAfterCall(driver.log, CloseCall(h.fd));
        }
        driver.Close(h.fd);
        h.fd := -1;
      }
    }

    /** A record still in use stays in the map when one user leaves it and its entry goes only with its last user. */
    twostate lemma LeaveKeepsTracked(h: Handle)
      requires old(Tracked()) && h in old(records) && old(h.users) > 0
      requires records == old(records) && h.users == old(h.users) - 1
      requires unchanged(old(records) - {h})
      requires h.users > 0 ==> handles == old(handles)
      requires h.users == 0 ==> handles == old(handles) - {h.dev}
      ensures Tracked()
    {
      forall k | k in records && k.users > 0
        ensures k.dev in handles && handles[k.dev] == k
      {
        assert old(k.users) > 0 && old(handles[k.dev]) == k;
      }
    }

    /** The body of the loop in closeAll: the record loses all its users and its descriptor is closed. */
    method Release(h: Handle)
      requires RecordsValid() && h in records && h.users > 0
      modifies h, driver
      ensures RecordsValid() && (old(Scoped()) ==> Scoped())
      ensures h.users == 0 && h.fd == -1
      ensures driver.log == old(driver.log) + [CloseCall(old(h.fd))]
      ensures driver.openFds == old(driver.openFds) - {old(h.fd)}
    {
      h.users := 0;
      if h.fd >= 0 {
        if Scoped() {
          ScopedAfterCall(driver.log, CloseCall(h.fd));
        }
        driver.Close(h.fd);
      }
      h.fd := -1;
    }
  }

  /** A device object: one slave address on one shared bus record; `handle` is null once closed. */
  class Device {
    var handle: Handle?
    const addr: JByte

    constructor (handle: Handle, addr: JByte)
      ensures this.handle == handle && this.addr == addr
    {
      this.handle := handle;
      this.addr := addr;
    }

    /** The device still has a record with an open descriptor: transactions go ahead. */
    predicate IsOpen()
      reads this, handle
    {
      handle != null && handle.fd >= 0
    }

    /** The condition under which close releases the device's record. */
    predicate Releasable()
      reads this, handle
    {
      handle != null && handle.users > 0 && handle.fd >= 0
    }

    /**
      Closes the device as the source does: one user less on its record, the descriptor closed when
      that was the last user, and the map entry for the record's bus removed whatever the count.
    */
    method Close(reg: Registry)
      requires reg.Valid()
      requires handle != null ==> handle in reg.records
      modifies this, reg, reg.driver, handle
      ensures reg.Valid() && reg.records == old(reg.records)
      ensures old(reg.Scoped()) ==> reg.Scoped()
      ensures !old(Releasable()) ==>
        && handle == old(handle) && reg.handles == old(reg.handles) && unchanged(reg.driver)
        && (handle != null ==> handle.users == old(handle.users) && handle.fd == old(handle.fd))
      ensures old(Releasable()) ==>
        var h := old(handle);
        && handle == null
        && h.users == old(h.users) - 1
        && reg.handles == old(reg.handles) - {h.dev}
        && (h.users == 0 ==>
              && h.fd == -1
              && reg.driver.log == old(reg.driver.log) + [CloseCall(old(h.fd))]
              && reg.driver.openFds == old(reg.driver.openFds) - {old(h.fd)})
        && (h.users > 0 ==> h.fd == old(h.fd) && unchanged(reg.driver))
    {
      if handle == null {
        return;
      }
      if handle.users <= 0 || handle.fd < 0 {
        return;
      }
      reg.Leave(handle);
      reg.handles := reg.handles - {handle.dev};
      handle := null;
    }

    /**
      Close as the registry intends it: the record leaves the map only when its last user goes, so
      the map keeps every record that still has users and closeAll reaches all of them.
    */
    method CloseIntended(reg: Registry)
      requires reg.Valid() && reg.Tracked()
      requires handle != null ==> handle in reg.records
      modifies this, reg, reg.driver, handle
      ensures reg.Valid() && reg.Tracked() && reg.records == old(reg.records)
      ensures old(reg.Scoped()) ==> reg.Scoped()
      ensures !old(Releasable()) ==>
        && handle == old(handle) && reg.handles == old(reg.handles) && unchanged(reg.driver)
        && (handle != null ==> handle.users == old(handle.users) && handle.fd == old(handle.fd))
      ensures old(Releasable()) ==>
        var h := old(handle);
        && handle == null
        && h.users == old(h.users) - 1
        && (h.users == 0 ==>
              && h.fd == -1
              && reg.driver.log == old(reg.driver.log) + [CloseCall(old(h.fd))]
              && reg.driver.openFds == old(reg.driver.openFds) - {old(h.fd)}
              && reg.handles == old(reg.handles) - {h.dev})
        && (h.users > 0 ==> h.fd == old(h.fd) && unchanged(reg.driver) && reg.handles == old(reg.handles))
    {
      if handle == null {
        return;
      }
      if handle.users <= 0 || handle.fd < 0 {
        return;
      }
      reg.Leave(handle);
      if handle.users == 0 {
        reg.handles := reg.handles - {handle.dev};
      }
      reg.LeaveKeepsTracked(handle);
      handle := null;
    }

    /** What one transaction did: nothing when the device is closed, else address selection then the transfer. */
    twostate predicate Transacted(drv: Driver, op: Op, new r: Result<int, IOError>)
      reads this, handle, drv
    {
      if !IsOpen() then
        r == Failure(AlreadyClosed) && drv.log == old(drv.log)
      else
        && r == Success(drv.respond(handle.fd, op))
        && drv.log == old(drv.log) + [SetAddrCall(handle.fd, addr), TransferCall(handle.fd, op)]
    }

    /**
      The guard and body every transaction shares: fail on a closed device, otherwise select this
      device's address on the shared descriptor and perform the transfer on that same descriptor.
    */
    method Transact(reg: Registry, op: Op) returns (r: Result<int, IOError>)
      modifies reg.driver`log
      ensures old(reg.Scoped()) ==> reg.Scoped()
      ensures Transacted(reg.driver, op, r)
    {
      if handle == null || handle.fd < 0 {
        return Failure(AlreadyClosed);
      }
      if reg.Scoped() {
        ScopedAfterTransaction(reg.driver.log, handle.fd, addr, op);
      }
      var _ := reg.driver.SetAddr(handle.fd, addr);
      var status := reg.driver.Transfer(handle.fd, op);
      return Success(status);
    }

    method ReadByte(reg: Registry) returns (r: Result<int, IOError>)
      modifies reg.driver`log
      ensures (old(reg.Scoped()) ==> reg.Scoped()) && Transacted(reg.driver, Op.ReadByte, r)
    {
      r := Transact(reg, Op.ReadByte);
    }

    method ReadByteData(reg: Registry, cmd: JByte) returns (r: Result<int, IOError>)
      modifies reg.driver`log
      ensures (old(reg.Scoped()) ==> reg.Scoped()) && Transacted(reg.driver, Op.ReadByteData(cmd), r)
    {
      r := Transact(reg, Op.ReadByteData(cmd));
    }

    method ReadWordData(reg: Registry, cmd: JByte) returns (r: Result<int, IOError>)
      modifies reg.driver`log
      ensures (old(reg.Scoped()) ==> reg.Scoped()) && Transacted(reg.driver, Op.ReadWordData(cmd), r)
    {
      r := Transact(reg, Op.ReadWordData(cmd));
    }

    method WriteByte(reg: Registry, data: JByte) returns (r: Result<int, IOError>)
      modifies reg.driver`log
      ensures (old(reg.Scoped()) ==> reg.Scoped()) && Transacted(reg.driver, Op.WriteByte(data), r)
    {
      r := Transact(reg, Op.WriteByte(data));
    }

    method WriteByteData(reg: Registry, cmd: JByte, data: JByte) returns (r: Result<int, IOError>)
      modifies reg.driver`log
      ensures (old(reg.Scoped()) ==> reg.Scoped()) && Transacted(reg.driver, Op.WriteByteData(cmd, data), r)
    {
      r := Transact(reg, Op.WriteByteData(cmd, data));
    }

    method WriteWordData(reg: Registry, cmd: JByte, data: Int32) returns (r: Result<int, IOError>)
      modifies reg.driver`log
      ensures (old(reg.Scoped()) ==> reg.Scoped()) && Transacted(reg.driver, Op.WriteWordData(cmd, data), r)
    {
      r := Transact(reg, Op.WriteWordData(cmd, data));
    }

    method Write(reg: Registry, data: seq<JByte>) returns (r: Result<int, IOError>)
      modifies reg.driver`log
      ensures (old(reg.Scoped()) ==> reg.Scoped()) && Transacted(reg.driver, Op.Write(data), r)
    {
      r := Transact(reg, Op.Write(data));
    }

    /** The buffer's contents are not modelled: only its length reaches the transfer. */
    method Read(reg: Registry, data: array<JByte>) returns (r: Result<int, IOError>)
      modifies reg.driver`log
      ensures (old(reg.Scoped()) ==> reg.Scoped()) && Transacted(reg.driver, Op.Read(data.Length), r)
    {
      r := Transact(reg, Op.Read(data.Length));
    }

    /** The read buffer's contents are not modelled: only its length reaches the transfer. */
    method WriteRead(reg: Registry, wdata: seq<JByte>, rdata: array<JByte>) returns (r: Result<int, IOError>)
      modifies reg.driver`log
      ensures (old(reg.Scoped()) ==> reg.Scoped()) && Transacted(reg.driver, Op.WriteRead(wdata, rdata.Length), r)
    {
      r := Transact(reg, Op.WriteRead(wdata, rdata.Length));
    }

    /**
      The description of the device: a fixed text once it is closed, otherwise the bus device file
      and the address as two upper-case hex digits, which read back as the address.
    */
    function ToString(): (s: string)
      reads this, handle
      ensures !IsOpen() ==> s == ClosedDescription
      ensures IsOpen() ==>
        && |s| == |OpenPrefix| + |handle.dev| + 3
        && s[..|OpenPrefix|] == OpenPrefix
        && s[|OpenPrefix|..|OpenPrefix| + |handle.dev|] == handle.dev
        && s[|s| - 3] == ':'
        && IsUpperHexDigit(s[|s| - 2]) && IsUpperHexDigit(s[|s| - 1])
        && HexValue(s[|s| - 2..]) == Unsigned(addr)
    {
      if handle == null || handle.fd < 0 then ClosedDescription
      else OpenPrefix + handle.dev + ":" + Hex2(addr)
    }
  }

  const ClosedDescription := "I2CDevice: closed"
  const OpenPrefix := "I2CDevice : "

  /** A digit `%X` writes: 0-9 or an upper-case A-F. */
  predicate IsUpperHexDigit(c: char)
  {
    '0' <= c <= '9' || 'A' <= c <= 'F'
  }

  function DigitValue(c: char): (v: int)
    requires IsUpperHexDigit(c)
    ensures 0 <= v < 16
  {
    if c <= '9' then c as int - '0' as int else c as int - 'A' as int + 10
  }

  function HexDigit(d: int): (c: char)
    requires 0 <= d < 16
    ensures IsUpperHexDigit(c) && DigitValue(c) == d
  {
    if d < 10 then ('0' as int + d) as char else ('A' as int + d - 10) as char
  }

  /** The number two upper-case hex digits stand for. */
  function HexValue(s: string): int
    requires |s| == 2 && IsUpperHexDigit(s[0]) && IsUpperHexDigit(s[1])
  {
    16 * DigitValue(s[0]) + DigitValue(s[1])
  }

  /** `String.format("%02X", b)` of a Java byte: two upper-case hex digits of its unsigned value. */
  function Hex2(b: JByte): (s: string)
    ensures |s| == 2 && IsUpperHexDigit(s[0]) && IsUpperHexDigit(s[1])
    ensures HexValue(s) == Unsigned(b)
  {
    [HexDigit(Unsigned(b) / 16), HexDigit(Unsigned(b) % 16)]
  }

  /** The description tells a closed device from an open one. */
  lemma DescriptionTellsState(d: Device)
    ensures d.ToString() == ClosedDescription <==> !d.IsOpen()
  {
    if d.IsOpen() {
      assert d.ToString()[9] == ' ' != ClosedDescription[9];
    }
  }
}
