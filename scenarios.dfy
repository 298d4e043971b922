/**
  Client runs of the I2C device class against a fake bus, each stated by what its results must be:
  two devices sharing one bus, a device that outlives closeAll because an earlier close dropped its
  record from the map, and the same run with close as intended.
*/
module Scenarios {
  import opened Base
  import opened NativeBus
  import opened I2C

  const Bus := "/dev/i2c-1"

  /** What the fake bus answers to every transfer. */
  function Answer(fd: int, op: Op): int
  {
    0x5A
  }

  /** A registry over a fresh fake bus on which every path opens, with nothing open yet. */
  method NewRegistry() returns (reg: Registry)
    ensures fresh(reg) && fresh(reg.driver)
    ensures reg.Valid() && reg.Tracked() && reg.handles == map[] && reg.records == {}
    ensures reg.driver.unavailable == {} && reg.driver.respond == Answer
    ensures reg.driver.openFds == {} && reg.driver.log == []
  {
    var drv := new Driver({}, Answer);
    reg := new Registry(drv);
  }

  /** Two devices opened on `Bus` of an empty registry: one new record with two users. */
  method OpenTwo(reg: Registry, addr1: JByte, addr2: JByte) returns (a: Device, b: Device)
    requires 0 <= addr1 && 0 <= addr2
    requires reg.Valid() && reg.Tracked() && reg.handles == map[] && reg.driver.unavailable == {}
    modifies reg, reg.driver
    ensures reg.Valid() && reg.Tracked() && fresh(a) && fresh(b) && a != b
    ensures a.addr == addr1 && b.addr == addr2
    ensures a.handle != null && a.handle == b.handle && fresh(a.handle) && a.handle in reg.records
    ensures a.handle.dev == Bus && a.handle.users == 2 && a.handle.fd >= 0
    ensures reg.handles == map[Bus := a.handle] && reg.records == old(reg.records) + {a.handle}
    ensures reg.driver.openFds == old(reg.driver.openFds) + {a.handle.fd}
    ensures reg.driver.log == old(reg.driver.log) + [OpenCall(Bus, a.handle.fd)]
  {
    var ra := reg.Open(Bus, addr1);
    a := ra.value;
    var rb := reg.Open(Bus, addr2);
    b := rb.value;
  }

  /**
    Two devices at 0x60 and 0x44 on one bus: the second open reuses the first one's record and
    descriptor and only counts a second user; a read at 0x60 selects 0x60 and sends the command on
    that descriptor; the first close keeps the descriptor open and makes no driver call, the second
    closes it and leaves the map empty. `log` is every native call of the run.
  */
  method SharedBus() returns (fd: int, shared: bool, usersAfterOpens: int, read: Result<int, IOError>,
                              usersAfterFirstClose: int, openAfterFirstClose: bool,
                              usersAfterSecondClose: int, mapEmpty: bool, ghost log: seq<Call>)
    ensures fd >= 0 && shared && usersAfterOpens == 2
    ensures read == Success(0x5A)
    ensures usersAfterFirstClose == 1 && openAfterFirstClose
    ensures usersAfterSecondClose == 0 && mapEmpty
    ensures log == [OpenCall(Bus, fd), SetAddrCall(fd, 0x60), TransferCall(fd, Op.ReadByteData(0x03)), CloseCall(fd)]
  {
    var reg := NewRegistry();
    var a, b := OpenTwo(reg, 0x60, 0x44);
    var h := a.handle;
    fd := h.fd;
    shared := a.handle == b.handle;
    usersAfterOpens := h.users;
    read := a.ReadByteData(reg, 0x03);
    usersAfterFirstClose, openAfterFirstClose, usersAfterSecondClose := CloseBoth(reg, a, b);
    mapEmpty := reg.handles == map[];
    log := reg.driver.log;
  }

  /**
    The two devices of one record close in turn: the first close only counts a user out and makes
    no driver call, the second closes the descriptor; the map ends empty.
  */
  method CloseBoth(reg: Registry, a: Device, b: Device) returns (usersAfterFirstClose: int, openAfterFirstClose: bool, usersAfterSecondClose: int)
    requires reg.Valid() && a != b && a.handle != null && a.handle == b.handle && a.handle in reg.records
    requires a.handle.users == 2 && a.handle.fd >= 0 && reg.handles == map[a.handle.dev := a.handle]
    modifies reg, reg.driver, a, b, a.handle
    ensures usersAfterFirstClose == 1 && openAfterFirstClose && usersAfterSecondClose == 0
    ensures reg.handles == map[]
    ensures reg.driver.log == old(reg.driver.log) + [CloseCall(old(a.handle.fd))]
  {
    var h := a.handle;
    var fd := h.fd;
    b.Close(reg);
    usersAfterFirstClose := h.users;
    openAfterFirstClose := h.fd == fd && fd in reg.driver.openFds;
    a.Close(reg);
    usersAfterSecondClose := h.users;
  }

  /**
    With close as written, the second of two devices on one bus closes and then closeAll runs:
    the record has lost its map entry but not its last user, so closeAll leaves it open.
  */
  method CloseOneThenAll(reg: Registry, a: Device, b: Device)
    requires reg.Valid() && a != b && a.handle != null && a.handle == b.handle && a.handle in reg.records
    requires a.handle.users == 2 && a.handle.fd >= 0 && reg.handles == map[a.handle.dev := a.handle]
    modifies reg, reg.driver, b, a.handle
    ensures reg.Valid() && reg.handles == map[] && a.handle == old(a.handle) && a.handle in reg.records
    ensures a.handle.users == 1 && a.handle.fd == old(a.handle.fd)
    ensures reg.driver.openFds == old(reg.driver.openFds)
  {
    b.Close(reg);
    var _, _ := reg.CloseAll();
  }

  /**
    With close as written: A and B open one bus, B closes, closeAll runs, and A still reads; a
    later open of the same bus gets a second descriptor while the first is still open.
  */
  method StaleDeviceSurvivesCloseAll() returns (read: Result<int, IOError>, fd1: int, fd2: int)
    ensures read.Success?
    ensures 0 <= fd1 && 0 <= fd2 && fd1 != fd2
  {
    var reg := NewRegistry();
    var a, b := OpenTwo(reg, 0x10, 0x11);
    var h := a.handle;
    fd1 := h.fd;
    CloseOneThenAll(reg, a, b);
    read := a.ReadByte(reg);
    assert reg.RecordOk(h);
    var rc := reg.Open(Bus, 0x12);
    fd2 := rc.value.handle.fd;
  }

  /** The same run with close as intended: closeAll reaches A's record and A's read fails. */
  method CloseAllReachesEveryDevice() returns (read: Result<int, IOError>)
    ensures read == Failure(AlreadyClosed)
  {
    var reg := NewRegistry();
    var a, b := OpenTwo(reg, 0x10, 0x11);
    b.CloseIntended(reg);
    var _, _ := reg.CloseAll();
    read := a.ReadByte(reg);
  }
}
