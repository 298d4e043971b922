# jhwbus I2C device, modelled in Dafny

This project models the I2C device class of jhwbus (`org.arl.jhwbus.I2CDevice`), which gives Java
access to Linux I2C buses. The class keeps a process-wide map from a bus device file path
(`/dev/i2c-1`) to one shared record. The record holds the bus's open descriptor and a count of the
device objects using it. `open` creates a device object bound to that record and to one slave
address. Each transaction (`readByte` … `writeRead`) first selects the device's address on the
shared descriptor and then performs the transfer. `close` releases the device's share of the
record, `closeAll` closes every bus in the map, and `toString` and the word/byte helpers are small
utilities.

Modules:

- `Base` holds the Java `byte` (−128..127) and `int` types, the unsigned value of a byte, and the `Result` type that stands for "returns or throws".
- `NativeBus` models the JNI layer. A `Driver` hands out fresh descriptors, or a negative code for a bus that cannot be opened. It keeps the set of open descriptors, answers transfers through a fixed response function, and records every call in a ghost log. `AddressScoped` states that every transfer in the log comes right after an address selection on the same descriptor.
- `I2C` models the class itself:
  - `Handle` is the shared record, with mutable `fd` and `users`.
  - `Registry` is the static map, with open and closeAll. Its ghost `records` is every record a successful open has created, and its ghost `owners` maps each descriptor to its record.
  - `Device` is a device object, with close, the nine transactions and toString.
  - `Registry.Valid()` is the invariant every operation keeps:
    - a record is either closed with no users, or has users and an open descriptor that no other record holds;
    - the map holds only records with users, each under its own path.
  - `Registry.Tracked()` says that every record with users is the one the map holds for its path. It is the invariant that close as written breaks (see Findings).
- `WordHelpers` models `byteArrayToWord` and `wordToByteArray` as written, and the conversions they are meant to perform.
- `Scenarios` holds client runs with fixed results: the shared-bus walk-through, and the close/closeAll run that shows the first finding.

The Java static map and static methods become a `Registry` object. Device methods receive that
registry as a parameter. Each `synchronized` block is one atomic step.

Facts about the code that the model keeps:

- **Addresses.** `open` rejects only negative addresses. `addr` is a Java `byte`, so the accepted addresses are 0..127.
- **Address selection.** The result of `I2CSetAddr` is ignored, so a failed address selection does not surface as an error.
- **`close` and the map.** `close` removes the path's map entry whenever it releases a user, even when other users remain.

## Model

| member | source | states |
|---|---|---|
| NativeBus.Driver.Open | src/main/java/org/arl/jhwbus/I2CDevice.java:293 | a bus that cannot be opened gives a negative code and changes no open descriptor; any other bus gives a non-negative descriptor not already open, which becomes open; the call is logged |
| NativeBus.Driver.Close | src/main/java/org/arl/jhwbus/I2CDevice.java:304 | the descriptor is no longer open and the call is logged |
| NativeBus.Driver.SetAddr | src/main/java/org/arl/jhwbus/I2CDevice.java:294 | the selection is logged; the status is 0 on an open descriptor and negative otherwise |
| NativeBus.Driver.Transfer | src/main/java/org/arl/jhwbus/I2CDevice.java:295-303 | the transfer is logged and returns the bus's answer for that descriptor and operation |
| NativeBus.ScopedAfterCall | src/main/java/org/arl/jhwbus/I2CDevice.java:54-112 | the native calls of open, close and closeAll (open, close, address selection) keep every logged transfer paired with the address selection before it |
| NativeBus.ScopedAfterTransaction | src/main/java/org/arl/jhwbus/I2CDevice.java:117-123 | an address selection followed at once by a transfer on the same descriptor keeps that pairing |
| NativeBus.UnscopedTransfer | src/main/java/org/arl/jhwbus/I2CDevice.java:117-123 | a transfer not directly preceded by an address selection on its descriptor breaks the pairing, so the selection in each transaction is what keeps it |
| I2C.Handle.constructor | src/main/java/org/arl/jhwbus/I2CDevice.java:38-43 | a new record for the path, closed: descriptor −1 and no users |
| I2C.Registry.constructor | src/main/java/org/arl/jhwbus/I2CDevice.java:46 | the map starts empty, and the invariant and Tracked hold |
| I2C.Registry.OpenExactlyWhenUsed | src/main/java/org/arl/jhwbus/I2CDevice.java:38-39 | under the invariant a record has an open descriptor exactly when it has users, and the count is never negative |
| I2C.Registry.LiveRecordsShareNoDescriptor | src/main/java/org/arl/jhwbus/I2CDevice.java:56-63 | under the invariant two records with users never hold the same descriptor |
| I2C.Registry.Open | src/main/java/org/arl/jhwbus/I2CDevice.java:54-67 | a negative address fails with nothing changed; a path in the map gives a new device on the same record and descriptor with one more user, with no driver call and no other change; a path not in the map makes exactly one driver open, and fails with its negative code and no map entry when the bus cannot be opened, or else maps the path to a new record with that descriptor and one user; keeps Valid, Tracked and the address pairing of the log |
| I2C.Registry.Join | src/main/java/org/arl/jhwbus/I2CDevice.java:57-64 | the path's record gains one user and keeps its descriptor; a new device at the address is bound to it; the invariant and Tracked are kept |
| I2C.Registry.Connect | src/main/java/org/arl/jhwbus/I2CDevice.java:58-64 | one driver open; it fails exactly when the bus cannot be opened, changing neither the map nor the records; otherwise a new record for the path with the new descriptor and one user enters the map and the records |
| I2C.Registry.ConnectKeepsValid | src/main/java/org/arl/jhwbus/I2CDevice.java:58-65 | registering a new record with a fresh open descriptor keeps the invariant and Tracked |
| I2C.Registry.CloseAll | src/main/java/org/arl/jhwbus/I2CDevice.java:72-83 | each record in the map, visited once each, has its descriptor closed once, in visiting order, and ends with no users and descriptor −1; the map is empty; records outside the map are untouched; when Tracked held before, every record ends closed |
| I2C.Registry.Values | src/main/java/org/arl/jhwbus/I2CDevice.java:75 | the iteration over the map's values visits each record exactly once |
| I2C.Registry.ReleaseAll | src/main/java/org/arl/jhwbus/I2CDevice.java:75-81 | the loop: each visited record loses all users and its descriptor, the log gains one close per record in order, and the open descriptors lose exactly those |
| I2C.Registry.Release | src/main/java/org/arl/jhwbus/I2CDevice.java:76-80 | one record ends with no users and descriptor −1, its descriptor closed by one driver call |
| I2C.Registry.Leave | src/main/java/org/arl/jhwbus/I2CDevice.java:101-107 | one user fewer; at zero users the descriptor is closed by one driver call and set to −1, otherwise nothing else changes |
| I2C.Registry.LeaveKeepsTracked | src/main/java/org/arl/jhwbus/I2CDevice.java:101-110 | removing the entry only with the last user keeps Tracked |
| I2C.Device.constructor | src/main/java/org/arl/jhwbus/I2CDevice.java:90-93 | a device bound to the given record and address |
| I2C.Device.Close | src/main/java/org/arl/jhwbus/I2CDevice.java:98-112 | no change when the handle is null, the record has no users or its descriptor is negative (so a second close does nothing); otherwise one user fewer, the descriptor closed and set to −1 exactly when users reach zero, the path's entry removed whatever the count, and the handle cleared; keeps Valid |
| I2C.Device.CloseIntended | src/main/java/org/arl/jhwbus/I2CDevice.java:98-112 | as close, except that the map entry goes only with the last user; keeps Valid and Tracked |
| I2C.Device.Transact | src/main/java/org/arl/jhwbus/I2CDevice.java:117-123 | a device whose handle is null or whose descriptor is negative fails with "already closed" and makes no driver call; otherwise selects its address, then transfers on the same descriptor and returns the answer; changes nothing but the call log |
| I2C.Device.ReadByte | src/main/java/org/arl/jhwbus/I2CDevice.java:117-123 | the guard, then the address selection and the byte read on the same descriptor |
| I2C.Device.ReadByteData | src/main/java/org/arl/jhwbus/I2CDevice.java:128-134 | the guard, then the address selection and the command byte read |
| I2C.Device.ReadWordData | src/main/java/org/arl/jhwbus/I2CDevice.java:139-145 | the guard, then the address selection and the command word read |
| I2C.Device.WriteByte | src/main/java/org/arl/jhwbus/I2CDevice.java:150-156 | the guard, then the address selection and the byte write |
| I2C.Device.WriteByteData | src/main/java/org/arl/jhwbus/I2CDevice.java:161-167 | the guard, then the address selection and the command byte write |
| I2C.Device.WriteWordData | src/main/java/org/arl/jhwbus/I2CDevice.java:172-178 | the guard, then the address selection and the command word write |
| I2C.Device.Write | src/main/java/org/arl/jhwbus/I2CDevice.java:183-189 | the guard, then the address selection and the block write |
| I2C.Device.Read | src/main/java/org/arl/jhwbus/I2CDevice.java:194-200 | the guard, then the address selection and the block read of the buffer's length |
| I2C.Device.WriteRead | src/main/java/org/arl/jhwbus/I2CDevice.java:205-211 | the guard, then the address selection and the combined write and read |
| I2C.Device.ToString | src/main/java/org/arl/jhwbus/I2CDevice.java:219-222 | "I2CDevice: closed" for a device without a handle or with a negative descriptor; otherwise "I2CDevice : ", the bus path, ':' and two upper-case hex digits that read back as the address |
| I2C.Hex2 | src/main/java/org/arl/jhwbus/I2CDevice.java:221 | two upper-case hex digits whose value is the byte's unsigned value |
| I2C.DescriptionTellsState | src/main/java/org/arl/jhwbus/I2CDevice.java:219-222 | the description is the closed text exactly when the device is not open |
| WordHelpers.GetInt | src/main/java/org/arl/jhwbus/I2CDevice.java:231 | fails with an underflow exactly when fewer than four bytes are available; otherwise the int whose 32-bit pattern is the first four bytes, most significant first |
| WordHelpers.PutInt | src/main/java/org/arl/jhwbus/I2CDevice.java:239 | fails with an overflow exactly when the buffer has fewer than four bytes; otherwise an array of the buffer's length that reads back as the word, zero after the first four bytes |
| WordHelpers.ByteArrayToWord | src/main/java/org/arl/jhwbus/I2CDevice.java:229-232 | rejects arrays whose length is not 2 as an illegal argument, and always fails |
| WordHelpers.WordToByteArray | src/main/java/org/arl/jhwbus/I2CDevice.java:237-240 | rejects words outside 0..65535 as an illegal argument, and always fails |
| WordHelpers.BytesToWord | src/main/java/org/arl/jhwbus/I2CDevice.java:229-232 | succeeds exactly on two bytes, giving the word in 0..65535 whose high byte is the first and low byte the second |
| WordHelpers.WordToBytes | src/main/java/org/arl/jhwbus/I2CDevice.java:237-240 | succeeds exactly on words in 0..65535, giving the high byte then the low byte |
| WordHelpers.WordRoundTrip | src/main/java/org/arl/jhwbus/I2CDevice.java:229-240 | every word in range comes back from its bytes |
| WordHelpers.BytesRoundTrip | src/main/java/org/arl/jhwbus/I2CDevice.java:229-240 | every pair of bytes comes back from its word |
| WordHelpers.ByteArrayToWordFailsOnValidPair | src/main/java/org/arl/jhwbus/I2CDevice.java:229-232 | the bytes 0x12, 0x34 make the helper as written throw an underflow where the word 0x1234 is meant |
| WordHelpers.WordToByteArrayFailsOnValidWord | src/main/java/org/arl/jhwbus/I2CDevice.java:237-240 | the word 0x1234 makes the helper as written throw an overflow where the bytes 0x12, 0x34 are meant |
| Scenarios.OpenTwo | src/main/java/org/arl/jhwbus/I2CDevice.java:54-67 | two opens of one bus give two devices on one record with two users and one driver open |
| Scenarios.SharedBus | src/main/java/org/arl/jhwbus/I2CDevice.java:54-134 | two devices share one record and descriptor with two users; the whole run's native calls are exactly one open, the selection of 0x60 and the command 0x03 read on that descriptor, and one close of it; the first close leaves one user and the descriptor open, the second leaves no users and an empty map |
| Scenarios.CloseBoth | src/main/java/org/arl/jhwbus/I2CDevice.java:98-112 | of two devices on one record, the first close leaves one user and the descriptor open with no driver call, the second closes the descriptor with one driver call; the map ends empty |
| Scenarios.CloseOneThenAll | src/main/java/org/arl/jhwbus/I2CDevice.java:72-112 | after one of two devices closes and closeAll runs, the map is empty but the other device's record keeps one user and its descriptor open |
| Scenarios.StaleDeviceSurvivesCloseAll | src/main/java/org/arl/jhwbus/I2CDevice.java:72-123 | with close as written, a device still reads after closeAll, and a later open of its bus gets a second descriptor |
| Scenarios.CloseAllReachesEveryDevice | src/main/java/org/arl/jhwbus/I2CDevice.java:72-123 | with close as intended, the same device fails as already closed after closeAll |

## Left out

- Synchronization: each `synchronized` block is one atomic step. Interleavings of threads are not modelled, including the unsynchronized guards at the top of close and of each transaction.
- `finalize` only calls `close`, so it is not modelled apart from `I2C.Device.Close`.
- The static initializer, which loads the native library, is not modelled. Neither is the logger.
- The native function bodies in `src/main/c/i2c.c` are not modelled. The `NativeBus.Driver` stands for them. It returns fresh descriptors or a negative code, and answers transfers through a fixed function of the descriptor and the operation.
- NativeBus.Driver.SetAddr: its status is computed but, like the source, no caller uses it.
- I2C.Device.Read and I2C.Device.WriteRead: only the read buffer's length reaches the transfer. The bytes the bus writes into the buffer are not modelled.
- I2C.Handle: `users` is an unbounded integer. The Java `int` at line 64 would wrap after 2^31 opens of one bus; nothing in the class relies on that.
- Exception message texts are not modelled. They are reduced to the `IOError` and `ConversionError` constructors.
- I2C.Registry.CloseAll: the iteration order of the Java `HashMap` is not modelled. The contract holds for any order and returns the order taken as a ghost sequence.

## Findings

| source | as written | input that shows it | evidently intended | confidence | as-written member | corrected member |
|---|---|---|---|---|---|---|
| src/main/java/org/arl/jhwbus/I2CDevice.java:108-110 | `close` removes the path's map entry even when the record still has users | A and B open `/dev/i2c-1`; B closes (one user left, entry removed); `closeAll` no longer reaches the record, so A still reads, and a new open of the bus opens a second descriptor | remove the entry only when the last user goes, so that closeAll closes every open record | not executed | Scenarios.StaleDeviceSurvivesCloseAll | I2C.Device.CloseIntended |
| src/main/java/org/arl/jhwbus/I2CDevice.java:229-240 | `byteArrayToWord` reads a 4-byte int from a 2-byte buffer, and `wordToByteArray` writes one into a 2-byte buffer, so both throw on every accepted argument | `byteArrayToWord({0x12, 0x34})` throws BufferUnderflowException; `wordToByteArray(0x1234)` throws BufferOverflowException | the 16-bit word from two bytes, most significant first, and its inverse | not executed | WordHelpers.ByteArrayToWordFailsOnValidPair | WordHelpers.BytesRoundTrip |
