# Verified models of the lab drivers, logs and PCIe hardware

This project models the parts of the repository in which a state machine must keep a promise over every run, and
proves those promises: the power-fail-safe fault log (lab 24), the asynchronous UART receive driver and its buffer
manager (lab 20), the PCIe host hardware with its polling driver (labs H1 to H3), the bit-banged I2C controller with
the EEPROM driver (lab 14), and five smaller cores (labs 11, 18, 19, 23 and 25).

Each component has two layers. Functions on values say what one call, interrupt or clock edge does to the whole state;
lemmas about them carry the properties. Where the original updates things in place, a class does the same, and the
contract of every method says that the new state is that function of the old one. Hardware modules are one function
per clock edge in which all right-hand sides read the old registers and the last assignment wins; the classes keep the
registers of a module as one record for the same reason.

## How the parts are modelled

**Fault log.** The EEPROM is a sequence of bytes with a list of fates, one per write: how many eight-byte pages the
write completes, which bytes of the next page arrive, and what status the driver reports, true or not. Reads give the
true bytes or an error. The specification is an unbounded list of committed codes; the sequence numbers in the image
are that list's positions modulo 2^32. Serial numbers are compared as in section 3.2 of RFC 1982. The reflected CRC
loop is proved equal to division of the message polynomial by the IEEE 802.3 generator (section 3.2.9).

**UART receive.** A client is a script of calls for each of its callbacks, or the buffer manager. What an observer sees
(events, accepted calls, stored bytes) is a trace; a separate protocol automaton says which traces are allowed. The
status and data registers are parameters of an interrupt. Regions under `irq_lock` are single steps.

**PCIe.** For lab H2 the bridge, the packet encoder, the delayed endpoint and the decoder are wired together, and the
driver's accesses are AHB transfers with any behaviour of the rest of the bus in between, including none. For lab H3
both AHB ports are driven by arbitrary masters in every clock. Address decoding with masks is written with quotients
and remainders; `error_status` is a record of the four bits that are ever set.

**I2C and EEPROM.** Two open-drain wires, a record of every level change, a decoder that knows only the record
(sections 3.1.3 to 3.1.6 of UM10204), and a target that moves SDA only when SCL has just fallen. The target is an
arbitrary script of answers and bytes, or an EEPROM with pages, an address pointer and a busy time after each write.

**Smaller cores.** The ring buffer is modelled access by access; the boot log with any number of handles and arbitrary
contents left by a torn write; BAR windows in 32-bit arithmetic; enumeration over any configuration space that reads do
not change; the watchdog with any number of threads and an explicit mutex.

## Where the code does less than it seems

- With a window based at address 0, `lab_pcie_resource_alloc` can give the same range twice: `align_up` wraps to 0 and
  0 passes the check against the base. `BarWindow.ReuseExactlyOnWrap` gives the exact condition and
  `BarWindow.ZeroBaseGivesTwice` an instance.
- `mps2_i2c_recover_bus` stops clocking at the first 1 that a stuck target sends and then generates a STOP, which clocks
  out one bit more. If that bit is 0 the bus stays busy. `I2cRecovery.RecoverIsExact` gives the exact condition for
  every state a target can be stuck in; `I2cRecovery.RecoverCanFail` (in the middle of a byte) and
  `I2cRecovery.RecoverCanFailAnswering` (in the acknowledge bit of its read address) are instances.
- `mps2_i2c_transfer` releases the lines after every failure except a refusal: a call refused with `ERR_ARGUMENT` or
  `ERR_ADDRESS` leaves a bus held that an earlier call without STOP had left held. `I2cTransfer.TransferReleases` gives
  the exact condition and `I2cTransfer.RefusedCallKeepsHolding` an instance.
- `eeprom_write` compares the page size with a negative error code as an unsigned number
  (labs/lab14_mps2_mmio_i2c/eeprom.c:48), so the comparison does not keep the payload inside the local buffer of 34
  bytes. `I2cEeprom.PageBoundsPayload` gives the exact condition on the device description under which every accepted
  payload fits and `I2cEeprom.PayloadCanOverrun` an accepted request whose payload does not.
- `lab_pcie_probe_bar32` does not notice a function that is not there: all ones look like an I/O BAR, and it reports OK
  with a size of 4 (`BarProbe.AbsentLooksLikeIo`). On the simulated host an I/O BAR loses the address bits 2 and 3 when it
  is placed (`BarProbe.AssignPlacesIo`).
- The scratch page of a fault record (bytes 16 to 23) is not covered by any check: `FaultLogCorruption.SparePageIsIgnored`.

## Model

| member | source | states |
|---|---|---|
| Words.LoadOfStore | labs/lab24_eeprom_fault_logger_zephyr/src/fault_log.c:17-26 | storing a 32-bit word little-endian and loading it gives the word back |
| Words.StoreOfLoad | labs/lab24_eeprom_fault_logger_zephyr/src/fault_log.c:17-26 | loading four bytes and storing the word gives the bytes back |
| Words.Store | labs/lab24_eeprom_fault_logger_zephyr/src/fault_log.c:22-26 | the shift loop writes the little-endian bytes of the word into the buffer and nothing else |
| Crc.Compute | labs/lab24_eeprom_fault_logger_zephyr/src/fault_log.c:29-41 | the byte and bit loops over a buffer compute the CRC function of its contents |
| Crc.FeedConcat | labs/lab24_eeprom_fault_logger_zephyr/src/fault_log.c:32-38 | feeding a concatenation is feeding the parts in turn |
| CrcRegister.Crc32IsPolynomialDivision | labs/lab24_eeprom_fault_logger_zephyr/src/fault_log.c:28-41 | for messages of every length the reflected loop is the bit-reversed complement of the remainder of the polynomial division by the IEEE 802.3 generator, with the first 32 bits complemented |
| CrcRegister.ShiftBitIsClock | labs/lab24_eeprom_fault_logger_zephyr/src/fault_log.c:35-37 | one reflected shift is one clock of the MSB-first division register |
| CrcDivision.SerialIsRemainder | labs/lab24_eeprom_fault_logger_zephyr/src/fault_log.c:29-41 | the shift register holds the remainder of long division for every bit string |
| CrcDivision.SerialIsInjective | labs/lab24_eeprom_fault_logger_zephyr/src/fault_log.c:35-37 | feeding the same bits to different register contents leaves them different |
| CrcRegister.Crc32DetectsBurst | labs/lab24_eeprom_fault_logger_zephyr/src/fault_log.c:29-41 | two messages that differ only within four consecutive bytes have different CRCs |
| FaultLogCorruption.PayloadBurstIsDetected | labs/lab24_eeprom_fault_logger_zephyr/src/fault_log.c:47-51 | changing any bytes within four consecutive payload bytes makes a valid record invalid |
| FaultLogCorruption.ByteChangeIsDetected | labs/lab24_eeprom_fault_logger_zephyr/src/fault_log.c:47-51 | changing any one byte outside the spare page makes a valid record invalid |
| FaultLogCorruption.SparePageIsIgnored | labs/lab24_eeprom_fault_logger_zephyr/src/fault_log.c:47-51 | changes in the spare page change neither validity nor contents of a record |
| FaultLogRecovery.InitIsExact | labs/lab24_eeprom_fault_logger_zephyr/src/fault_log.c:74-137 | on a readable image the scan succeeds with newest slot s exactly if all other valid slots have modular age 1 to 7 from s, or none is valid; otherwise EILSEQ |
| FaultLogRecovery.FoldKeepsNewest | labs/lab24_eeprom_fault_logger_zephyr/src/fault_log.c:53-56 | the running comparison with the non-transitive `newer` ends at the newest slot whatever the slot order, across wrap |
| FaultLogRecovery.NewestIsUnique | labs/lab24_eeprom_fault_logger_zephyr/src/fault_log.c:123-132 | at most one slot can be the newest |
| FaultLogAtomic.AppendIsAtomic | labs/lab24_eeprom_fault_logger_zephyr/src/fault_log.c:139-209 | whatever fates its six accesses meet, an append leaves all other slots alone and its own slot as before, empty, or holding the new record; success means it holds the record |
| FaultLogAtomic.InvalidateIsAtomic | labs/lab24_eeprom_fault_logger_zephyr/src/fault_log.c:161-174 | an append from its first phase on, whatever fails, leaves the slot with its old record, none, or the new one |
| FaultLogAtomic.ProgramIsAtomic | labs/lab24_eeprom_fault_logger_zephyr/src/fault_log.c:176-188 | once the token is invalid, whatever fails leaves the slot with no record or the new one |
| FaultLogAtomic.PublishIsAtomic | labs/lab24_eeprom_fault_logger_zephyr/src/fault_log.c:190-208 | once the body stands, publishing leaves the whole record or none, and success means the record |
| FaultLogAtomic.FaultFreeAppendSucceeds | labs/lab24_eeprom_fault_logger_zephyr/src/fault_log.c:139-209 | without faults an append on a usable log succeeds |
| FaultLogRuns.AppendIsConsistent | labs/lab24_eeprom_fault_logger_zephyr/src/fault_log.c:139-209 | an append extends the committed history by its code or not at all, and always when it reports success, through sequence wrap |
| FaultLogRuns.LatestIsConsistent | labs/lab24_eeprom_fault_logger_zephyr/src/fault_log.c:211-240 | asking for the latest record keeps the log consistent and answers with the last committed code |
| FaultLogRuns.CrashConsistency | labs/lab24_eeprom_fault_logger_zephyr/src/fault_log.c:74-240 | from any image without a valid slot, after any appends, I/O errors, torn writes, power cycles and scans, a fault-free scan succeeds and gives the last code of a history that contains every successful append, any failed ones, and nothing else; after any further events the same holds of a history that extends this one |
| FaultLogRuns.HistoryOnlyGrows | labs/lab24_eeprom_fault_logger_zephyr/src/fault_log.c:139-209 | whatever happens after a run, its committed history is a prefix of the later one |
| FaultLogService.ServiceIsRestored | labs/lab24_eeprom_fault_logger_zephyr/src/fault_log.c:74-240 | from every state a run can reach, after power-up, working accesses and a scan the next append succeeds and its code is the latest |
| FaultLogService.ErasedHoldsNothing | labs/lab24_eeprom_fault_logger_zephyr/src/fault_log.c:47-51 | an erased image, whatever its erase value, holds no record, so that runs may start from it |
| FaultLogService.RefusalsAreExact | labs/lab24_eeprom_fault_logger_zephyr/src/fault_log.c:58-72 | a context without device, without scan or with a slot that is none, and a device that is not ready, are refused with their codes and nothing is touched; every other call goes on to the device |
| FaultLogService.ScanReportsFirstFailure | labs/lab24_eeprom_fault_logger_zephyr/src/fault_log.c:92-107 | a scan ends with the status of its first failing read and a cleared context; without one it answers as on a working device |
| FaultLogService.LatestIsExact | labs/lab24_eeprom_fault_logger_zephyr/src/fault_log.c:211-240 | on a log that stands for a history: no entry, the status of a failing read, or the last code, with the context unchanged |
| FaultLogService.LatestChecksRecord | labs/lab24_eeprom_fault_logger_zephyr/src/fault_log.c:227-237 | unless the newest slot is a valid record with the remembered sequence number the answer is an error and the context is lost |
| FaultLogService.NewerIsAhead | labs/lab24_eeprom_fault_logger_zephyr/src/fault_log.c:53-56 | a number is newer if it lies less than 2^31 ahead, across wrap |
| FaultLogService.SuccessIsFormatted | labs/lab24_eeprom_fault_logger_zephyr/src/fault_log.c:139-209 | an append that reports success has left magic, sequence, code and CRC little-endian in bytes 0 to 15 and the token in bytes 24 to 31 of the slot after the newest, with the next sequence number |
| FaultLogService.ViewIsFormat | labs/lab24_eeprom_fault_logger_zephyr/src/fault_log.c:43-51 | a slot is valid with a sequence and a code exactly if it has that format |
| EepromDevice.LandedByPages | labs/lab24_eeprom_fault_logger_zephyr/src/fault_log.c:162-165 | whatever becomes of a write, its first pages hold the new bytes, the next one a byte-wise mix of old and new, and every other byte of the device is as before |
| EepromDevice.Eeprom.WriteBytes | labs/lab24_eeprom_fault_logger_zephyr/src/fault_log.c:162-165 | the call leaves the bytes as that page rule says for its fate, and without a fault all its data, reporting success |
| FaultLogProgram.FaultLog.Recover | labs/lab24_eeprom_fault_logger_zephyr/src/fault_log.c:74-137 | the two scan loops compute the specified recovery on device and context, including every error return |
| FaultLogProgram.FaultLog.Record | labs/lab24_eeprom_fault_logger_zephyr/src/fault_log.c:139-209 | the three verified phases compute the specified append |
| FaultLogProgram.FaultLog.Newest | labs/lab24_eeprom_fault_logger_zephyr/src/fault_log.c:211-240 | the call computes the specified latest record and invalidates the context on a mismatch |
| UartMonitor.EachBufferReleasedOnce | labs/lab20_uart_async_rx_manager_zephyr/drivers/uart/uart_cmsdk_async.c:93-151 | in an allowed trace buffers come back once each, in the order taken; the others are the ones held |
| UartMonitor.SpansTileStored | labs/lab20_uart_async_rx_manager_zephyr/drivers/uart/uart_cmsdk_async.c:74-91 | in an allowed trace the RX_RDY spans cover the stored cells in order without gap or repeat |
| UartMonitor.EachSessionClosedOnce | labs/lab20_uart_async_rx_manager_zephyr/drivers/uart/uart_cmsdk_async.c:105-151 | in an allowed trace every session but an open one has one DISABLED, with no buffer outstanding |
| UartMonitor.AcceptedIsTidy | labs/lab20_uart_async_rx_manager_zephyr/drivers/uart/uart_cmsdk_async.c:211-241 | at most two buffers are held, they do not overlap, and no buffer is overfilled |
| UartDriver.CallIsSound | labs/lab20_uart_async_rx_manager_zephyr/drivers/uart/uart_cmsdk_async.c:153-263 | any API call in any state keeps driver and protocol together |
| UartDriver.FinishIsSound | labs/lab20_uart_async_rx_manager_zephyr/drivers/uart/uart_cmsdk_async.c:105-151 | stopping reports, releases both buffers and then closes the session once |
| UartDriver.IsrIsSound | labs/lab20_uart_async_rx_manager_zephyr/drivers/uart/uart_cmsdk_async.c:265-341 | the interrupt routine keeps driver and protocol together for any client |
| UartWire.IsrTakes | labs/lab20_uart_async_rx_manager_zephyr/drivers/uart/uart_cmsdk_async.c:265-341 | for any client an active driver stores a byte exactly if one has arrived and there is no overrun, in the next cell of its buffer, and counts it; an overrun is counted and announced; only a stop asked for in the first request keeps it from looking at the receiver |
| UartWire.IsrIsExact | labs/lab20_uart_async_rx_manager_zephyr/drivers/uart/uart_cmsdk_async.c:265-341 | the two together, for every sound state |
| UartWire.StopTakesEffect | labs/lab20_uart_async_rx_manager_zephyr/drivers/uart/uart_cmsdk_async.c:243-280 | a stop request to an active driver is accepted and the interrupt it asks for closes the session without storing anything |
| UartWire.CallsAreAnswered | labs/lab20_uart_async_rx_manager_zephyr/drivers/uart/uart_cmsdk_async.c:153-263 | what each API call returns, told from the trace: session open, request unanswered, one buffer held, ranges that meet |
| UartDriver.StopEndsSession | labs/lab20_uart_async_rx_manager_zephyr/drivers/uart/uart_cmsdk_async.c:265-280 | a stop wanted on entry of the interrupt has closed its session on return |
| UartDriver.DriverKeepsProtocol | labs/lab20_uart_async_rx_manager_zephyr/drivers/uart/uart_cmsdk_async.c:58-341 | from boot, for every client and every sequence of calls and interrupts, all of the above hold of the trace |
| UartManaged.RequestToManager | labs/lab20_uart_async_rx_manager_zephyr/src/rx_manager.c:94-123 | asked for a buffer while the driver holds one, the manager hands over the other and the offer is accepted |
| UartManaged.FullFlows | labs/lab20_uart_async_rx_manager_zephyr/drivers/uart/uart_cmsdk_async.c:312-339 | with the manager a full buffer is reported and replaced and reception goes on |
| UartManaged.SpanBalance | labs/lab20_uart_async_rx_manager_zephyr/src/rx_manager.c:72-90 | queueing a span keeps every byte accounted for as read, queued, dropped or unreported |
| UartManaged.ReadBalance | labs/lab20_uart_async_rx_manager_zephyr/src/rx_manager.c:154-167 | a read takes the oldest bytes, as many as asked for and present, and keeps the accounts |
| UartManaged.IsrIsSteady | labs/lab20_uart_async_rx_manager_zephyr/drivers/uart/uart_cmsdk_async.c:265-341 | an interrupt keeps ownership and accounts, takes the byte that has arrived while reception is active, and ends reception exactly after a stop request or on an overrun |
| UartManaged.RunTakesWire | labs/lab20_uart_async_rx_manager_zephyr/drivers/uart/uart_cmsdk_async.c:265-341 | over every run the stored bytes are those that the interrupts carried before the first stop request or overrun, in order and once each |
| UartManaged.ReceptionConservesBytes | labs/lab20_uart_async_rx_manager_zephyr/src/rx_manager.c:28-167 | over every run the owned flags name exactly the driver's buffers, reception lasts exactly until a stop request or an overrun, bytes on the wire until then = received + unreported, received = buffered + dropped, buffered = read + queued, and without drops the bytes read, queued and unreported are the wire in order |
| UartManaged.KeepingUpLosesNothing | labs/lab20_uart_async_rx_manager_zephyr/src/rx_manager.c:65-167 | if the application never falls more than 64 bytes behind the wire, nothing is dropped and the bytes read, queued and unreported are the wire in order |
| UartManaged.InitIsExact | labs/lab20_uart_async_rx_manager_zephyr/src/rx_manager.c:28-62 | in any state of the driver: success on an idle driver with a buffer, and otherwise the error, the driver as before and nothing owned |
| UartManaged.EventsAreChecked | labs/lab20_uart_async_rx_manager_zephyr/src/rx_manager.c:65-150 | events about a buffer that is not out or a span outside it change nothing but the error; the others are counted and do what they say |
| UartManaged.UnmetRequests | labs/lab20_uart_async_rx_manager_zephyr/src/rx_manager.c:95-121 | a request that cannot be met hands nothing out and keeps the reason |
| UartProgram.RxManager.Start | labs/lab20_uart_async_rx_manager_zephyr/src/rx_manager.c:28-62 | registering and enabling computes the specified start, including the undo on failure |
| UartProgram.RxManager.HandleEvent | labs/lab20_uart_async_rx_manager_zephyr/src/rx_manager.c:65-152 | the event handler, calling back into the driver, computes the specified reaction |
| UartProgram.RxManager.Read | labs/lab20_uart_async_rx_manager_zephyr/src/rx_manager.c:154-167 | the call gives and removes the specified bytes |
| UartProgram.Uart.RespondBuffer | labs/lab20_uart_async_rx_manager_zephyr/drivers/uart/uart_cmsdk_async.c:217-241 | the call accepts or refuses the buffer as specified |
| UartProgram.Uart.FinishReceive | labs/lab20_uart_async_rx_manager_zephyr/drivers/uart/uart_cmsdk_async.c:105-151 | the stop sequence with its callbacks computes the specified state and trace |
| UartProgram.Uart.Interrupt | labs/lab20_uart_async_rx_manager_zephyr/drivers/uart/uart_cmsdk_async.c:265-341 | the interrupt routine with its callbacks computes the specified state, memory and trace, and takes from the receiver what has arrived |
| HostBridge.Bridge.Clock | platform/pcie/rtl/labh1_ahb_pcie_host_bridge.v:160-323 | one clock with its overlapping assignments computes the specified registers |
| HostBridgeRuns.PayloadIsStable | platform/pcie/rtl/labh1_ahb_pcie_host_bridge.v:148-155 | the request changes only when an idle bridge accepts a command, and is then the programmed registers |
| HostBridgeRuns.BridgeKeepsAccounts | platform/pcie/rtl/labh1_ahb_pcie_host_bridge.v:188-323 | for every master and backend: busy exactly when the FSM is not idle, never with done, the request is the last accepted one, and accepted commands, handed requests and consumed completions balance |
| HostBridgeRuns.StoredIsReadBack | platform/pcie/rtl/labh1_ahb_pcie_host_bridge.v:188-370 | registers read back what was last stored to them, CFG_RDATA the data of the last successful read, and the version is 0x00010000 |
| HostBridgeRuns.NothingElseIsRead | platform/pcie/rtl/labh1_ahb_pcie_host_bridge.v:328-370 | zero is driven outside a load and at offsets without a register |
| HostBridgeRuns.ErrorStatusTells | platform/pcie/rtl/labh1_ahb_pcie_host_bridge.v:188-370 | ERROR_STATUS clock by clock, also when a completion and a store meet: which bit each kind of bad store, command and completion sets, and what clears them |
| HostBridgeRuns.StatusTells | platform/pcie/rtl/labh1_ahb_pcie_host_bridge.v:188-370 | STATUS shows an open command, an ended one until the next is accepted, and whether ERROR_STATUS is nonzero |
| Tlp.RequestRoundTrip | labs/labh2_pcie_transaction_model/rtl/labh2_pcie_tlp_tx.v:24-49 | the endpoint's fields of an encoded request are the request |
| Tlp.PacketLayout | labs/labh2_pcie_transaction_model/rtl/labh2_pcie_tlp_tx.v:24-49 | the words of requests and completions in literals, and that anything but a completion reads as an error |
| Tlp.EncodeIsInjective | labs/labh2_pcie_transaction_model/rtl/labh2_pcie_tlp_tx.v:24-49 | different requests have different packets |
| Tlp.CompletionRoundTrip | labs/labh2_pcie_transaction_model/rtl/labh2_pcie_tlp_rx.v:19-35 | the decoder gives back status and data of a completion |
| Endpoint.Device.Clock | labs/labh2_pcie_transaction_model/rtl/labh2_pcie_endpoint_model.v:55-148 | one clock of request, delay, completion and handshake computes the specified registers |
| PcieMachine.ClockAdvances | labs/labh2_pcie_transaction_model/rtl/m3ds_pcie_backend.v:43-98 | every clock without a new store moves a transaction on by at least one of at most seven steps and only its own completion ends it |
| PcieDriver.StatusTellsProgress | labs/labh2_pcie_transaction_model/main.c:40-48 | a polled status has DONE set exactly when the present transaction has finished, never from an older one |
| PcieDriver.PollSucceeds | labs/labh2_pcie_transaction_model/main.c:40-59 | polling ends with OK and the right data before the limit, for every behaviour of the rest of the bus |
| PcieDriver.CallIsAtomic | labs/labh2_pcie_transaction_model/main.c:61-84 | each driver call is one atomic access of a configuration space with one function, 0x800, that has an identity and a scratch register and is otherwise all ones |
| PcieDriver.DriverRefinesSpace | labs/labh2_pcie_transaction_model/main.c:40-84 | from reset every sequence of reads and writes gets the answers of that space |
| PcieDriver.CallsAreAnswered | labs/labh2_pcie_transaction_model/rtl/labh2_pcie_endpoint_model.v:88-133 | call by call in literals: 0x56781234 for the identity of 0x800, the last value written for its scratch register, all ones for any other register and any other function |
| PcieDriver.PollIsExact | labs/labh2_pcie_transaction_model/main.c:40-59 | whatever the hardware does, polling times out exactly if no poll sees DONE, and otherwise the first that does decides by its ERROR bit |
| PcieDriver.CallWhileBusy | labs/labh2_pcie_transaction_model/main.c:61-84 | a call during an earlier transaction is refused as busy and leaves it alone |
| PcieDriver.ReadReturnsLastWrite | labs/labh2_pcie_transaction_model/rtl/labh2_pcie_endpoint_model.v:88-133 | from reset, through driver, bridge and endpoint and with any other bus traffic, a read of the scratch register succeeds with the last value written to it, whatever other calls lie before and between |
| PcieDriver.Host.WaitCompletion | labs/labh2_pcie_transaction_model/main.c:40-59 | the bounded loop computes the specified polling |
| PcieDriver.Host.ConfigRead32 | labs/labh2_pcie_transaction_model/main.c:61-71 | the ordered accesses compute the specified read |
| PcieDriver.Host.ConfigWrite32 | labs/labh2_pcie_transaction_model/main.c:73-84 | the ordered accesses compute the specified write |
| MmioBridge.Bridge.Clock | labs/labh3_fpga_pcie_root_port/rtl/labh3_ahb_pcie_mmio_bridge.v:97-221 | one clock of the seven-state slave computes the specified registers |
| VendorAdapter.Adapter.Clock | labs/labh3_fpga_pcie_root_port/rtl/labh3_pcie_vendor_adapter_model.v:100-247 | one clock of the shared adapter computes the specified registers |
| RootPort.Wrapper.Clock | labs/labh3_fpga_pcie_root_port/rtl/labh3_pcie_root_port_wrapper.v:75-182 | the three modules clocked together compute the specified joint step |
| RootPort.RunsAreRouted | labs/labh3_fpga_pcie_root_port/rtl/labh3_pcie_vendor_adapter_model.v:84-98 | with both ports driven at will, the adapter works for configuration exactly when the CSR bridge waits and for memory exactly when the MMIO bridge waits, and on that bridge's own request |
| RootPort.PortIsSequential | labs/labh3_fpga_pcie_root_port/rtl/labh3_pcie_vendor_adapter_model.v:84-245 | the interleaved history of configurations, stores and loads is answered as a sequential device answers it |
| RootPortHistory.AnswersAreTrue | labs/labh3_fpga_pcie_root_port/rtl/labh3_pcie_vendor_adapter_model.v:84-245 | every event of every run, told from the events before it: a load succeeds exactly if the last command word has the memory bit and its address is the last base plus 0x1000, and returns the last store under the same conditions; configuration reads give the identity, the last command, the last base or the size mask, and all ones from an absent function |
| RootPortAccess.ResponsesAreTrue | labs/labh3_fpga_pcie_root_port/rtl/labh3_ahb_pcie_mmio_bridge.v:68-209 | every response on the memory port, against the transfer as its master drove it: OKAY is an accepted store with its address and data or a load that hit and its value; ERROR is a bad access or a load that did not hit |
| RootPortAccess.OkayLoadReturnsLastStore | labs/labh3_fpga_pcie_root_port/rtl/labh3_ahb_pcie_mmio_bridge.v:138-190 | an OKAY load hit and returns the last store that did |
| RootPortAccess.OtherResponsesAreTrue | labs/labh3_fpga_pcie_root_port/rtl/labh3_ahb_pcie_mmio_bridge.v:127-209 | an OKAY store was accepted with its address and data; an ERROR of an aligned word access in the aperture is a load that did not hit |
| RootPortAccess.OneCompletionPerRead | labs/labh3_fpga_pcie_root_port/rtl/labh3_pcie_vendor_adapter_model.v:140-153 | each accepted read has one completion or waits for it; posted writes have none |
| RootPortAccess.RequestIsAccepted | labs/labh3_fpga_pcie_root_port/rtl/labh3_pcie_vendor_adapter_model.v:85-87 | a memory request is accepted in exactly the foretold clock, at most the sixth, whatever the CSR port does |
| RootPortAccess.LoadIsAnswered | labs/labh3_fpga_pcie_root_port/rtl/labh3_pcie_vendor_adapter_model.v:140-153 | an accepted load is answered after exactly the foretold number of clocks |
| RootPortAccess.AcceptedLoadWaits | labs/labh3_fpga_pcie_root_port/rtl/labh3_pcie_vendor_adapter_model.v:119-127 | and on acceptance that number is four |
| RootPortAccess.TransferEnds | labs/labh3_fpga_pcie_root_port/rtl/labh3_ahb_pcie_mmio_bridge.v:75-77 | a stalled transfer gets HREADYOUT within a foretold number of clocks, at most twelve |
| I2cBits.ByteRoundTrip | labs/lab14_mps2_mmio_i2c/mps2_i2c.c:191-233 | sending a byte most significant bit first and gathering the bits gives it back, and the other way round |
| I2cProgram.TopBitsAreBits | labs/lab14_mps2_mmio_i2c/mps2_i2c.c:191-200 | testing and shifting out the top bit eight times sends the bits of the byte in order |
| I2cBytes.WriteCycle | labs/lab14_mps2_mmio_i2c/mps2_i2c.c:140-156 | one clock pulse puts one bit into the waveform, low if either side pulls, and steps the target once |
| I2cBytes.ByteIsHeard | labs/lab14_mps2_mmio_i2c/mps2_i2c.c:191-203 | writing a byte on the wires is the target hearing it; the result is its acknowledge bit and the waveform spells both |
| I2cBytes.ByteIsSaid | labs/lab14_mps2_mmio_i2c/mps2_i2c.c:206-233 | reading a byte on the wires gives the byte the target says and sends ACK or NACK as asked |
| I2cBytes.StartFromLow | labs/lab14_mps2_mmio_i2c/mps2_i2c.c:97-122 | a repeated START is heard as a START and as nothing else |
| I2cBytes.StopFromLow | labs/lab14_mps2_mmio_i2c/mps2_i2c.c:125-138 | a STOP is heard as a STOP, frees the bus and is reported OK |
| I2cTransfer.TransferIsConversation | labs/lab14_mps2_mmio_i2c/mps2_i2c.c:250-320 | for every target and stretching below the timeout, on a free bus or one held by an earlier call, status, buffers and target state are those of the byte conversation, and the waveform decodes to its STARTs, bytes, acknowledge bits (NACK after the last byte read) and STOPs; a refused call touches nothing |
| I2cTransfer.CallsAreConversations | labs/lab14_mps2_mmio_i2c/mps2_i2c.c:250-346 | any sequence of transfers and probes, refused or failing ones and ones without STOP included, gives the replies and the target of the sequence of conversations, and one waveform that spells them all |
| I2cTransfer.TransferEdges | labs/lab14_mps2_mmio_i2c/mps2_i2c.c:97-138 | during a transfer SDA moves under a high SCL exactly once for each START, repeated START and STOP of its conversation, and never otherwise |
| I2cTransfer.RefusalsAreExact | labs/lab14_mps2_mmio_i2c/mps2_i2c.c:256-274 | exactly the well-formed requests are carried out; every other is refused with its code and touches nothing |
| I2cTransfer.StuckClockTimesOut | labs/lab14_mps2_mmio_i2c/mps2_i2c.c:58-69 | a clock line held to the timeout at the START is reported as a timeout |
| I2cTransfer.HeldBusIsBusy | labs/lab14_mps2_mmio_i2c/mps2_i2c.c:97-122 | a data line held low is reported as a busy bus and the target is left alone |
| I2cTransfer.OkayMeansInTime | labs/lab14_mps2_mmio_i2c/mps2_i2c.c:250-320 | no transfer reports OK if the clock was held to the timeout anywhere in it |
| I2cTransfer.TransferReleases | labs/lab14_mps2_mmio_i2c/mps2_i2c.c:256-320 | for every target, timeouts included: a refused call leaves the lines as they were; any other returns with both released exactly if it failed or its last message has a STOP; so an error means released lines exactly if the call was not refused or they were released before |
| I2cTransfer.RefusedCallKeepsHolding | labs/lab14_mps2_mmio_i2c/mps2_i2c.c:256-257 | an instance: no messages, on a bus that an earlier call has left held |
| I2cTransfer.ProbeReleases | labs/lab14_mps2_mmio_i2c/mps2_i2c.c:322-346 | a probe that is refused leaves the lines as they were; any other returns with both released, whatever the target does |
| I2cTransfer.ProbeIsConversation | labs/lab14_mps2_mmio_i2c/mps2_i2c.c:322-346 | on a free or held bus a probe is START, address, STOP, and its result is the acknowledge bit |
| I2cRecovery.RecoverReleases | labs/lab14_mps2_mmio_i2c/mps2_i2c.c:348-375 | recovery returns with both lines released, whatever the target does |
| I2cRecovery.RecoverIsExact | labs/lab14_mps2_mmio_i2c/mps2_i2c.c:348-375 | for a target stuck in any state, recovery reports OK if and only if SDA is high at once or the first 1 among the bits still to come is not followed by a 0; after OK the bus is free, otherwise it is reported busy and still held |
| I2cRecovery.RecoverFromAnywhere | labs/lab14_mps2_mmio_i2c/mps2_i2c.c:352-375 | from any levels of the lines the same condition decides, taken once both have been let go |
| I2cRecovery.RecoverFreesTalking | labs/lab14_mps2_mmio_i2c/mps2_i2c.c:348-375 | the condition for a target in the middle of a byte |
| I2cRecovery.RecoverCanFail | labs/lab14_mps2_mmio_i2c/mps2_i2c.c:364-375 | with the bits 0, 1, 0 left the bus stays busy |
| I2cRecovery.RecoverCanFailAnswering | labs/lab14_mps2_mmio_i2c/mps2_i2c.c:364-375 | a target that acknowledges its read address and will send 0xA0 keeps the bus busy |
| I2cRecovery.RecoverFreesAnswering | labs/lab14_mps2_mmio_i2c/mps2_i2c.c:348-375 | a target stuck in its acknowledge of a byte written to it is always freed |
| I2cEeprom.ProgrammedIsSpliced | labs/lab14_mps2_mmio_i2c/eeprom.c:62-63 | data inside one page is programmed without wrapping and touches no other cell |
| I2cEeprom.PageBoundsPayload | labs/lab14_mps2_mmio_i2c/eeprom.c:38-67 | every accepted payload fits the local buffer if and only if page size and address width together are at most 34, or nothing is accepted at all |
| I2cEeprom.PayloadCanOverrun | labs/lab14_mps2_mmio_i2c/eeprom.c:38-67 | an instance where it does not: 40 bytes to a chip with pages of 64 |
| I2cEeprom.VerdictsAreExact | labs/lab14_mps2_mmio_i2c/eeprom.c:8-59 | which ranges and payloads are accepted, in inequalities, and the error of every other request |
| I2cEeprom.WriteStores | labs/lab14_mps2_mmio_i2c/eeprom.c:37-84 | a valid write to a chip out of its write cycle puts all its data and nothing else into the cells and succeeds exactly if the chip is ready within the polls; a chip in its write cycle refuses and keeps its cells; an invalid write changes nothing |
| I2cEeprom.ReadFetches | labs/lab14_mps2_mmio_i2c/eeprom.c:90-139 | a valid read returns the cells of its range, or fails and leaves the buffer alone while the chip is in its write cycle; no read changes a cell |
| I2cEeprom.PollsUntilReady | labs/lab14_mps2_mmio_i2c/eeprom.c:146-172 | polling succeeds exactly if the busy time is shorter than the limit, and otherwise has shortened it by the limit |
| I2cEeprom.WriteThenRead | labs/lab14_mps2_mmio_i2c/eeprom.c:8-172 | through the bit level, for both address widths, a valid write to a chip ready within the polls succeeds, a read then returns the data, and of any other range what was there before |
| I2cEeprom.DriverRefinesArray | labs/lab14_mps2_mmio_i2c/eeprom.c:8-172 | any sequence of writes and reads, invalid ones, ones on a busy chip and ones whose polls run out included, has the results, the bytes read and the final cells of that sequence on an array of bytes |
| I2cProgram.Controller.Transmit | labs/lab14_mps2_mmio_i2c/mps2_i2c.c:250-320 | the message loops, filling the caller's buffers in place, compute the specified transfer |
| I2cProgram.Controller.PutByte | labs/lab14_mps2_mmio_i2c/mps2_i2c.c:191-203 | the shift loop computes the specified byte on the wires |
| I2cProgram.Controller.GetByte | labs/lab14_mps2_mmio_i2c/mps2_i2c.c:206-233 | the gathering loop computes the specified byte and acknowledge |
| I2cProgram.Controller.RecoverBus | labs/lab14_mps2_mmio_i2c/mps2_i2c.c:348-375 | the pulse loop computes the specified recovery |
| I2cProgram.Eeprom.WriteBytes | labs/lab14_mps2_mmio_i2c/eeprom.c:37-84 | building the payload, the transfer and the polling compute the specified write; a request that does not fit is refused with its error and the bus left alone |
| I2cProgram.Eeprom.ReadBytes | labs/lab14_mps2_mmio_i2c/eeprom.c:90-139 | the combined transfer fills the buffer as specified; a request that does not fit is refused and leaves bus and buffer alone |
| RingBuffer.PushIsLinear | labs/lab11_uart_ringbuffer/ringbuffer.c:16-24 | a push between any two accesses of a pop appends exactly if fewer than 63 bytes are queued, and disturbs no pop under way |
| RingBuffer.PopIsLinear | labs/lab11_uart_ringbuffer/ringbuffer.c:26-33 | a pop takes effect at its store of tail and fails only if the queue was empty at its load of head |
| RingBuffer.PopTakesFront | labs/lab11_uart_ringbuffer/ringbuffer.c:26-33 | a whole pop, with any bytes arriving between its accesses, fails exactly if the queue was empty when it began and otherwise returns its front |
| RingBuffer.NothingLostOrRepeated | labs/lab11_uart_ringbuffer/main.c:14-38 | over every interleaving the bytes returned are the bytes accepted, in order and once each, up to the at most 63 queued |
| RingBuffer.Buffer.PushByte | labs/lab11_uart_ringbuffer/ringbuffer.c:16-24 | the call appends to the queue, or refuses and changes nothing |
| RingBuffer.Buffer.PopByte | labs/lab11_uart_ringbuffer/ringbuffer.c:26-33 | the call takes the front of the queue, or refuses on an empty one, and is the sequence of the accesses |
| BootLogRuns.InitIsExact | labs/lab23_flash_boot_event_logger_zephyr/src/boot_log.c:24-82 | opening succeeds only on a log whose occupied slots are a prefix and finds exactly its end; without read errors it fails only otherwise |
| BootLogRuns.RegionIsChecked | labs/lab23_flash_boot_event_logger_zephyr/src/boot_log.c:24-56 | which devices and regions are accepted, and the error of every other one |
| BootLogRuns.OpenReportsFailure | labs/lab23_flash_boot_event_logger_zephyr/src/boot_log.c:59-82 | opening a tight log fails exactly if the read of one of its slots fails |
| BootLogRuns.AppendGrows | labs/lab23_flash_boot_event_logger_zephyr/src/boot_log.c:84-126 | through any handle, stale or not, with any faults, an append changes at most the first free slot and succeeds only with the record there |
| BootLogRuns.AppendIsExact | labs/lab23_flash_boot_event_logger_zephyr/src/boot_log.c:84-126 | through any good handle and with any faults: success exactly if the record has a byte that is not the erase value, there is room, the slot is free and read, write and readback work; each other case has its code, and those from the occupied slot on lose the handle |
| BootLogRuns.OpenedLogTakesRecords | labs/lab23_flash_boot_event_logger_zephyr/src/boot_log.c:24-126 | on a log opened without faults an append succeeds until the log is full and then reports no space |
| BootLogRuns.UnusableIsRefused | labs/lab23_flash_boot_event_logger_zephyr/src/boot_log.c:84-90 | a handle that is not good and a device that is not ready are refused and nothing changes |
| BootLogRuns.StepKeepsOccupied | labs/lab23_flash_boot_event_logger_zephyr/src/boot_log.c:84-126 | no step reprograms an occupied slot or touches flash outside the region |
| BootLogRuns.LogIsAppendOnly | labs/lab23_flash_boot_event_logger_zephyr/src/boot_log.c:59-126 | from erased, after any appends, torn writes, errors and re-opens through any number of handles, occupied slots are a prefix, every successful append is still in its slot in order, and a fault-free open finds exactly that prefix |
| BootLogRuns.AppendIsReadBack | labs/lab23_flash_boot_event_logger_zephyr/src/boot_log.c:128-145 | a successful append is what reading the last record returns, before and after re-opening |
| BootLogRuns.ReadLastIsExact | labs/lab23_flash_boot_event_logger_zephyr/src/boot_log.c:128-145 | nothing to read, the error of the read, or the record before the handle's next slot |
| BootLogProgram.BootLog.Open | labs/lab23_flash_boot_event_logger_zephyr/src/boot_log.c:24-82 | the checks and the scan loop compute the specified handle and status |
| BootLogProgram.BootLog.Append | labs/lab23_flash_boot_event_logger_zephyr/src/boot_log.c:84-126 | the guarded write with readback computes the specified outcome |
| BootLogProgram.BootLog.ReadLast | labs/lab23_flash_boot_event_logger_zephyr/src/boot_log.c:128-145 | the call computes the specified answer |
| BarWindow.AlignUpIsLeast | labs/lab19_pcie_bar_resource_zephyr/pcie_resource.c:6-12 | below the wrap, align_up gives the least multiple that is not smaller |
| BarWindow.AlignUpWraps | labs/lab19_pcie_bar_resource_zephyr/pcie_resource.c:6-12 | past the wrap it gives 0 and no aligned address is left |
| BarWindow.PowerOfTwoMeaning | labs/lab19_pcie_bar_resource_zephyr/pcie_resource.c:33-35 | the alignments taken are exactly the powers of two |
| BarWindow.ArgumentsAreChecked | labs/lab19_pcie_bar_resource_zephyr/pcie_resource.c:30-44 | an empty request or an alignment that is no power of two is an argument error, and no refusal changes the window |
| BarWindow.NewWindowIsSane | labs/lab19_pcie_bar_resource_zephyr/pcie_resource.c:14-24 | a new window meets the conditions below exactly if it is not empty and does not wrap |
| BarWindow.AllocIsLeastFit | labs/lab19_pcie_bar_resource_zephyr/pcie_resource.c:26-50 | with a nonzero base a request succeeds exactly if some aligned free range fits, and takes the least one |
| BarWindow.ReuseExactlyOnWrap | labs/lab19_pcie_bar_resource_zephyr/pcie_resource.c:37-44 | memory already given is given again exactly if align_up wraps, which needs base 0 |
| BarWindow.ZeroBaseGivesTwice | labs/lab19_pcie_bar_resource_zephyr/pcie_resource.c:37-44 | an instance of that |
| BarWindow.GrantsAreDisjoint | labs/lab19_pcie_bar_resource_zephyr/pcie_resource.c:26-50 | over any requests the grants are aligned, inside the window and pairwise disjoint |
| BarWindow.TranslationKeepsOffsets | labs/lab19_pcie_bar_resource_zephyr/pcie_resource.c:52-67 | translation answers exactly inside the window, with the CPU base plus the offset from the bus base, and so keeps distances and is injective |
| BarWindow.Allocator.Allocate | labs/lab19_pcie_bar_resource_zephyr/pcie_resource.c:26-50 | the call computes the specified allocation and moves the window |
| BarProbe.ProbeFindsSize | labs/lab19_pcie_bar_resource_zephyr/pcie_resource.c:69-134 | probing a memory BAR finds its size, rounded up to 16, and leaves the function exactly as it was |
| BarProbe.AssignPlaces | labs/lab19_pcie_bar_resource_zephyr/pcie_resource.c:136-176 | a placed memory BAR reads back its address with its flags, at the least aligned free address and with the CPU address of that offset, and nothing else of the function changes |
| BarProbe.ProbeFindsIoSize | labs/lab19_pcie_bar_resource_zephyr/pcie_resource.c:69-134 | probing an I/O BAR finds its size, rounded up to 4, and leaves the function as it was |
| BarProbe.ProbeOfOthers | labs/lab19_pcie_bar_resource_zephyr/pcie_resource.c:69-134 | 64-bit BARs and bad indices are refused without a write, and a BAR that is not implemented has size 0 |
| BarProbe.AbsentLooksLikeIo | labs/lab19_pcie_bar_resource_zephyr/pcie_resource.c:69-134 | a function that is not there is reported as having I/O BARs of four bytes |
| BarProbe.AssignPlacesIo | labs/lab19_pcie_bar_resource_zephyr/pcie_resource.c:159-176 | an I/O BAR is placed, and reads back on the simulated host without the address bits below 16 |
| BarProbe.AssignRefusals | labs/lab19_pcie_bar_resource_zephyr/pcie_resource.c:136-150 | a BAR without a size, or with a size that is no power of two, is refused and nothing changes |
| BarProbe.AssignedRangesAreDisjoint | labs/lab19_pcie_bar_resource_zephyr/pcie_resource.c:136-176 | over any list of BARs the assigned ranges are size-aligned, in the window and pairwise disjoint |
| BarProbe.Host.WriteConfig | labs/lab19_pcie_bar_resource_zephyr/pcie_sim_host.c:87-125 | the simulated write computes the specified function state |
| BarProbe.ConfigIsReadBack | labs/lab19_pcie_bar_resource_zephyr/pcie_sim_host.c:87-125 | a register that is no BAR reads back what was written and no other register changes |
| BarProbe.Host.ProbeBar | labs/lab19_pcie_bar_resource_zephyr/pcie_resource.c:69-134 | the call computes the specified probe |
| BarProbe.Host.AssignBar | labs/lab19_pcie_bar_resource_zephyr/pcie_resource.c:136-176 | the call computes the specified assignment |
| Enumeration.BarBits | labs/lab18_pcie_enumeration/pcie_bus.c:11-43 | a decoded BAR keeps all its bits: address and flags put together give the register back |
| Enumeration.EntryIsRegisters | labs/lab18_pcie_enumeration/pcie_bus.c:45-106 | an entry is the registers of its function byte by byte: vendor, device, revision, class, header type, multifunction bit, BARs of a normal header, interrupt line and pin |
| Enumeration.EnumerationIsExact | labs/lab18_pcie_enumeration/pcie_bus.c:108-226 | on success the table lists in increasing order exactly function 0 of each present device and the functions that answer on multifunction devices; otherwise it holds the first 16 and there is one more |
| Enumeration.FailsExactlyWhenTooMany | labs/lab18_pcie_enumeration/pcie_bus.c:126-133 | the scan fails exactly if that list is longer than 16 |
| Enumeration.Bus.EnumerateBus | labs/lab18_pcie_enumeration/pcie_bus.c:195-226 | the nested loops fill the table with the descriptions of the specified functions |
| Enumeration.Bus.ReadFunction | labs/lab18_pcie_enumeration/pcie_bus.c:45-106 | an entry is the decoded registers of its function |
| Watchdog.FeedsAreEarned | labs/lab25_watchdog_heartbeat_zephyr/src/watchdog_supervisor.c:58-112 | over all interleavings of any number of threads, before each feed every required task has reported since the last successful feed, and after a failed feed there is none |
| Watchdog.ServiceFeedsWhenDue | labs/lab25_watchdog_heartbeat_zephyr/src/watchdog_supervisor.c:82-112 | in every run a service call that holds the mutex feeds exactly if the supervisor runs and every task has reported since the last successful feed, and otherwise changes nothing |
| Watchdog.ReportGetsThrough | labs/lab25_watchdog_heartbeat_zephyr/src/watchdog_supervisor.c:58-80 | with the mutex free a report of a thread at rest is made |
| Watchdog.ServiceGetsThrough | labs/lab25_watchdog_heartbeat_zephyr/src/watchdog_supervisor.c:82-112 | with the mutex free and all reports made a service call feeds and empties the mask |
| Watchdog.InitIsExact | labs/lab25_watchdog_heartbeat_zephyr/src/watchdog_supervisor.c:8-56 | set-up succeeds exactly if every condition is met and then the supervisor runs; otherwise it is faulted or untouched, with the error |
| Watchdog.FailedSetupNeverFeeds | labs/lab25_watchdog_heartbeat_zephyr/src/watchdog_supervisor.c:28-55 | after a failed install or set-up nothing is ever fed |
| Watchdog.LateReportCounts | labs/lab25_watchdog_heartbeat_zephyr/src/watchdog_supervisor.c:73-109 | a report that waits for the mutex while a feed is settled counts for the next window in every continuation: it is lost only if the supervisor faults, and once made and until a further feed works the task stands in the mask whenever no feed is under way |
| Watchdog.BlockedReportGoesIn | labs/lab25_watchdog_heartbeat_zephyr/src/watchdog_supervisor.c:96-109 | the shortest such continuation: blocked, feed settled, reported, after which the mask is that task alone |
| Watchdog.MaskIsWindow | labs/lab25_watchdog_heartbeat_zephyr/src/watchdog_supervisor.c:73-109 | in every run, whenever the supervisor runs and no feed is under way, the mask is the set of tasks that reported after the last successful feed |
| Watchdog.InWindowMeaning | labs/lab25_watchdog_heartbeat_zephyr/src/watchdog_supervisor.c:73-75 | the tasks of a window are those with a report after the last successful feed |
| Watchdog.Supervisor.Initialise | labs/lab25_watchdog_heartbeat_zephyr/src/watchdog_supervisor.c:8-56 | the call computes the specified context for every answer of the driver |
| Watchdog.Supervisor.Service | labs/lab25_watchdog_heartbeat_zephyr/src/watchdog_supervisor.c:82-112 | the call feeds exactly if it may, and clears or faults as specified |

## Left out

- Labs 00 to 10, 12, 13, 15 to 17, 21 and 22, startup code, scripts and build files: register pokes, or subsets of the cores above.
- Null handles and null out-pointers: excluded by type, except where the code distinguishes a missing device.
- Bit delays, baud divisors, printed messages, debugger-visible globals and devicetree: no influence on the modelled state.
- Fault log: a torn page is a per-byte mix of its old and new bytes, so a page that ends as unrelated garbage is not covered; nor is a second handle on the same EEPROM, or decay of bytes outside the page being written.
- UART: `ring_buf_put` and `ring_buf_get` are a bounded queue that takes or gives a prefix; the NVIC and the control register are one pending flag; transmit and polled calls are not modelled, nor a second `rx_manager_init`.
- UartProgram.Uart.Interrupt: the driver's run-time structure is one field holding a record, so aliasing of that structure is not captured.
- Hardware: encodings of state registers that no assignment produces, asynchronous reset during a run, and metastability are not modelled; the CONTROL enable bit is stored and, as in the RTL, never consulted.
- PcieDriver.DriverRefinesSpace: assumes that the bridge's own data phases are not stretched by other slaves, as its HREADYOUT is always high.
- RootPortAccess.TransferEnds: a transfer whose address phase falls in the second error clock is dropped by the RTL; masters are taken to idle after an ERROR, as section 5.1.3 of AMBA 3 AHB-Lite allows.
- Lab H3's C driver rings the doorbell before it stores the write data, and lab H1's C driver tests the wrong busy bit; neither is modelled.
- I2C: arbitration with other controllers, electrical timing, ten-bit addresses and `mps2_i2c_init` are not modelled; buffers of one transfer are separate or the same, never partly overlapping.
- I2cTransfer.TransferIsConversation: assumes stretching below the timeout; what a target does after a timeout is covered only by the release properties.
- I2cEeprom.WriteStores: takes a payload that fits the local buffer, addresses up to 0x7E and stretching below the timeout as preconditions; the payload buffer is allocated at the length used.
- Boot log: `flash_erase` and out-of-region corruption are not modelled; `off_t` is 32 bits wide.
- BAR resources: 64-bit BARs are refused as in the code; `lab_pcie_enable_memory_space` is left out.
- BarWindow.AllocIsLeastFit: windows whose end wraps past 2^32 are outside its precondition.
- Enumeration: configuration reads do not fail and do not change the space; `prog_if`, which the code never fills, is not a field.
- Watchdog: the reported mask is a set of task numbers; initialisation is not concurrent with a region under the mutex.
