# bt_stone_le vendor layer, in Dafny

This project models the vendor-adaptation layer of the bt_stone_le firmware: the
MSP430 and CC256x glue under a Bluetooth stack. It covers:

- **HCI UART transport** (`HCITRANS.c`):
  - a 128-byte receive ring filled by the UART interrupt;
  - a 64-byte transmit ring drained by it;
  - RTS/CTS flow control kept in a flag byte;
  - the open, close, write, process and reconfigure entry points the HCI driver calls.
- **eHCILL sleep protocol** (`EHCILL.c`, `EHCILL.h`):
  - the four one-byte control messages exchanged with the controller;
  - the state machine they drive;
  - the power lock;
  - the two vendor commands that configure it;
  - the low-power test of the idle hook in `Main.c`.
- **GATT discovery helper** (`GDIS.c`). For each connection it:
  - walks the peer's attribute database, from services to characteristics to descriptors;
  - builds one flattened indication per resolved service;
  - reports completion once.
- **Vendor hooks** (`BTPSVEND.c`):
  - the replay of a patch table of HCI command records into the controller after its first reset;
  - the flag that remembers that the vendor commands were issued.
- **SPP-over-LE data path of the demo** (`SPPLEDemo.c`):
  - the per-device receive and transmit data buffers;
  - reading received data and granting credits;
  - sending data with and without transmit credits;
  - the table of BR/EDR link keys (deletion, lookup on a link-key request, storage on link-key creation).

The model keeps the form of the C code:
- The module globals and structures that the C code updates in place are classes with `modifies` frames:
  - `EHCILL.Machine`;
  - `HciTransport.Uart`;
  - `GattDiscovery.Engine`;
  - `Vendor.Patcher`;
  - `SppLe.DataBuffer` and `SppLe.Device`;
  - `LinkKeys.LinkKeyTable`.
- Ring buffers keep their arrays.
- Every loop of the source is a `while` loop with invariants.
- Each such method is proved to reach the state that a pure function of the old state describes:
  - `EHCILL.Run` for the byte scan;
  - the `…Fn` transitions of `GattContext`;
  - `Vendor.Replay` for the patch walk (with a record that runs past the table failing unsent; the walk as written is `Vendor.StepAsWritten`);
  - `SppLe.Added` and `SppLe.Removed` for the data buffers;
  - `LinkKeys.Created` and `LinkKeys.Deleted`.

  The properties the firmware relies on are then lemmas about those functions:
  - round trips;
  - "nothing else changes";
  - the ordering of bytes through the rings;
  - consistency of the discovery context;
  - when a patch download fails.

Things outside the model are inputs:
- The Bluetooth stack's answers are oracles indexed by call number:
  - `HCI_Send_Raw_Command` replies;
  - the results of GATT client calls;
  - the results of `GATT_Handle_Value_Notification`.
- Memory allocations are boolean inputs.
- The hardware is a set of inputs and ghost outputs:
  - the CTS level and edge, and whether the UART is busy, are inputs;
  - the RTS line, the bytes written to the UART, and the callbacks made to the HCI driver are ghost outputs.

The MSP430's `int` and `unsigned int` are 16 bits wide. Word-sized handle arithmetic is therefore modelled modulo 2^16 (`GattData.Add16`, `GattData.Sub16`), and so is the patch length of `Download_Patch` (`Vendor.PatchLenAfter`).

Quirks of the source that the model keeps, and states as proved facts:
- **The XON re-enable never fires** (HCITRANS.c:363). It needs more free bytes than `XON_LIMIT` (128), the size of the receive ring. Receive flow that an overrun or the XOFF limit switched off therefore stays off: `HciTransport.Uart.RxProcess` leaves the flags unchanged.
- **`HCITR_COMWrite` always returns 0** (HCITRANS.c:900, 962, 971). The write error it sets when the controller does not wake is overwritten. Only the data is dropped (`HciTransport.Uart.ComWrite`).
- **Descriptor continuations are asymmetric** (GDIS.c:513-539). For the last characteristic, the first request reaches the service's end handle, but a continuation request stops one handle short of it (`GattData.LastHandleOnlyInFirstRequest`). Before a next characteristic, a continuation skips a single remaining handle (`GattData.ContinuationBeforeNext`).
- **A page that reaches the service end asks for an inverted range** (GDIS.c:526-529, 1142-1148). When a descriptor page for the last characteristic ends at the service's end handle E < 0xFFFE, the next handle is E+1. The 16-bit difference E - (E+1) is 0xFFFF, so the continuation asks for [E+1, E-1], whose start lies past its end (`GattData.ContinuationPastEnd`).
- **An extra service page can be requested** (GDIS.c:1020-1021, 1040-1042). When a service response ends with a service reaching 0xFFFF after one ending below 0xFFFE, another Discover Services request is issued (`GattData.ExtraServicePage`, `GattProperties.ExtraPageRequested`).
- **`SPPLEReadData` keeps the length of the last removal rather than the sum** (SPPLEDemo.c:1401). The result is still right, because the first removal already takes all it can (`SppLe.RemovedDrains`).
- **`DeleteLinkKey` returns the loop index for a single address**, not the HCI result (SPPLEDemo.c:1586-1597).
- **`GDIS_Service_Discovery_Start` returns 0 without filing a discovery** when the GATT client answers 0 (`GattProperties.StartZeroWithoutDiscovery`).

- **`SPPLESendData` drops queued bytes when Tx notifications are off** (SPPLEDemo.c:1204, 1247-1253). With credits, it removes up to min(`SPPLE_DATA_BUFFER_LENGTH`, credits) bytes from the transmit buffer, sends nothing, and returns FALSE, although the comment at SPPLEDemo.c:1165 says the data is kept for later. `SppLe.Device.SendData` states this case.

Adjacent characteristics are handled as intended. In a service ending at 20, with characteristic values at 10 and 12, characteristic 10 gets no descriptor request, because handle 11 is characteristic 12's declaration and the range test `(NextHandle - Handle) > 1` at GDIS.c:564-570 fails. Characteristic 12 gets [13,20] (`GattData.TwoCharacteristicExample`).

## Model

| member | source | states |
|---|---|---|
| EHCILL.IsHcillCharacter | EHCILL.c:68-75 | a byte is an eHCILL control byte exactly when it lies in 0x30..0x33 |
| EHCILL.LeadingIndications | EHCILL.c:340-438 | the count is the length of the longest prefix made only of GO_TO_SLEEP_IND / WAKE_UP_IND bytes: every byte before it is one, the byte at it (if any) is not |
| EHCILL.RunCounts | EHCILL.c:326-444 | the scan credits exactly the leading indication bytes plus a terminating WAKE_UP_ACK, stops early exactly when a non-indication byte exists, and a WAKE_UP_ACK leaves the machine Awake with no action |
| EHCILL.RunKeepsActionConsistent | EHCILL.c:340-438 | every action the scan requests matches the state it leaves (sleep ack only in WaitSendSleepAck, wake-up ack only in ControllerInitWakeup) |
| EHCILL.AfterAction | EHCILL.c:449-506 | HCILL_ActionTaken performs a transition iff the action is one the current state expects; sleep ack goes to Sleep, wake-up ack to Awake, anything else changes nothing |
| EHCILL.RequestedActionIsAccepted | EHCILL.c:326-506 | whatever action HCILL_Process_Characters requests, confirming it with HCILL_ActionTaken succeeds |
| EHCILL.DecrementedLock | EHCILL.c:246-260 | HCILL_Decrement_Power_Lock(Count) equals Count calls of HCILL_Power_Unlock, and never raises the lock |
| EHCILL.UnlockedTimesSaturates | EHCILL.c:228-238 | n calls of HCILL_Power_Unlock subtract n from the lock, saturating at zero |
| EHCILL.RunNeverSleeps | EHCILL.c:340-438 | bytes received from the controller never put the machine into Sleep |
| EHCILL.LowPowerNeedsSleepAck | Main.c:74-86 | the idle hook's low-power test can only pass after HCILL_ActionTaken confirms a sent GO_TO_SLEEP_ACK; received bytes alone never allow it |
| EHCILL.Machine.constructor | EHCILL.c:97-101 | the machine starts Awake with no lock held |
| EHCILL.Machine.Init | EHCILL.c:97-101 | HCILL_Init resets the state to Awake and the lock to 0 |
| EHCILL.Machine.PowerLock | EHCILL.c:214-225 | the lock count goes up by one, the state is unchanged |
| EHCILL.Machine.PowerUnlock | EHCILL.c:228-240 | the lock count goes down by one unless already zero, the state is unchanged |
| EHCILL.Machine.DecrementPowerLock | EHCILL.c:246-260 | the lock drops by Count saturating at zero, which is Count single unlocks |
| EHCILL.Machine.ControllerInitiatedWakeup | EHCILL.c:277-296 | returns 1 and enters ControllerInitWakeup iff the machine was asleep; otherwise returns 0 and changes nothing |
| EHCILL.Machine.HostInitiatedWakeup | EHCILL.c:300-319 | returns 1 and enters HostInitWakeup iff the machine was asleep; otherwise returns 0 and changes nothing |
| EHCILL.Machine.ProcessCharacters | EHCILL.c:326-444 | a buffer not starting with a control byte is ignored; otherwise the new state, requested action and processed count are those of the byte-by-byte scan |
| EHCILL.Machine.ActionTaken | EHCILL.c:449-506 | the result is 1 exactly when the transition of AfterAction happened, and the state follows it |
| EHCILL.ReplyStatus | EHCILL.c:157-166 | a failed call returns its own result; otherwise a single status byte is returned negated and any other reply length is -1, so 0 means exactly a successful call answering one zero byte |
| EHCILL.AtLeast | EHCILL.c:142-146 | a timeout is raised to its minimum and never lowered |
| EHCILL.Configure | EHCILL.c:118-210 | stack ID 0 is refused; without buffers nothing is sent and 0 is returned; the parameters command is sent first iff both timeouts are non-zero, with both raised to at least 10 ms; only the sleep-mode command, with its fixed parameters, follows it, and when it is sent last its reply status is the result; at most two commands are sent; the sleep-mode command is always sent last unless the parameters reply fails, and a failing parameters reply is returned with only the parameters command sent |
| EHCILL.SleepModeParameters | EHCILL.c:176-183 | the sleep-mode command has nine bytes, enables eHCILL and carries the deep-sleep flag |
| HciTransport.FlowOnLowersRts | HCITRANS.c:44-48 | FLOW_ON lowers RTS only when receive flow is enabled and neither the RTS-high nor the eHCILL flow-off flag is set |
| HciTransport.MustPrime | HCITRANS.c:572 | the transmitter is started only when enabled, allowed by CTS and not already primed |
| HciTransport.AckByte | HCITRANS.c:1002-1026 | the byte sent for a requested action is an eHCILL control byte |
| HciTransport.WakeOutcome | HCITRANS.c:430-458 | a host-initiated wake-up ends Awake exactly when the controller answered WAKE_UP_IND or WAKE_UP_ACK |
| HciTransport.WakeReplyProcessed | HCITRANS.c:430-458 | processing the controller's reply byte from HostInitWakeup yields the state WakeOutcome names and no action |
| HciTransport.ElapsedTicks | HCITRANS.c:439-443 | the elapsed tick count is the 32-bit unsigned difference, also across a wrap of the tick counter |
| HciTransport.Uart.RxBytesReady | HCITRANS.c:1070-1078 | when open, the count is the number of received bytes held; when closed, 0 |
| HciTransport.Uart.constructor | HCITRANS.c:74-94 | the static context starts closed, with empty rings, no flags and nothing sent or delivered |
| HciTransport.Uart.FlowOn | HCITRANS.c:44-48 | RTS is lowered exactly when FLOW_ON's test holds, else left as it was |
| HciTransport.Uart.ReceiveInterrupt | HCITRANS.c:177-219 | with room, the byte is appended to the receive contents and XOFF raises RTS at the limit; without room, the byte is dropped, the overrun flag set and flow disabled |
| HciTransport.Uart.StoreReceived | HCITRANS.c:188-196 | storing at the in index appends the byte to the receive contents |
| HciTransport.Uart.TxTransmit | HCITRANS.c:135-163 | when CTS allows and bytes are queued, the oldest queued byte goes on the wire and leaves the ring, and the transmitter is primed; otherwise nothing is sent and priming stops |
| HciTransport.Uart.SendOldest | HCITRANS.c:142-150 | the oldest byte of the transmit ring is written to the UART and removed from the ring |
| HciTransport.Uart.StoreChunk | HCITRANS.c:553-567 | copying a chunk at the in index appends it to the transmit contents |
| HciTransport.Uart.LoadTransmitBuffer | HCITRANS.c:531-586 | all of the data is queued after what was queued before, and the bytes on the wire are those the ring sent, in order |
| HciTransport.Uart.LoadChunk | HCITRANS.c:536-585 | one pass queues a non-empty prefix of the rest |
| HciTransport.Uart.WaitForRoom | HCITRANS.c:539-540 | the wait ends with a free slot, sending only bytes already queued |
| HciTransport.Uart.PrimeIfIdle | HCITRANS.c:572-584 | starting the transmitter sends only queued bytes and keeps the other flags |
| HciTransport.Uart.SentHcillCharacter | HCITRANS.c:464-494 | a sent control byte confirms its action in the eHCILL machine |
| HciTransport.Uart.TakeChunk | HCITRANS.c:342-359 | the chunk handed over is the oldest received bytes and they leave the ring |
| HciTransport.Uart.RxProcess | HCITRANS.c:329-398 | the oldest contiguous run of received bytes is delivered and removed; the flow flags never change (the XON branch is dead); with nothing received, a pending control byte is sent when the UART is idle and its action confirmed |
| HciTransport.Uart.ComProcess | HCITRANS.c:874-879 | on the open transport the bytes delivered and the bytes left together are the old receive contents; otherwise nothing happens |
| HciTransport.Uart.InvalidStartCallback | HCITRANS.c:982-1066 | an unparsed byte is run through the eHCILL scan; a requested acknowledgement is sent now when the UART is idle (and confirmed) or parked for later; a sleep ack also raises RTS |
| HciTransport.Uart.AnswerHcill | HCITRANS.c:1000-1052 | a requested acknowledgement is written and confirmed, or stored with its byte when the UART is busy |
| HciTransport.Uart.WakeupController | HCITRANS.c:401-460 | from Sleep on an open transport, WAKE_UP_IND is queued, the eHCILL hold released and the machine ends as the reply says; otherwise nothing is queued |
| HciTransport.Uart.SendWakeup | HCITRANS.c:416-458 | WAKE_UP_IND is queued, the eHCILL hold on RTS cleared, and the state is WakeOutcome of the reply |
| HciTransport.Uart.PrepareWrite | HCITRANS.c:910-964 | a pending control byte is sent first and confirmed, then a sleeping controller is woken; the result says whether the machine is Awake |
| HciTransport.Uart.ComWrite | HCITRANS.c:898-975 | the result is always 0; with an awake controller the data is queued; after a failed wake-up nothing but WAKE_UP_IND is queued |
| HciTransport.Uart.ClearBuffers | HCITRANS.c:617 | the memset of the context zeroes both ring buffers |
| HciTransport.Uart.ComOpen | HCITRANS.c:600-719 | the transport opens iff it was closed and driver information and callback are given; a refusal changes nothing |
| HciTransport.Uart.OpenContext | HCITRANS.c:610-712 | after opening, both rings are empty, receive flow and transmitter are enabled, transmit flow follows CTS and RTS is low |
| HciTransport.Uart.ResetRings | HCITRANS.c:617-626 | both rings are empty with all bytes free and indices at 0 |
| HciTransport.Uart.SetOpenFlags | HCITRANS.c:654-705 | the flags are receive flow and transmitter enabled, plus transmit flow when CTS is low, and the CTS edge is armed accordingly |
| HciTransport.Uart.ComClose | HCITRANS.c:740-777 | closing the open transport clears its flags and delivers the close callback once; any other call changes nothing |
| HciTransport.Uart.DisableTransmitter | HCITRANS.c:498-505 | only the transmit-enabled flag is cleared |
| HciTransport.Uart.EnableTransmitter | HCITRANS.c:509-524 | the transmitter is enabled and restarted at once when CTS allows it |
| HciTransport.Uart.DisableUartTxRx | HCITRANS.c:822-866 | enabling clears RTS-high and re-enables the transmitter; disabling raises RTS and disables the transmitter |
| HciTransport.Uart.ComReconfigure | HCITRANS.c:792-867 | a parameter change leaves RTS-high cleared and the transmitter enabled; a global disable raises RTS and stops the transmitter; a global enable undoes it; nothing queued is lost |
| HciTransport.Uart.CtsInterrupt | HCITRANS.c:237-325 | the armed edge flips; a falling edge enables transmit flow; a rising edge stops it and starts a controller-initiated wake-up from Sleep, returning 1 exactly then |
| HciTransport.Uart.CtsFallingEdge | HCITRANS.c:247-283 | transmit flow is enabled, a waiting ring sends its oldest byte, and during a controller-initiated wake-up the eHCILL hold is released |
| HciTransport.Uart.EnableTxFlow | HCITRANS.c:254-265 | transmit flow is enabled and a waiting ring restarted with its oldest byte |
| HciTransport.Uart.ReleaseHcillHold | HCITRANS.c:274-282 | the eHCILL flow-off flag is cleared only during a controller-initiated wake-up |
| HciTransport.Uart.CtsRisingEdge | HCITRANS.c:284-322 | transmit flow and priming stop; the result is 1 exactly when a sleeping controller moved to ControllerInitWakeup |
| Ring.PushView | HCITRANS.c:188-196 | storing a byte at the in index of a non-full ring appends it to the contents |
| Ring.WriteView | HCITRANS.c:553-567 | copying data after the in index appends it to the contents |
| Ring.PopView | HCITRANS.c:145-150 | advancing the out index by k removes the k oldest bytes |
| Ring.ChunkView | HCITRANS.c:342-347 | the k oldest bytes stored before the end of the buffer are one contiguous slice |
| Ring.InIndexAfterPush | HCITRANS.c:565-567 | the wrapped in index after a push is the in index of the longer contents |
| Ring.InIndexAfterPop | HCITRANS.c:350-352 | popping does not move the in index |
| Ring.CopyInto | SPPLEDemo.c:1020 | BTPS_MemCopy into the buffer overwrites exactly the target slots |
| GattData.Add16 | GDIS.c:513-539 | Word_t addition wraps at 2^16 |
| GattData.Sub16 | GDIS.c:542-591 | a difference of Word_t handles wraps below zero as a 16-bit unsigned int |
| GattData.SameUuid | GDIS.c:600-642 | two UUIDs compare equal exactly when their 128-bit values (16-bit ones widened with the Base UUID) are equal |
| GattData.MatchesFrom | GDIS.c:651-679 | the filter loop finds a match iff some remaining filter entry compares equal |
| GattData.ServiceWanted | GDIS.c:651-679 | with no filter every service is wanted; otherwise exactly those matching a filter entry |
| GattData.AppendProperties | GDIS.c:345-476 | adding to a list keeps the old entries in order, makes the key present, and keeps keys unique |
| GattData.Find | GDIS.c:276-278 | a search finds an entry with the key iff one exists, and it is the first such entry |
| GattData.NewService | GDIS.c:1011-1016 | a new service entry is well formed and has no characteristics |
| GattData.AddCharacteristic | GDIS.c:1086-1091 | the characteristic is appended unless its handle is already listed, the service stays well formed and its descriptor count is unchanged |
| GattData.AddDescriptor | GDIS.c:1150-1157 | the descriptor is appended to characteristic i unless already listed, the service stays well formed (counts match the lists), and every other characteristic and field is untouched |
| GattData.ResumeHandle | GDIS.c:1007-1021 | the next page starts one past the last service end below 0xFFFF, or is 0xFFFF (no page) when every entry ends at 0xFFFF |
| GattData.ExtraServicePage | GDIS.c:1020-1021 | a last service ending at 0xFFFF after one ending below 0xFFFE still leaves a next page to request |
| GattData.WalkRangeBeforeNext | GDIS.c:542-591 | before a next characteristic N, characteristic C gets [C+1, N-2], only when non-empty |
| GattData.WalkRangeLast | GDIS.c:542-591 | the last characteristic of a service ending below 0xFFFF gets [C+1, E] when C < E, and an inverted range when E is 0xFFFE and C == E |
| GattData.WalkRangeLastAtTop | GDIS.c:542-591 | the last characteristic of a service ending at 0xFFFF gets [C+1, 0xFFFE]; handle 0xFFFF is never searched |
| GattData.ContinuationBeforeNext | GDIS.c:513-539 | a continuation from h before a next characteristic N asks [h, N-2], and only when h + 2 < N |
| GattData.ContinuationLast | GDIS.c:513-539 | a continuation from h <= E for the last characteristic asks [h, E-1], and only when h + 1 < E |
| GattData.ContinuationPastEnd | GDIS.c:513-539 | after a page that reached the service end E < 0xFFFE, the continuation from E+1 asks for the inverted range [E+1, E-1] |
| GattData.LastHandleOnlyInFirstRequest | GDIS.c:513-591 | the first request for the last characteristic covers the end handle; no continuation does, from any h <= E+1 (E+1 being where a page that reached E leaves it) |
| GattData.WalkFrom | GDIS.c:542-591 | an issued walk stops at a characteristic of the service with a positive transaction |
| GattData.WalkFromFacts | GDIS.c:542-591 | every request of a walk but an accepted last one was refused; an accepted request is the range of its characteristic |
| GattData.WalkFromOutcome | GDIS.c:542-591 | the accepted request of a walk is its last range |
| GattData.WalkFromTransaction | GDIS.c:542-591 | the walk's transaction is the GATT result of its last request, 0 when nothing was issued |
| GattData.WalkFromLastRange | GDIS.c:542-591 | the last range of an issued walk is its characteristic's range |
| GattData.WalkFromRefusals | GDIS.c:542-591 | every request before the accepted one got a non-positive result |
| GattData.WalkFromStep | GDIS.c:542-591 | one step skips a characteristic without a range, stops on acceptance, or goes on after a refusal |
| GattData.DescriptorPlan | GDIS.c:504-594 | an issued plan names a characteristic of the service and a positive transaction |
| GattData.TwoCharacteristicExample | GDIS.c:542-591 | characteristics at 10 and 12 in a service ending at 20 get no request for 10 and [13, 20] for 12 |
| GattData.Flatten | GDIS.c:799-901 | the flattened event has one entry per characteristic and all descriptors in order |
| GattData.AllDescriptorsCount | GDIS.c:830-860 | with consistent counters the descriptors fill exactly the allocated count |
| GattData.FlattenPlacesDescriptors | GDIS.c:830-880 | each flattened characteristic keeps its identity and count and points at its own descriptors in the shared array |
| GattContext.CompleteFn | GDIS.c:905-935 | a discovery in progress is removed and its completion reported once; other connections are unaffected |
| GattContext.DescriptorRequests | GDIS.c:542-591 | one descriptor request per range |
| GattContext.DescriptorRequestFn | GDIS.c:504-594 | only this connection's entry changes and no event is delivered; of that entry, only the head service's outstanding characteristic handle and the transaction can change |
| GattContext.AddDescriptors | GDIS.c:1132-1160 | adding descriptors keeps the number of characteristics, the target characteristic's handle and every other field of the service |
| GattDiscovery.CompareServiceToServiceList | GDIS.c:651-679 | the loop's answer is ServiceWanted |
| GattDiscovery.FlattenCharacteristics | GDIS.c:799-901 | the buffer built step by step is the flattened list |
| GattDiscovery.CollectServices | GDIS.c:1006-1035 | the loop adds the wanted entries and computes ResumeHandle |
| GattDiscovery.Engine.constructor | GDIS.c:1286-1344 | a context set up by GDIS_Initialize has no discoveries, requests or events |
| GattDiscovery.Engine.Issue | GDIS.c:488-501 | a GATT call is logged and answered by the oracle |
| GattDiscovery.Engine.DispatchComplete | GDIS.c:905-935 | the context becomes CompleteFn of the old one: the discovery is removed and its completion reported once |
| GattDiscovery.Engine.DispatchIndication | GDIS.c:799-901 | the context becomes DispatchIndicationFn of the old one: the head service is reported, flattened or without a list when allocation fails, and removed |
| GattDiscovery.Engine.CharacteristicRequest | GDIS.c:488-501 | the context becomes CharacteristicRequestFn of the old one: one Discover Characteristics request from the given handle to the service end, its transaction remembered when the GATT client accepts |
| GattDiscovery.Engine.DescriptorWalk | GDIS.c:542-591 | the requests made are those of WalkFrom and the stop point and transaction are its |
| GattDiscovery.Engine.WalkOne | GDIS.c:546-589 | a characteristic with a range gets one request, answered by the oracle; one without gets none |
| GattDiscovery.Engine.DescriptorRequest | GDIS.c:504-594 | the context and the result become DescriptorRequestFn of the old context: a continuation or the descriptor walk, the result saying whether a request was accepted |
| GattDiscovery.Engine.StateMachine | GDIS.c:712-795 | the context becomes StateMachineFn of the old one, which keeps it consistent (GattProperties.StateMachineValid) |
| GattDiscovery.Engine.OnErrorResponse | GDIS.c:985-1002 | the context becomes ErrorResponseFn of the old one, whose status rule GattProperties.ErrorStatus states |
| GattDiscovery.Engine.OnServiceResponse | GDIS.c:1003-1058 | the context becomes ServiceResponseFn of the old one, which adds the wanted services (GattProperties.AddServicesContents) |
| GattDiscovery.Engine.OnCharacteristicResponse | GDIS.c:1059-1113 | the context becomes CharacteristicResponseFn of the old one, which keeps it consistent (GattProperties.CharacteristicResponseValid) |
| GattDiscovery.Engine.OnDescriptorResponse | GDIS.c:1114-1172 | the context becomes DescriptorResponseFn of the old one, which keeps it consistent and stalls on an unknown characteristic (GattProperties.DescriptorResponseStalls) |
| GattDiscovery.Engine.OnDisconnection | GDIS.c:1192-1230 | the context becomes DisconnectionFn of the old one: a discovery in progress on that connection is completed |
| GattDiscovery.Engine.Start | GDIS.c:1401-1490 | the context and return value are StartFn of the old context (GattProperties.StartErrors, StartThenStop) |
| GattDiscovery.Engine.Stop | GDIS.c:1500-1559 | the context and return value are StopFn of the old context (GattProperties.StopOutcome) |
| GattProperties.SetDiscoveryValid | GDIS.c:1449 | filing a well-formed discovery keeps the context consistent |
| GattProperties.CompleteValid | GDIS.c:905-935 | completion keeps the context consistent and only appends to the logs |
| GattProperties.DispatchIndicationValid | GDIS.c:799-901 | dispatching an indication keeps the context consistent and only appends to the logs |
| GattProperties.CharacteristicRequestValid | GDIS.c:488-501 | a characteristic request keeps the context consistent |
| GattProperties.DescriptorRequestValid | GDIS.c:504-594 | a descriptor request keeps the context consistent |
| GattProperties.MoveToNextServiceValid | GDIS.c:770-792 | moving to the next service keeps the context consistent |
| GattProperties.StateMachineValid | GDIS.c:712-795 | the state machine keeps the context consistent and only extends the logs |
| GattProperties.ErrorResponseValid | GDIS.c:985-1002 | an error response keeps the context consistent |
| GattProperties.AddServicesValid | GDIS.c:1008-1035 | services added by a response are well formed |
| GattProperties.ServiceResponseValid | GDIS.c:1003-1058 | a service response keeps the context consistent |
| GattProperties.AddCharacteristicsValid | GDIS.c:1075-1094 | the head service stays well formed through a characteristic response and keeps its end handle |
| GattProperties.ReplaceHeadValid | GDIS.c:1068 | replacing the head service by a well-formed one keeps the context consistent |
| GattProperties.CharacteristicResponseValid | GDIS.c:1059-1113 | a characteristic response keeps the context consistent |
| GattProperties.AddDescriptorsValid | GDIS.c:1134-1160 | the head service stays well formed through a descriptor response |
| GattProperties.DescriptorResponseValid | GDIS.c:1114-1172 | a descriptor response keeps the context consistent |
| GattProperties.StartValid | GDIS.c:1401-1490 | a start keeps the context consistent |
| GattProperties.StopValid | GDIS.c:1500-1559 | a stop keeps the context consistent |
| GattProperties.CompleteOnce | GDIS.c:905-935 | a second completion for the same connection changes nothing |
| GattProperties.UnknownConnectionIgnored | GDIS.c:940-1230 | every response and a disconnection ignore a connection without a discovery in progress |
| GattProperties.ErrorStatus | GDIS.c:985-1002 | an error other than Attribute Not Found completes with Response Error, any other failure with Response Timeout |
| GattProperties.AddServicesContents | GDIS.c:1008-1035 | after a response the old services are kept in order, every wanted entry's start handle is present, every new service came from a wanted entry, and start handles stay unique |
| GattProperties.UnwantedServiceSkipped | GDIS.c:1026-1034 | a service matching no filter entry is never added |
| GattProperties.IndicationFitsAllocation | GDIS.c:820-860 | the flattened indication has exactly the counted characteristics and descriptors |
| GattProperties.IndicationWithoutBuffer | GDIS.c:880-897 | an indication is delivered without a list when its buffer cannot be allocated |
| GattProperties.ExtraPageRequested | GDIS.c:1040-1044 | the extra page is requested by the engine when the GATT client accepts |
| GattProperties.DescriptorResponseStalls | GDIS.c:1129-1131 | a descriptor response for a characteristic that cannot be found changes nothing, so the discovery stalls |
| GattProperties.StartErrors | GDIS.c:1409-1487 | invalid parameters, a missing context and a discovery already outstanding are refused with their codes and change nothing |
| GattProperties.StartThenStop | GDIS.c:1426-1533 | an accepted start returns 0 after requesting all services and files a discovery in the service state under the GATT transaction; Stop then removes it, cancels that transaction and returns 0 |
| GattProperties.StartZeroWithoutDiscovery | GDIS.c:1441-1458 | a GATT result of 0 makes Start return 0 without filing a discovery |
| GattProperties.StartCancelsOnAllocationFailure | GDIS.c:1449-1457 | a failed entry allocation cancels the started transaction and returns insufficient resources |
| GattProperties.StopOutcome | GDIS.c:1516-1536 | Stop returns 0 exactly when a discovery was in progress, otherwise the invalid-parameter code with nothing changed; afterwards none remains and no event is delivered |
| Vendor.DecodeOpcode | BTPSVEND.c:140-141 | the OGF fits 6 bits and the OCF 10 bits |
| Vendor.OpcodeBytesRoundTrip | BTPSVEND.c:140-141 | splitting the opcode bytes into OGF and OCF and joining them gives back the bytes |
| Vendor.OpcodeFieldsRoundTrip | BTPSVEND.c:140-141 | an OGF and OCF come back unchanged from their opcode bytes |
| Vendor.RemainingAfter | BTPSVEND.c:158-160 | a record fits iff its header and parameters fit in what is left, and the rest shrinks by exactly that |
| Vendor.ReplayAtRecord | BTPSVEND.c:129-160 | a complete record is sent, and the walk goes on past it iff the reply accepts it |
| Vendor.ReplayAtCursor | BTPSVEND.c:125-164 | the walk at a cursor stops on a bad marker, fails on a short record, or sends the record |
| Vendor.ReplayEncoded | BTPSVEND.c:104-170 | replaying the table of some commands, all accepted, sends exactly those commands and succeeds |
| Vendor.ReplayStopsAtRefusal | BTPSVEND.c:149-157 | the walk stops at the first refused command: everything up to it is sent and the download fails |
| Vendor.RefusalFirst | BTPSVEND.c:149-157 | a refused first command alone is sent |
| Vendor.RefusalLater | BTPSVEND.c:149-160 | an accepted first record extends a walk that fails later |
| Vendor.AcceptedRecord | BTPSVEND.c:149-160 | an accepted record in front of a failing walk adds its command to it |
| Vendor.ReplayRecord | BTPSVEND.c:129-160 | one record in front of a table is sent, then the rest is walked if accepted |
| Vendor.ReplayAccepted | BTPSVEND.c:149-157 | a successful walk had every command accepted; a failed one all but its last |
| Vendor.ReplayBounded | BTPSVEND.c:125-164 | the walk sends at most one command per four table bytes |
| Vendor.PatchLenAfter | BTPSVEND.c:160 | the 16-bit remaining length as written, exact when the record fits |
| Vendor.MemoryRead | BTPSVEND.c:66-98 | reading k bytes from the table's memory gives k bytes, exactly the table's slice when the read stays inside it |
| Vendor.StepAsWritten | BTPSVEND.c:127-163 | one pass as written: it stops (PatchLen 0) iff the byte at the cursor is not the command marker; otherwise it sends a command with TempBuffer[3] parameters, read from memory even past the table, and PatchLen stays a 16-bit value |
| Vendor.StepAsWrittenAgrees | BTPSVEND.c:127-163 | on a record that fits in the table, the pass as written sends the same command and leaves the same length as the model's walk |
| Vendor.TruncatedRecordWraps | BTPSVEND.c:160 | a 6-byte table announcing 5 parameters is sent as written with 3 parameter bytes from past the table, and PatchLen wraps to 0xFFFD, while the model's walk fails that record unsent |
| Vendor.DownloadFn | BTPSVEND.c:117-167 | invalid stack ID, length or pointer fails the download with nothing sent |
| Vendor.LowEnergyPatchNeedsBase | BTPSVEND.c:279-295 | when the base patch fails, initialisation ends with exactly that failure, so the low-energy patch is never sent |
| Vendor.AfterResetAccepted | BTPSVEND.c:260-318 | when initialisation succeeds, every command it sent was accepted |
| Vendor.Patcher.constructor | BTPSVEND.c:45-51 | the flag starts clear and nothing is sent |
| Vendor.Patcher.InitializeBeforeHciOpen | BTPSVEND.c:189-196 | the flag is cleared and the hook succeeds |
| Vendor.Patcher.InitializeBeforeHciReset | BTPSVEND.c:231-244 | the flag is set and the hook succeeds |
| Vendor.Patcher.MovePatchBytes | BTPSVEND.c:66-98 | the bytes are copied to the destination; with none to copy the destination byte is cleared |
| Vendor.Patcher.SendRawCommand | BTPSVEND.c:144-145 | the command is logged and the next reply comes back |
| Vendor.Patcher.PatchStep | BTPSVEND.c:127-163 | one pass sends the record's command, stops with the walk's verdict, or continues with strictly less left |
| Vendor.Patcher.SendRecord | BTPSVEND.c:133-160 | the record's command is sent; the pass stops iff it is refused, else the remaining length shrinks by the record |
| Vendor.Patcher.DownloadPatch | BTPSVEND.c:104-170 | the commands sent and the verdict are those of DownloadFn |
| Vendor.Patcher.InitializeAfterHciReset | BTPSVEND.c:260-318 | the commands sent and the verdict are those of AfterResetFn |
| SppLe.Added | SPPLEDemo.c:993-1039 | as much of the data as there is room for is appended; all of it iff it fits; a partial add fills the buffer |
| SppLe.Removed | SPPLEDemo.c:1049-1103 | the bytes taken are the oldest, up to the length, and the rest stays; fewer are taken only when the buffer empties |
| SppLe.RemoveAfterAdd | SPPLEDemo.c:993-1103 | bytes added come out again unchanged after the bytes already held |
| SppLe.RemovedDrains | SPPLEDemo.c:1394-1405 | a second removal with the remaining length finds nothing |
| SppLe.DataBuffer.Contents | SPPLEDemo.c:215-222 | the contents have as many bytes as are not free |
| SppLe.DataBuffer.Snapshot | SPPLEDemo.c:215-222 | the abstract buffer fits its size |
| SppLe.DataBuffer.constructor | SPPLEDemo.c:1107-1117 | a new buffer is empty with the given size |
| SppLe.DataBuffer.InitializeBuffer | SPPLEDemo.c:1107-1117 | the buffer is emptied with all bytes free and both indices at 0 |
| SppLe.DataBuffer.Store | SPPLEDemo.c:1017-1031 | copying a chunk at the in index appends it to the contents |
| SppLe.DataBuffer.AddDataToBuffer | SPPLEDemo.c:993-1039 | the new buffer and the count added are Added |
| SppLe.DataBuffer.Take | SPPLEDemo.c:1069-1095 | the oldest bytes leave the buffer |
| SppLe.DataBuffer.RemoveDataFromBuffer | SPPLEDemo.c:1049-1103 | the new buffer and the bytes removed are Removed |
| SppLe.Accepted | SPPLEDemo.c:1259-1264 | a notification takes at most the bytes offered, nothing when it fails |
| SppLe.Sent | SPPLEDemo.c:1259-1264 | the bytes sent are as many as accepted |
| SppLe.Spend | SPPLEDemo.c:1194-1264 | credits left plus bytes accepted equal the credits at the start |
| SppLe.SpendOne | SPPLEDemo.c:1262-1264 | one capped notification spends exactly what it delivered |
| SppLe.SentOne | SPPLEDemo.c:1248-1262 | one notification delivers a prefix of what it offered |
| SppLe.Device.constructor | SPPLEDemo.c:1988-1996 | a connected device has both buffers empty and no credits |
| SppLe.Device.SendCredits | SPPLEDemo.c:1121-1140 | credits are notified only when non-zero and requested by the peer |
| SppLe.Device.ReadData | SPPLEDemo.c:1382-1417 | invalid parameters change nothing; otherwise the bytes read are those Removed and exactly that many credits are granted |
| SppLe.Device.NextChunk | SPPLEDemo.c:1196-1231 | the refill takes queued bytes first, then the caller's data, at most the cap, losing nothing |
| SppLe.Device.SendData | SPPLEDemo.c:1170-1309 | without credits the data is queued as Added and the result says whether it all fitted; with credits the credits drop by exactly the bytes accepted, and the bytes sent are a prefix of the queued bytes followed by the data; with credits but Tx notifications off, nothing is sent, the credits stay, the result is FALSE and the first min(buffer length, credits) queued bytes are gone |
| SppLe.Device.QueueRest | SPPLEDemo.c:1293-1304 | the no-credit path queues the data and reports whether all of it fitted |
| SppLe.Device.CreditPass | SPPLEDemo.c:1190-1292 | one pass keeps the credit accounting; while the loop goes on, no byte of the stream is lost; a pass that ends drops the bytes pending, and what was sent stays a prefix of the stream |
| SppLe.Device.RefillPass | SPPLEDemo.c:1196-1253 | a pass from an empty SPPLEBuffer removes at most min(buffer length, credits) queued bytes, keeps the accounting; while the loop goes on, no byte of the stream is lost; a pass that ends drops the bytes pending, and what was sent stays a prefix of the stream |
| SppLe.Device.SendPending | SPPLEDemo.c:1240-1291 | notifying or leaving the loop keeps the accounting and the prefix property |
| SppLe.Device.Notify | SPPLEDemo.c:1247-1283 | one data notification is logged with the oracle's answer and the credits drop by what it took |
| SppLe.Device.AppendNotification | SPPLEDemo.c:1259-1264 | a capped notification extends the accounting and the bytes sent |
| SppLe.Device.PendingLost | SPPLEDemo.c:1249-1253 | leaving the loop with bytes pending keeps what was sent a prefix of the stream |
| LinkKeys.FindFrom | SPPLEDemo.c:1586-1594 | the scan finds the first slot holding the address, or reports that none does |
| LinkKeys.Lookup | SPPLEDemo.c:2372-2383 | the request finds a key iff some slot holds the address |
| LinkKeys.StoreSlot | SPPLEDemo.c:2429-2443 | creation stores into a slot holding the address or a free one, and finds none only when the table is full of other addresses |
| LinkKeys.Created | SPPLEDemo.c:2419-2456 | the table keeps its size, and one with neither the address nor a free slot is unchanged |
| LinkKeys.Deleted | SPPLEDemo.c:1578-1595 | deletion keeps the table size |
| LinkKeys.LookupAfterCreated | SPPLEDemo.c:2361-2456 | after a stored creation, a request for that address answers with the new key |
| LinkKeys.LookupOtherAfterCreated | SPPLEDemo.c:2361-2456 | creation for one address does not change what a request finds for another |
| LinkKeys.CreatedKeepsUnique | SPPLEDemo.c:2429-2450 | creation never stores an address twice |
| LinkKeys.DeletedKeepsUnique | SPPLEDemo.c:1578-1595 | deletion never stores an address twice |
| LinkKeys.LookupAfterDeleted | SPPLEDemo.c:1564-1598 | deleting an address (or all, with the zero address) makes requests for it find nothing |
| LinkKeys.LookupOtherAfterDeleted | SPPLEDemo.c:1564-1598 | deleting one address does not change what a request finds for another |
| LinkKeys.LinkKeyTable.constructor | SPPLEDemo.c:326-328 | the static table starts with every slot cleared |
| LinkKeys.LinkKeyTable.DeleteLinkKey | SPPLEDemo.c:1564-1598 | the table stays valid (no address twice) and becomes Deleted, after which a request for the deleted address finds nothing, and the zero address clears every slot; the result is the HCI result for the zero address and the loop index otherwise |
| LinkKeys.LinkKeyTable.LinkKeyRequest | SPPLEDemo.c:2361-2393 | on a valid table, the answer is Lookup of the remote address |
| LinkKeys.LinkKeyTable.LinkKeyCreation | SPPLEDemo.c:2419-2456 | the table stays valid and becomes Created; the key is stored iff a slot was found, and once stored a request for the address answers with it |

## Left out

- Interrupt masking (`DISABLE_INTERRUPTS`/`ENABLE_INTERRUPTS`), the stack and list locks, and preemption: each interrupt handler and foreground routine is one atomic method.
- The failures of `BSC_LockBluetoothStack` and `BSC_AcquireListLock` in GDIS.c are not modelled: the model always gets the locks.
- Hardware register access, the UART baud-rate change, `FlushRxFIFO`, SMCLK control, pin set-up, and the busy-waits on the transmit register are left out. The UART being busy is an input instead.
- HciTransport.Uart.WakeupController: the bounded wait for the controller's reply (HCITRANS.c:428-458) is replaced by its outcome, the reply byte if any. The tick arithmetic is `HciTransport.ElapsedTicks`.
- HciTransport.Uart.WaitForRoom: the spin on a full transmit ring is modelled as the transmit interrupt freeing one slot. It does not model CTS holding the ring full forever.
- EHCILL.Configure: the timeouts are kept in milliseconds. The floating-point `MILLISECONDS_TO_FRAMES` conversion and the byte layout of the HCILL parameters command are not modelled.
- EHCILL.Machine.PowerLock, EHCILL.Machine.DecrementPowerLock: the lock count `HCILL_Lock` is a 16-bit signed `int` (EHCILL.c:64, 221), compared with an unsigned `Count` at EHCILL.c:253. The model keeps it as an unbounded `nat`, so it does not model the lock overflowing.
- `HCILL_DeInit` is empty. `HCILL_Get_Power_Lock_Count` and `HCILL_GetState` are field reads of `EHCILL.Machine`.
- `HCI_VS_InitializeAfterHCIOpen`, `HCI_VS_InitializeBeforeHCIClose`, `HCI_VS_InitializeAfterHCIClose`, `HCI_VS_EnableFeature` and `HCI_VS_DisableFeature` only return a constant and are not modelled.
- The patch tables of `Patch_PAN1316.h` are parameters (`Vendor.Patch`). Patch_PAN1316.h is not part of this model.
- Vendor.Patcher.MovePatchBytes: the 20-bit far-memory reads are ordinary sequence reads.
- Vendor.Replay, Vendor.Patcher.PatchStep, Vendor.Patcher.DownloadPatch: they model the corrected loop. A record that runs past the end of the table fails the download unsent, whereas BTPSVEND.c:129-160 reads past the table, sends that record and continues with PatchLen wrapped. The pass as written is `Vendor.StepAsWritten` (see Findings). `Vendor.DownloadFn` and `Vendor.Patcher.InitializeAfterHciReset` inherit this.
- The GDIS module set-up and clean-up (`InitializeModule`, `CleanupModule`, `GDIS_Cleanup`), the failures of `GDIS_Initialize`, and the context list of Bluetooth stacks are represented only by `GattContext.Module` (whether the module is initialised and whether the stack has a context) and by `GattDiscovery.Engine.constructor`.
- The per-entry free routines of GDIS.c are left out: memory is not modelled, and allocation outcomes are oracles.
- SppLe.Device.SendData: the source retries a failed or empty notification without bound. The model stops after `attempts` notifications.
- SppLe.Device.SendData: on the credit path with Tx notifications on, the result value, and where the bytes not yet sent end up, are not stated. Only the credit accounting and the prefix property are.
- SppLe.Accepted: the stack's answer to a notification is capped at the bytes offered. A stack that claimed more is not modelled.
- The re-queueing branch of `SPPLESendData` (SPPLEDemo.c:1275-1282) is not a separate case. It cannot be taken, because the bytes pending never exceed the credits left (see `SppLe.Device.Notify`).
- `SPPLEDataIndicationEvent` and `SPPLEReceiveCreditEvent` are not modelled. They are callers of the modelled routines.
- The GATT MTU `SPPLE_DATA_BUFFER_LENGTH` is a parameter of `SppLe.Device`.
- NULL pointers are empty sequences or boolean flags.
- Error codes whose headers are not part of this model (`BTPS_ERROR_*`, `HCITR_ERROR_*`) are datatype constructors rather than numbers.
- GattData.Find, GattData.AppendProperties: the generic `BSC_…GenericListEntry` helpers are not part of this model. They are modelled from their use in GDIS.c: append at the tail unless the key is already present.

## Findings

| source | as written | input that shows it | evidently intended | confidence | as-written member | corrected member |
|---|---|---|---|---|---|---|
| BTPSVEND.c:160 | `PatchLen -= (TempBuffer[3] + 4)` on a 16-bit unsigned int, with no check that the record fits in what is left | a 6-byte table `01 01 FC 05 00 00` whose record announces 5 parameters: PatchLen wraps from 6 to 0xFFFD, and the loop reads past the table | a record that runs past the end of the table fails the download before anything of it is sent | not executed | Vendor.StepAsWritten, Vendor.TruncatedRecordWraps | Vendor.ReplayAtCursor |
