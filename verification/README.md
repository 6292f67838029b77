# ST25R3911 NFC demo orchestration — a Dafny model

This project models the application layer of four ST25R3911B demo programs
for the STM32L476RG-Nucleo board:

- **501 T5T UID only** polls for ISO 15693 (NFC-V) tags and shows each UID.
- **504 T5T Type V NDEF read** reads and dumps the NDEF message of an NFC-V tag.
- **508 T5T NDEF AAR** formats the tag if needed and writes an Android
  Application Record to it.
- **520 P2P send URL** connects to an NFC-DEP / active P2P peer through LLCP,
  pushes the URI `http://www.st.com` with an SNEP PUT, and keeps the link
  alive with SYMM frames until the peer leaves.

Every demo runs the same `demoCycle` state machine. It has three states:
`NOTINIT`, `START_DISCOVERY` and `DISCOVERY`. One call of `demoCycle` is one
tick. A tick runs the RFAL worker, handles the wake-up button, and then
acts on the state.

The model turns each tick into a pure function. It takes:

- the demo state;
- a `Tick` record holding everything the outside world answers during the
  tick: button level, activation, the device found, and the results of the
  NDEF library and RFAL calls.

It returns the next state and the ordered trace of the external calls made.
Each flow is modelled the same way, as a function of its oracle answers:

- `demoNdef` (504 read flow, 508 format-and-write flow);
- `demoP2P`;
- `demoTransceiveBlocking` (start, then poll the status until it is not
  busy);
- the NFC-V presence loop.

The loops of `demoTransceiveBlocking`, the `demoP2P` keep-alive and the UID
reversal also have `method` versions with loop invariants
(`Exchange.TransceiveBlocking`, `P2p.KeepAliveLoop`, `Uid.ReverseBytes`);
the presence loop is modelled by its closed form only. The static LLCP,
SNEP and NDEF frames of 520 are byte constants. Lemmas decode them
against reference encoders of the NFC Forum formats: LLCP 1.1 section 4.4
(PDU header) and 4.5 (parameter TLVs), SNEP 1.0 section 2, NDEF 1.0
section 3.2 and URI RTD 1.0 section 3.2.

Modules:

- `Rfal`: return codes, device types, discovery parameters.
- `Trace`: the call events and the NDEF-step view of a trace.
- `DemoCycle`: the shared button, state switch and `demoNotif`.
- `Uid`: ISO 15693 UID display order.
- `Exchange`: `demoTransceiveBlocking`.
- `TagSession`: NFC-V dispatch with its presence loop.
- `UidOnly`, `NdefRead`, `NdefAar`, `P2p`: the four demos.
- `Llcp`, `Snep`, `NdefRecord`, `Bytes`: the frame formats.
- `P2pFrames`: the 520 constants.

Paths below are relative to `Projects/STM32L476RG-Nucleo/Examples/`, shortened as:

- `501` = `501_T5T_UID_Only/Src/demo.c`
- `504` = `504_T5T_TypeV_Ndef_Read/Src/ndef_demo.c`
- `508` = `508_T5T_Ndef_AAR/Src/ndef_demo.c`
- `520` = `520_P2P_SendURL/Src/demo.c`

The table uses the full paths.

## Model

| member | source | states |
|---|---|---|
| DemoCycle.Button | Projects/STM32L476RG-Nucleo/Examples/520_P2P_SendURL/Src/demo.c:198-206 | a low button flips the wake-up flag, logs the new value and forces `START_DISCOVERY` whatever the state; nothing else in the parameters changes; a high button changes nothing |
| DemoCycle.TwoPressesRestore | Projects/STM32L476RG-Nucleo/Examples/520_P2P_SendURL/Src/demo.c:198-206 | two presses give back the original parameters, in `START_DISCOVERY` |
| DemoCycle.Switch | Projects/STM32L476RG-Nucleo/Examples/504_T5T_TypeV_Ndef_Read/Src/ndef_demo.c:225-288 | `START_DISCOVERY` turns the six LEDs off, deactivates without sleep, discovers with the current parameters and moves to `DISCOVERY`; `DISCOVERY` without activation and `NOTINIT` change nothing and call nothing; an activation gets the active device, runs the device handler, and ends with deactivate and a 500 ms delay in `START_DISCOVERY`; the active device is fetched only then |
| DemoCycle.Notify | Projects/STM32L476RG-Nucleo/Examples/520_P2P_SendURL/Src/demo.c:115-137 | `demoNotif` selects device 0, and reads the device list, exactly in the poll-select state; every other call it makes is a log; other states call nothing |
| Uid.DisplayUid | Projects/STM32L476RG-Nucleo/Examples/501_T5T_UID_Only/Src/demo.c:221-231 | the displayed UID is the 8-byte UID in reverse order, and reversing it again gives the UID |
| Uid.ReverseReverse | Projects/STM32L476RG-Nucleo/Examples/501_T5T_UID_Only/Src/demo.c:226 | reversal is its own inverse |
| Uid.ReverseBytes | Projects/STM32L476RG-Nucleo/Examples/501_T5T_UID_Only/Src/demo.c:226 | the in-place swap loop computes the reversal |
| UidOnly.Ini | Projects/STM32L476RG-Nucleo/Examples/501_T5T_UID_Only/Src/demo.c:136-159 | initialisation succeeds exactly when the RFAL init does; it then arms `START_DISCOVERY` with compliance mode NFC, one device, 1000 ms, wake-up off with default configuration, NFC-V only and `demoNotif`; on failure the state is untouched |
| UidOnly.Cycle | Projects/STM32L476RG-Nucleo/Examples/501_T5T_UID_Only/Src/demo.c:169-251 | every tick starts with the worker; the result is given for each of button, `START_DISCOVERY`, idle `DISCOVERY`, activation and `NOTINIT`; only the button changes the parameters |
| UidOnly.Handle | Projects/STM32L476RG-Nucleo/Examples/501_T5T_UID_Only/Src/demo.c:216-237 | only an NFC-V device gets any call; every other type falls through with none (what the NFC-V calls are: UidOnly.DispatchOnActivation) |
| UidOnly.WorkerOncePerTick | Projects/STM32L476RG-Nucleo/Examples/501_T5T_UID_Only/Src/demo.c:173 | the worker runs exactly once per tick, before anything else |
| UidOnly.DispatchOnActivation | Projects/STM32L476RG-Nucleo/Examples/501_T5T_UID_Only/Src/demo.c:211-243 | an NFC-V device gets its reversed UID logged and the V LED lit; any other type gets nothing; both end in teardown and `START_DISCOVERY` |
| UidOnly.ActivationRestartsDiscovery | Projects/STM32L476RG-Nucleo/Examples/501_T5T_UID_Only/Src/demo.c:240-242 | the tick after an activation restarts discovery and fetches no device |
| UidOnly.NeverUninitialised | Projects/STM32L476RG-Nucleo/Examples/501_T5T_UID_Only/Src/demo.c:247-249 | once initialised, the machine never returns to `NOTINIT` |
| Exchange.PollCount | Projects/STM32L476RG-Nucleo/Examples/504_T5T_TypeV_Ndef_Read/Src/ndef_demo.c:321-335 | no poll after a failed start; otherwise polling stops at the first status that is not busy |
| Exchange.Status | Projects/STM32L476RG-Nucleo/Examples/504_T5T_TypeV_Ndef_Read/Src/ndef_demo.c:321-335 | the result is the start error, or else a polled status that is never busy |
| Exchange.TransceiveBlocking | Projects/STM32L476RG-Nucleo/Examples/520_P2P_SendURL/Src/demo.c:362-376 | the loop returns the start error with no poll, or else the first status that is not busy with the worker run once before each poll |
| Exchange.CallsSent | Projects/STM32L476RG-Nucleo/Examples/508_T5T_Ndef_AAR/Src/ndef_demo.c:267-281 | one exchange sends its frame exactly once |
| Exchange.SentMember | Projects/STM32L476RG-Nucleo/Examples/520_P2P_SendURL/Src/demo.c:362-376 | a frame is among those sent exactly when an exchange was started with it |
| TagSession.PresencePoll | Projects/STM32L476RG-Nucleo/Examples/504_T5T_TypeV_Ndef_Read/Src/ndef_demo.c:263-268 | inventory is issued once per `ERR_NONE` answer plus once for the first other answer, with a 130 ms delay after each successful one |
| TagSession.Session | Projects/STM32L476RG-Nucleo/Examples/504_T5T_TypeV_Ndef_Read/Src/ndef_demo.c:250-269 | the NFC-V case announces the reversed UID, lights the V LED, then runs the NDEF flow once and unchanged, then the end-of-operation log, the poller init and the presence loop |
| TagSession.Activation | Projects/STM32L476RG-Nucleo/Examples/504_T5T_TypeV_Ndef_Read/Src/ndef_demo.c:243-273 | every activation first turns the LEDs off and waits 50 ms; an NFC-V device then gets its session, every other type nothing more |
| TagSession.SessionShape | Projects/STM32L476RG-Nucleo/Examples/504_T5T_TypeV_Ndef_Read/Src/ndef_demo.c:250-269 | an NFC-V session starts with the reversed-UID log and ends with the presence loop |
| TagSession.ActivationSteps | Projects/STM32L476RG-Nucleo/Examples/508_T5T_Ndef_AAR/Src/ndef_demo.c:196-216 | the NDEF library is used by the NFC-V branch exactly as by its `demoNdef`, and not at all by other device types |
| TagSession.ActivationWithout | Projects/STM32L476RG-Nucleo/Examples/508_T5T_Ndef_AAR/Src/ndef_demo.c:196-221 | the dispatch makes no call besides the flow's own, the LED, the delays, the inventory loop and its logs |
| NdefRead.StateNamesExact | Projects/STM32L476RG-Nucleo/Examples/504_T5T_TypeV_Ndef_Read/Src/ndef_demo.c:87-93 | the name table has exactly one distinct name for each of the four detect states |
| NdefRead.ReadReached | Projects/STM32L476RG-Nucleo/Examples/504_T5T_TypeV_Ndef_Read/Src/ndef_demo.c:349-416 | how far the read flow gets, from context init (1) to message dump (5) |
| NdefRead.ReadFlow | Projects/STM32L476RG-Nucleo/Examples/504_T5T_TypeV_Ndef_Read/Src/ndef_demo.c:337-417 | `demoNdef` always starts with the context init (its library calls in full: NdefRead.ReadFlowSteps) |
| NdefRead.ReadFlowSteps | Projects/STM32L476RG-Nucleo/Examples/504_T5T_TypeV_Ndef_Read/Src/ndef_demo.c:349-416 | the library calls of the read flow are exactly the first `ReadReached` of the five stages context init, detect, read, decode, dump |
| NdefRead.ReadFlowStages | Projects/STM32L476RG-Nucleo/Examples/504_T5T_TypeV_Ndef_Read/Src/ndef_demo.c:349-416 | context init runs once; detect runs exactly when it succeeds; read (with the 8192-byte buffer), decode and dump run exactly when every earlier stage succeeded |
| NdefRead.DetectFailureStopsRead | Projects/STM32L476RG-Nucleo/Examples/504_T5T_TypeV_Ndef_Read/Src/ndef_demo.c:364-372 | with the read feature, a failed detect stops the flow before any read |
| NdefRead.EmptyTagIsNotAnError | Projects/STM32L476RG-Nucleo/Examples/504_T5T_TypeV_Ndef_Read/Src/ndef_demo.c:385-389 | an initialised but empty tag stops the flow after detect, and no failure is logged |
| NdefRead.ReadFlowOnlyLogs | Projects/STM32L476RG-Nucleo/Examples/504_T5T_TypeV_Ndef_Read/Src/ndef_demo.c:337-417 | besides NDEF library calls the flow only logs and dumps |
| NdefRead.Ini | Projects/STM32L476RG-Nucleo/Examples/504_T5T_TypeV_Ndef_Read/Src/ndef_demo.c:142-176 | an attached debugger switches verbose mode on, and nothing switches it off, whether or not init succeeds; a successful init arms discovery for NFC-V only with no notifier; a failed one leaves the machine alone |
| NdefRead.Menu | Projects/STM32L476RG-Nucleo/Examples/504_T5T_TypeV_Ndef_Read/Src/ndef_demo.c:195-222 | the prompt is logged exactly when the feature differs from the previous one, after which the two are equal; the feature stays, or reverts to read |
| NdefRead.Cycle | Projects/STM32L476RG-Nucleo/Examples/504_T5T_TypeV_Ndef_Read/Src/ndef_demo.c:186-289 | the read feature is kept; an activation resets the previous feature and restarts discovery; the machine state changes only on start and activation |
| NdefRead.NfcvActivation | Projects/STM32L476RG-Nucleo/Examples/504_T5T_TypeV_Ndef_Read/Src/ndef_demo.c:250-282 | an NFC-V activation logs the UID, runs `demoNdef` exactly once (its NDEF calls are exactly the stages reached), and ends in teardown and `START_DISCOVERY` |
| NdefRead.PromptExactlyOnChange | Projects/STM32L476RG-Nucleo/Examples/504_T5T_TypeV_Ndef_Read/Src/ndef_demo.c:201-205 | with the read feature, a tick logs the prompt exactly when the previous feature was another one |
| NdefRead.PromptAfterActivation | Projects/STM32L476RG-Nucleo/Examples/504_T5T_TypeV_Ndef_Read/Src/ndef_demo.c:245 | the tick after an activation logs the prompt again |
| NdefRead.FeatureAlwaysRead | Projects/STM32L476RG-Nucleo/Examples/504_T5T_TypeV_Ndef_Read/Src/ndef_demo.c:195-207 | over any run of ticks the feature stays read |
| NdefRead.InitialFeatureIsRead | Projects/STM32L476RG-Nucleo/Examples/504_T5T_TypeV_Ndef_Read/Src/ndef_demo.c:106 | the feature starts as read |
| NdefAar.OrAllNone | Projects/STM32L476RG-Nucleo/Examples/508_T5T_Ndef_AAR/Src/ndef_demo.c:324-336 | the OR of the build codes is `ERR_NONE` exactly when each code is |
| NdefAar.OrAllKeepsBits | Projects/STM32L476RG-Nucleo/Examples/508_T5T_Ndef_AAR/Src/ndef_demo.c:328-335 | every bit of every build code survives in the accumulated code |
| NdefAar.PackageArgIsName | Projects/STM32L476RG-Nucleo/Examples/508_T5T_Ndef_AAR/Src/ndef_demo.c:87 | the package buffer is the 14 name bytes plus the NUL, and the argument is exactly the 14 name bytes |
| NdefAar.BuildCodesNone | Projects/STM32L476RG-Nucleo/Examples/508_T5T_Ndef_AAR/Src/ndef_demo.c:324-336 | the build succeeds exactly when message init, AAR, AAR-to-record, append and encode all return `ERR_NONE` |
| NdefAar.AarFlow | Projects/STM32L476RG-Nucleo/Examples/508_T5T_Ndef_AAR/Src/ndef_demo.c:283-350 | `demoNdef` always starts with the context init (its library calls in full: NdefAar.AarFlowSteps) |
| NdefAar.AarFlowSteps | Projects/STM32L476RG-Nucleo/Examples/508_T5T_Ndef_AAR/Src/ndef_demo.c:283-350 | the library calls of the flow, in order, are those the answers lead to |
| NdefAar.FormatExactlyOnDetectFailure | Projects/STM32L476RG-Nucleo/Examples/508_T5T_Ndef_AAR/Src/ndef_demo.c:296-321 | the tag is formatted exactly when context init succeeds and the first detect fails |
| NdefAar.DetectStageSteps | Projects/STM32L476RG-Nucleo/Examples/508_T5T_Ndef_AAR/Src/ndef_demo.c:306-321 | a successful detect is the only one; a failed detect is followed by format and one re-detect |
| NdefAar.FormatResultIgnored | Projects/STM32L476RG-Nucleo/Examples/508_T5T_Ndef_AAR/Src/ndef_demo.c:313-320 | the format result has no effect on the flow; the "cannot be formatted" log carries the re-detect code |
| NdefAar.BuildAllOrNothing | Projects/STM32L476RG-Nucleo/Examples/508_T5T_Ndef_AAR/Src/ndef_demo.c:296-335 | the message is built exactly when context init succeeds and the tag is detected, first time or after formatting |
| NdefAar.WriteExactlyWhenBuilt | Projects/STM32L476RG-Nucleo/Examples/508_T5T_Ndef_AAR/Src/ndef_demo.c:324-346 | the raw write happens exactly when every stage before it succeeded, and it writes the encoded length |
| NdefAar.WriteStageWrites | Projects/STM32L476RG-Nucleo/Examples/508_T5T_Ndef_AAR/Src/ndef_demo.c:336-346 | the write stage writes exactly the encoded length, and only when the accumulated code is `ERR_NONE` |
| NdefAar.WroteAarExactlyOnSuccess | Projects/STM32L476RG-Nucleo/Examples/508_T5T_Ndef_AAR/Src/ndef_demo.c:341-349 | "Wrote AAR record" is logged exactly when the write happened and returned `ERR_NONE` |
| NdefAar.Ini | Projects/STM32L476RG-Nucleo/Examples/508_T5T_Ndef_AAR/Src/ndef_demo.c:127-154 | initialisation succeeds exactly when the RFAL init does, and then arms discovery for NFC-V only with no notifier |
| NdefAar.Cycle | Projects/STM32L476RG-Nucleo/Examples/508_T5T_Ndef_AAR/Src/ndef_demo.c:164-235 | the parameters never change; start moves to `DISCOVERY`; an activation ends in teardown and `START_DISCOVERY`; idle and `NOTINIT` ticks only run the worker |
| NdefAar.TickSteps | Projects/STM32L476RG-Nucleo/Examples/508_T5T_Ndef_AAR/Src/ndef_demo.c:173-234 | an activation tick uses the NDEF library exactly as the AAR flow does for NFC-V, and not at all for other types |
| NdefAar.ParamsStable | Projects/STM32L476RG-Nucleo/Examples/508_T5T_Ndef_AAR/Src/ndef_demo.c:164-235 | no run of ticks changes the discovery parameters (508 has no button) |
| P2p.Ini | Projects/STM32L476RG-Nucleo/Examples/520_P2P_SendURL/Src/demo.c:149-180 | a successful init arms discovery for active P2P with 212 kbit/s NFC-F, 106 kbit/s AP2P, the 10-byte NFCID3, the 20-byte general bytes starting with the LLCP magic, and `demoNotif` |
| P2p.Cycle | Projects/STM32L476RG-Nucleo/Examples/520_P2P_SendURL/Src/demo.c:190-282 | every tick starts with the worker; the result is given for button, start, idle and `NOTINIT` ticks |
| P2p.Handle | Projects/STM32L476RG-Nucleo/Examples/520_P2P_SendURL/Src/demo.c:234-267 | an NFC-DEP or AP2P device gets two announcing calls followed by the whole `demoP2P` flow (the frames any device gets: P2p.HandleSent) |
| P2p.HandleSent | Projects/STM32L476RG-Nucleo/Examples/520_P2P_SendURL/Src/demo.c:234-267 | handling a device sends the `demoP2P` frame sequence for NFC-DEP and AP2P devices and no frame for any other |
| P2p.Dispatch | Projects/STM32L476RG-Nucleo/Examples/520_P2P_SendURL/Src/demo.c:228-275 | an NFC-A NFC-DEP device lights the A LED, is logged and runs `demoP2P`; an AP2P device is logged, lights the AP2P LED and runs `demoP2P`; any other NFC-A lights the A LED and logs its UID; any other type does nothing; all end in teardown and `START_DISCOVERY` |
| P2p.TickSent | Projects/STM32L476RG-Nucleo/Examples/520_P2P_SendURL/Src/demo.c:228-275 | an activation tick sends exactly the P2P frame sequence when the device runs P2P, and no frame otherwise |
| P2p.Rounds | Projects/STM32L476RG-Nucleo/Examples/520_P2P_SendURL/Src/demo.c:323-330 | the keep-alive stops at the first exchange that does not succeed |
| P2p.KeepAliveSent | Projects/STM32L476RG-Nucleo/Examples/520_P2P_SendURL/Src/demo.c:323-330 | the keep-alive sends only SYMM frames, one per round |
| P2p.Flow | Projects/STM32L476RG-Nucleo/Examples/520_P2P_SendURL/Src/demo.c:298-331 | `demoP2P` logs the start and then sends the CONNECT frame first, whatever the answers (what follows: P2p.FlowSent) |
| P2p.FlowSent | Projects/STM32L476RG-Nucleo/Examples/520_P2P_SendURL/Src/demo.c:298-331 | `demoP2P` sends CONNECT, then the URI PUT only after a successful CONNECT, then SYMM frames only after a successful PUT |
| P2p.PushOnlyAfterConnect | Projects/STM32L476RG-Nucleo/Examples/520_P2P_SendURL/Src/demo.c:304-320 | the URI is pushed exactly when CONNECT succeeded |
| P2p.KeepAliveOnlyAfterPush | Projects/STM32L476RG-Nucleo/Examples/520_P2P_SendURL/Src/demo.c:313-330 | a SYMM frame is sent exactly when CONNECT and PUT both succeeded |
| P2p.KeepAliveRounds | Projects/STM32L476RG-Nucleo/Examples/520_P2P_SendURL/Src/demo.c:323-330 | SYMM is sent once per round: all rounds but the last succeed, and the last does not |
| P2p.RemovedOnlyAfterKeepAlive | Projects/STM32L476RG-Nucleo/Examples/520_P2P_SendURL/Src/demo.c:323-331 | "Device removed" is logged exactly when the keep-alive loop ran |
| P2p.SymmMultiset | Projects/STM32L476RG-Nucleo/Examples/520_P2P_SendURL/Src/demo.c:82 | n keep-alive rounds send SYMM n times and nothing else |
| P2p.DemoP2p | Projects/STM32L476RG-Nucleo/Examples/520_P2P_SendURL/Src/demo.c:298-331 | the imperative `demoP2P`, with its early returns, produces the flow's trace |
| P2p.KeepAliveLoop | Projects/STM32L476RG-Nucleo/Examples/520_P2P_SendURL/Src/demo.c:323-330 | the `while` keep-alive loop produces the keep-alive trace |
| P2p.FramesDistinct | Projects/STM32L476RG-Nucleo/Examples/520_P2P_SendURL/Src/demo.c:82-84 | CONNECT, URI PUT and SYMM are three different frames |
| P2pFrames.Nfcid3Length | Projects/STM32L476RG-Nucleo/Examples/520_P2P_SendURL/Src/demo.c:78 | NFCID3 is 10 bytes |
| P2pFrames.GbLayout | Projects/STM32L476RG-Nucleo/Examples/520_P2P_SendURL/Src/demo.c:79 | the general bytes are 20 bytes: the LLCP magic, then TLVs that consume the rest exactly, all well formed, with MIU 2048 |
| P2pFrames.SymmLayout | Projects/STM32L476RG-Nucleo/Examples/520_P2P_SendURL/Src/demo.c:82 | SYMM is the 2-byte header with PTYPE SYMM and both SAPs 0 |
| P2pFrames.ConnectLayout | Projects/STM32L476RG-Nucleo/Examples/520_P2P_SendURL/Src/demo.c:83 | CONNECT is 26 bytes from the local SAP to the service discovery SAP; the rest parses exactly as the TLVs SN "urn:nfc:sn:snep", MIUX (MIU 2048) and RW |
| P2pFrames.UriFrameHeader | Projects/STM32L476RG-Nucleo/Examples/520_P2P_SendURL/Src/demo.c:84 | the URI frame is 34 bytes: an I PDU to the SNEP SAP with sequence byte 0 |
| P2pFrames.UriFramePut | Projects/STM32L476RG-Nucleo/Examples/520_P2P_SendURL/Src/demo.c:84 | after the 3-byte LLCP header comes a SNEP 1.0 PUT whose length field, 25, is the size of the NDEF record that follows |
| P2pFrames.UriRecordLayout | Projects/STM32L476RG-Nucleo/Examples/520_P2P_SendURL/Src/demo.c:84 | that record decodes as one well-known "U" record whose 18-byte payload is code 0x00 plus the 17 bytes of `http://www.st.com`, the URI it stands for |
| Llcp.ParseEncode | Projects/STM32L476RG-Nucleo/Examples/520_P2P_SendURL/Src/demo.c:79-83 | parameter TLVs, as the frames carry them, parse back to the parameters they encode |
| Llcp.EncodeParse | Projects/STM32L476RG-Nucleo/Examples/520_P2P_SendURL/Src/demo.c:79-83 | bytes that parse as TLVs are the encoding of what they parse to |
| Llcp.HeaderRoundTrip | Projects/STM32L476RG-Nucleo/Examples/520_P2P_SendURL/Src/demo.c:82-84 | the 2-byte PDU header decodes to the DSAP, PTYPE and SSAP it encodes |
| Snep.DecodeEncode | Projects/STM32L476RG-Nucleo/Examples/520_P2P_SendURL/Src/demo.c:84 | a SNEP message decodes from its encoding |
| Snep.EncodeDecode | Projects/STM32L476RG-Nucleo/Examples/520_P2P_SendURL/Src/demo.c:84 | bytes that decode as SNEP are the encoding of their message |
| NdefRecord.DecodeEncode | Projects/STM32L476RG-Nucleo/Examples/520_P2P_SendURL/Src/demo.c:84 | an unchunked NDEF record decodes from its encoding |
| NdefRecord.EncodeDecode | Projects/STM32L476RG-Nucleo/Examples/520_P2P_SendURL/Src/demo.c:84 | bytes that decode as a record are its encoding |

## Left out

- RFAL internals are oracle inputs and are not modelled. These are init, the worker, discovery, activation, data-exchange start and status, and NFC-V inventory.
- NDEF library internals are oracle inputs too. These are context init, detect, raw read and write, format, message init/append/encode/decode/dump, and the AAR builders. Only their return codes, and the encoded length for the 508 write, steer the flow.
- The text of `platformLog` messages and the `hex2Str` formatting are out. Each log is one event. It carries the values the line prints that differ between runs: the UIDs and NFCIDs, the wake-up flag, the device count, the detected state name, and the return code of each failing step (context init, detect, read, decode, dump, write, and the re-detect after a format).
- The LEDs and delays are trace events, not effects.
- The 504 menu timers are "expired" booleans, because the tick counter arithmetic is platform time.
- The 504 `CoreDebug->DHCSR` probe is a boolean input.
- `ndefDumpSysInfo`, `ndefT5TCCDump` and the buffer dumps are single log-only events, because they do not steer the flow.
- The button debounce busy-wait is treated as atomic: the button is released before the next tick.
- The exchange-status, inventory and SYMM loops do not terminate by themselves. They are modelled over finite answer sequences that contain a terminating answer; the `requires` of each such member says so.
- The data received by `demoP2P` is dropped by the demo, and it is not modelled.
- `REVERSE_BYTES` is defined outside the modelled files. It is modelled from its use as a reversal of the whole 8-byte buffer. The model requires `nfcidLen == 8` for NFC-V, because the copy uses `nfcidLen` but the reversal is fixed at 8.
- Chunked NDEF records (CF set) are not decoded. The frames only hold one unchunked record.
- The 523 Type B demo and its APDU / ISO-DEP / NFC-B flows are out, because no source for their core is part of this model.
- `stm32f4xx_it.h` is out: it only declares interrupt handlers.
- The 504 path that continues after a failed detect under the format feature reads an uninitialised `info`. That path is modelled with `info` as an input. The feature is always read (NdefRead.FeatureAlwaysRead), so the path is unreachable.
- In 508, the "cannot be formatted" log prints the re-detect code rather than the format code its text names. NdefAar.FormatResultIgnored states this; it is not raised as a finding.
