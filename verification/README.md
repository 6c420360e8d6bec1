# gs_usb CAN adapter firmware: a Dafny model

The firmware makes a microcontroller with an MCP2515 CAN transceiver appear
to a host as a gs_usb ("Geschwister Schneider") USB-to-CAN adapter. The host
configures each CAN channel through vendor control requests on the
interface: bit timing, mode and identify go OUT, and the device
configuration and bit-timing constants come IN. CAN frames travel as
76-byte little-endian host frames over a pair of bulk endpoints, split into
packets of the endpoint's maximum packet size. The main loop moves
configuration commands to the transceiver. Frames from the host are queued
for sending, and received, echoed or failed frames are queued for the host.

The model has one module per source file:

- `Frame` (`frame.dfy`) models `src/usbd_gs/frame.rs`:
  - the host frame, its packed CAN identifier and its flag byte;
  - the 76-byte wire layout, with both round trips.
- `ChannelConfig` (`channel_config.dfy`) models `src/usbd_gs/channel_config.rs`:
  - channel features as a bit set;
  - the 32-byte timing-constraints layout.
- `ChannelEvents` (`channel_event.dfy`) models `src/usbd_gs/channel_event.rs`:
  - the bit-timing, mode and identify payloads and their layouts;
  - the integer bit-rate formula;
  - the event handed to the application.
- `FrameExt` (`frame_ext.dfy`) models `src/frame_ext.rs`: translation between
  the transceiver driver's classic CAN frame and the host frame.
- `GsClass` (`gs_class.dfy`) models `src/usbd_gs/gs_class.rs`:
  - request codes and the scope test;
  - decoding of OUT requests into the one-event mailbox;
  - the IN replies (device configuration, bit-timing constants and their
    extended form), written into a fixed buffer by a method with a loop;
  - the class object as a Dafny `class` whose methods update the mailbox and
    the stall flag.
- `GsPort` (`gs_port.dfy`) models `src/usbd_gs/gs_port.rs`:
  - the packet-level read and write state machines of `poll`;
  - the packets a 76-byte transfer is cut into, proved to reassemble into
    the same frame;
  - the port object as a `class` with its two 76-byte `array` buffers.
- `Bridge` (`bridge.dfy`) models `src/main.rs`:
  - one pass of the main loop, as a `class` holding the inbox and the outbox;
  - bit-rate quantisation;
  - the operating-mode choice.
- `Bytes` and `Options` hold shared helpers:
  - fixed-width integers as subset types;
  - little-endian u32 encoding;
  - single-bit tests written arithmetically: `BitSet(x, k)` is bit `k` of `x`,
    proved equal to the mask test `x & (1 << k) != 0`;
  - an Option type.

Integers are unbounded in Dafny. Every u8/u16/u32 of the source is a subset
type. Wrap-around and truncation are written out where the source has them:
`as u16`, and the 29-bit identifier mask. A Rust panic in a modelled
function is an explicit outcome: `None`, `Panics` or `Halt`. The main loop
uses the corrected frame conversions, so in a pass only a bit-rate panic
becomes `Halt`. The panics of the conversions as written are listed under Left out.

`GsUsbPort::read_frame` and `GsUsbPort::write_frame` have `todo!()` bodies
in the source. Their intended bodies are present only as comments. The model
follows those comments, and the main loop is modelled as if they were in
place. The endpoints and the transceiver are not modelled. What they
reported becomes a parameter of the step that consumes it: a packet, a would
block or an error for an endpoint; a received frame and a send result for
the transceiver.

## Model

| member | source | states |
|---|---|---|
| Frame.NewCanId | src/usbd_gs/frame.rs:39-48 | `id()` of the result is the raw identifier masked to 29 bits. A flag bit (error, remote, extended) is set exactly when it was listed. |
| Frame.HostCanId.Id | src/usbd_gs/frame.rs:46-48 | The numeric identifier is below 2^29. |
| Frame.HostCanId.IdBits | src/usbd_gs/frame.rs:46-48 | `id()` is the mask `raw & 0x1FFFFFFF`: it has exactly the raw value's bits 0 to 28. |
| Frame.HostCanId.IsSet | src/usbd_gs/frame.rs:50-52 | A flag is set exactly when the raw value has a one at that flag's bit (29, 30 or 31): the mask test. |
| Frame.FoldCanIdBits | src/usbd_gs/frame.rs:41-42 | OR-ing flag bits into an accumulator keeps its low 29 bits. A flag bit is set afterwards exactly when it was set before or listed. |
| Frame.HostFrameFlags.Set | src/usbd_gs/frame.rs:77-79 | After `set`, the named bit is set and every other bit is as before. |
| Frame.HostFrameFlags.IsSet | src/usbd_gs/frame.rs:73-75 | A flag is set exactly when the byte has a one at that flag's bit (0 to 3): the mask test. |
| Frame.SetIdempotent | src/usbd_gs/frame.rs:77-79 | Setting a flag twice is the same as setting it once. |
| Frame.NewFlags | src/usbd_gs/frame.rs:68-70 | A flag is set exactly when it was listed. The byte stays below 16. |
| Frame.NewFlagsEmpty | src/usbd_gs/frame.rs:68-70 | The empty list gives the zero byte, with no flag set. |
| Frame.NewHostFrame | src/usbd_gs/frame.rs:14-33 | A missing echo id becomes 0xFFFFFFFF. The reserved byte is zero. Every other field is stored as given. |
| Frame.EncodeFrame | src/usbd_gs/frame.rs:3-12 | The wire frame is 76 bytes. Its partners are `DecodeFrame`, `DecodeEncode` and `EncodeDecode`. |
| Frame.DecodeFrame | src/usbd_gs/frame.rs:3-12 | Decoding succeeds exactly on buffers of at least 76 bytes. |
| Frame.DecodeEncode | src/usbd_gs/frame.rs:3-12 | Decoding the 76-byte little-endian layout of a frame gives back the frame. |
| Frame.EncodeDecode | src/usbd_gs/frame.rs:3-12 | Every buffer of at least 76 bytes decodes to a frame whose layout is the buffer's first 76 bytes. |
| ChannelConfig.FeatureAt | src/usbd_gs/channel_config.rs:24-38 | Every bit position 0..10 belongs to exactly one feature. |
| ChannelConfig.PositionsDistinct | src/usbd_gs/channel_config.rs:24-38 | Distinct features have distinct bit positions. |
| ChannelConfig.ChannelFeatures.IsSet | src/usbd_gs/channel_config.rs:19-21 | A feature is set exactly when the value has a one at that feature's bit: the mask test. |
| ChannelConfig.FoldFeatures | src/usbd_gs/channel_config.rs:15-17 | After the fold, a bit is set exactly when it was set in the accumulator or belongs to a listed feature. Values stay below 2^11. |
| ChannelConfig.NewFeatures | src/usbd_gs/channel_config.rs:14-21 | `is_set` holds exactly for the listed features. The value is below 2^11. |
| ChannelConfig.NewFeaturesSetOnly | src/usbd_gs/channel_config.rs:15-17 | The value depends only on which features are listed, not on their order or repetitions. |
| ChannelConfig.NewFeaturesEmpty | src/usbd_gs/channel_config.rs:15-17 | No features give the value 0. |
| ChannelConfig.EncodeConstraintsField | src/usbd_gs/channel_config.rs:40-50 | Field `i` of the constraints occupies bytes 4i..4i+4 of the layout, little-endian. |
| ChannelConfig.DecodeEncodeConstraints | src/usbd_gs/channel_config.rs:40-50 | The eight constraint fields read back from their 32-byte layout, at any offset. |
| ChannelEvents.BitRate | src/usbd_gs/channel_event.rs:20-26 | The rate is the two truncating divisions. It is None exactly where the source panics: `brp` is zero, or the quanta sum overflows u32. The rate never exceeds the clock. |
| ChannelEvents.BitRateSingleDivision | src/usbd_gs/channel_event.rs:20-26 | The two truncating divisions equal one division by `brp * quanta`. |
| ChannelEvents.BitRateIgnoresSjw | src/usbd_gs/channel_event.rs:20-26 | The jump width does not enter the rate. |
| ChannelEvents.BitRateExample | src/usbd_gs/channel_event.rs:20-26 | An 8 MHz clock with prescaler 8 and segments 3/3/2 gives 111,111 bit/s. |
| ChannelEvents.DecodeBitTiming | src/usbd_gs/channel_event.rs:11-18 | Reading a timing succeeds exactly on payloads of at least 20 bytes. |
| ChannelEvents.DecodeEncodeBitTiming | src/usbd_gs/channel_event.rs:11-18 | A bit timing reads back from its 20-byte layout. |
| ChannelEvents.EncodeDecodeBitTiming | src/usbd_gs/channel_event.rs:11-18 | A read uses exactly the first 20 bytes of the payload. |
| ChannelEvents.ChannelFlags.IsSet | src/usbd_gs/channel_event.rs:41-60 | `is_set` on a mode flag is the mask test of its bit. |
| ChannelEvents.DecodeMode | src/usbd_gs/channel_event.rs:29-33 | Reading a mode succeeds exactly on payloads of at least 8 bytes. |
| ChannelEvents.ChannelMode.IsOn | src/usbd_gs/channel_event.rs:35-39 | A mode is on exactly when its mode word is nonzero, that is, when one of its four wire bytes is. |
| ChannelEvents.DecodeEncodeMode | src/usbd_gs/channel_event.rs:29-33 | A mode and its flags read back from their 8-byte layout. |
| ChannelEvents.DecodedModeIsOn | src/usbd_gs/channel_event.rs:35-39 | A decoded mode is on exactly when one of its first four bytes is nonzero. |
| ChannelEvents.DecodeIdentify | src/usbd_gs/channel_event.rs:62-70 | Reading an identify payload succeeds exactly on at least 4 bytes. |
| ChannelEvents.ChannelIdentify.IsOn | src/usbd_gs/channel_event.rs:66-69 | Identify is on exactly when its value is nonzero, that is, when one of its four wire bytes is. |
| ChannelEvents.DecodeEncodeIdentify | src/usbd_gs/channel_event.rs:62-70 | An identify value reads back from its 4-byte layout. |
| FrameExt.KindBits | src/frame_ext.rs:16-26 | The extended bit is listed exactly for an extended identifier, the remote bit exactly for a remote frame, and the error bit never. |
| FrameExt.ClassicCanId | src/frame_ext.rs:16-26 | The packed identifier of an in-range classic identifier keeps it unmasked. The extended bit is set exactly for an extended identifier, and the remote bit exactly for a remote frame. The error bit is never set. |
| FrameExt.PadPayload | src/frame_ext.rs:28-30 | The 64-byte data field starts with the frame's data and is zero after it. |
| FrameExt.ToHostFrame | src/frame_ext.rs:13-34 | The result is not an echo and has no flags. It carries the given channel, the identifier and kind bits of the frame, its length, and its data followed by zeros. |
| FrameExt.ToHostFrameAsWritten | src/frame_ext.rs:28-30 | Where the as-written copy does not panic, it agrees with `ToHostFrame`. |
| FrameExt.ToHostFrameAsWrittenAlwaysPanics | src/frame_ext.rs:28-30 | As written, the copy panics for every classic frame. |
| FrameExt.FromHostFrame | src/frame_ext.rs:36-51 | A frame is built exactly when the length is at most 8 and a standard identifier fits 11 bits. Its kinds follow the two flag bits, and its identifier, length and (for data frames) data are the host frame's. |
| FrameExt.FromToHostFrame | src/frame_ext.rs:13-51 | A classic frame survives the trip to a host frame and back, on any channel. |
| FrameExt.FromHostFrameAsWritten | src/frame_ext.rs:36-51 | As written, the conversion panics exactly for a data frame whose length exceeds 64. |
| FrameExt.FromHostFrameAsWrittenPanicsOnLongDlc | src/frame_ext.rs:48 | A data frame with length field 65 makes the as-written conversion panic. |
| FrameExt.FromHostFrameAsWrittenAcceptsWideStandardId | src/frame_ext.rs:41 | As written, standard identifier 0x800 yields a frame with an out-of-range identifier. The checked conversion refuses it. |
| FrameExt.FromHostFrameAgrees | src/frame_ext.rs:36-51 | On valid input the as-written and checked conversions agree. |
| GsClass.FromRaw | src/usbd_gs/gs_class.rs:198-206 | Codes above 11 give None. Every other code gives the request with that code. |
| GsClass.FromRawCode | src/usbd_gs/gs_class.rs:18-34 | Every request's code maps back to the request. |
| GsClass.InScope | src/usbd_gs/gs_class.rs:106-111 | A request is handled only when it is a vendor request to an interface whose index is the class's interface number, which fits a byte. Any other request is out of scope. |
| GsClass.EventRequest | src/usbd_gs/gs_class.rs:121-140 | Every event comes from one of the four command requests. |
| GsClass.DecodeOutEvent | src/usbd_gs/gs_class.rs:113-146 | An event is decoded exactly for a command, a channel below the channel count and a long enough payload. It carries that channel, and its payload is the prefix of the data. |
| GsClass.DecodeOutEventOfPayload | src/usbd_gs/gs_class.rs:121-140 | The layout of any event, with any bytes after it, decodes back to the event. |
| GsClass.ControlOutStep | src/usbd_gs/gs_class.rs:103-158 | An out-of-scope request is ignored and leaves the mailbox alone. HostFormat is accepted and also leaves the mailbox alone. Any other request replaces the mailbox with the decoded event, accepted exactly when there is one. |
| GsClass.DeviceConfigLayout | src/usbd_gs/gs_class.rs:208-238 | The packed device configuration is 12 bytes. `DeviceConfigReadBack` shows which fields it carries. |
| GsClass.DeviceConfigReadBack | src/usbd_gs/gs_class.rs:208-238 | The device configuration reads back as three zero bytes, the interface count and both versions. |
| GsClass.NewBtConst | src/usbd_gs/gs_class.rs:241-248 | The constants are the channel's features, clock and constraints. |
| GsClass.NewBtConstExt | src/usbd_gs/gs_class.rs:262-278 | The extended constants add the data constraints, or the nominal constraints when the channel has none. |
| GsClass.BtConstReadBack | src/usbd_gs/gs_class.rs:250-259 | The corrected 40-byte layout reads back features, clock and constraints. |
| GsClass.BtConstAsWrittenLosesClock | src/usbd_gs/gs_class.rs:254-256 | As written, the layout does not depend on the clock, and the clock's slot holds the first constraint. |
| GsClass.BtConstExtReadBack | src/usbd_gs/gs_class.rs:280-290 | The corrected 72-byte layout reads back features, clock, nominal and data constraints. |
| GsClass.BtConstExtFallback | src/usbd_gs/gs_class.rs:271-276 | Without data constraints, the nominal constraints are reported in both slots. |
| GsClass.BtConstExtAsWrittenOverlap | src/usbd_gs/gs_class.rs:284-287 | As written, the clock is lost, and the data constraints overwrite the last nominal one from offset 32. |
| GsClass.PWrite | src/usbd_gs/gs_class.rs:250-258 | Writing bytes at an offset stores them there and reports their count. It fails without change when they do not fit. |
| GsClass.PackBtConst | src/usbd_gs/gs_class.rs:250-259 | Packing with cumulative offsets yields the corrected layout. |
| GsClass.PackBtConstAsWritten | src/usbd_gs/gs_class.rs:250-259 | Packing with the offsets as written yields the as-written layout. |
| GsClass.PackBtConstExt | src/usbd_gs/gs_class.rs:280-290 | Packing with cumulative offsets yields the corrected extended layout. |
| GsClass.PackBtConstExtAsWritten | src/usbd_gs/gs_class.rs:280-290 | Packing with the offsets as written yields the as-written extended layout. |
| GsClass.Reply | src/usbd_gs/gs_class.rs:173-181 | Packed bytes are accepted. A packing error is rejected. |
| GsClass.GsUsbClass.constructor | src/usbd_gs/gs_class.rs:39-60 | The class holds the interface, packet size and channels, an interface count of channels minus one, and an empty mailbox. |
| GsClass.GsUsbClass.ReadControlEvent | src/usbd_gs/gs_class.rs:82-86 | The pending event is returned and the mailbox emptied. The event's channel exists. |
| GsClass.GsUsbClass.ControlOut | src/usbd_gs/gs_class.rs:103-158 | The new mailbox and the response are `ControlOutStep` of the old mailbox. |
| GsClass.GsUsbClass.ControlIn | src/usbd_gs/gs_class.rs:160-195 | Out-of-scope requests are ignored. DeviceConfig gets its layout. BtConst and BtConstExt for an existing channel get their CORRECTED layouts. Everything else is rejected. |
| GsClass.GsUsbClass.ControlInAsWritten | src/usbd_gs/gs_class.rs:160-195 | The same replies, except that BtConst and BtConstExt carry the bytes `packed()` produces as written. |
| GsClass.GsUsbClass.Stall | src/usbd_gs/gs_class.rs:66-68 | The IN endpoint is stalled. |
| GsClass.ReadTwice | src/usbd_gs/gs_class.rs:82-86 | A second read in a row finds the mailbox empty. |
| GsClass.LastCommandWins | src/usbd_gs/gs_class.rs:148 | Of two commands, the mailbox holds only the decoding of the second. |
| GsPort.ReadStep | src/usbd_gs/gs_port.rs:79-92 | A full buffer waits. A packet of the packet size advances the index. A shorter packet completes the frame. A packet that does not fit or a read error restarts. Would-block changes nothing. |
| GsPort.ReadBufferAfter | src/usbd_gs/gs_port.rs:82 | An accepted packet is copied at the index. Everything else leaves the buffer unchanged. |
| GsPort.Emitted | src/usbd_gs/gs_port.rs:96-106 | A packet is written exactly while writing: an empty one at remainder 0, otherwise the next chunk of the buffer. |
| GsPort.WriteStep | src/usbd_gs/gs_port.rs:94-122 | Ready stays ready. A full packet shrinks the remainder by the packet size. Remainder 0, a short packet or an error ends the transfer. Would-block changes nothing. |
| GsPort.Signal | src/usbd_gs/gs_port.rs:124-132 | Stall exactly when a transfer ended. Unstall exactly when one started. |
| GsPort.PollNeverUnstalls | src/usbd_gs/gs_port.rs:124-132 | `poll` never starts a transfer, so the unstall branch is unreachable. |
| GsPort.ReadState.Index | src/usbd_gs/gs_port.rs:155-163 | The index of the next packet: 0 when empty, the stored index while waiting, and the frame size when full. |
| GsPort.Drain | src/usbd_gs/gs_port.rs:94-122 | The packets of a transfer, each poll sending in full. None when ready. |
| GsPort.DrainShape | src/usbd_gs/gs_port.rs:100-111 | A remainder r is sent as r/mps full packets and then a short packet of r mod mps bytes, which may be empty. |
| GsPort.DrainConcat | src/usbd_gs/gs_port.rs:100-111 | The packets concatenate to the unsent tail of the buffer. |
| GsPort.FrameTransferPackets | src/usbd_gs/gs_port.rs:96-111 | With the packet sizes of full-speed USB, a frame goes out as full packets and a final short, nonempty packet that ends the transfer. |
| GsPort.TransferRoundTrip | src/usbd_gs/gs_port.rs:79-122 | Feeding the packets of a transfer to an empty read side leaves it full with the sent buffer, for any packet size. |
| GsPort.WrittenFrameReadBack | src/usbd_gs/gs_port.rs:40-66 | A frame packed by `write_frame` and carried packet by packet is decoded to the same frame by `read_frame`. |
| GsPort.GsUsbPort.constructor | src/usbd_gs/gs_port.rs:20-34 | Both buffers are zeroed. The read side is empty and the write side ready. |
| GsPort.GsUsbPort.ReadControlEvent | src/usbd_gs/gs_port.rs:36-38 | Delegates to the class: returns the pending event and empties the mailbox. |
| GsPort.GsUsbPort.Poll | src/usbd_gs/gs_port.rs:78-133 | The new read state and buffer are `ReadStep` and `ReadBufferAfter`. The new write state is `WriteStep`, and the emitted packet is `Emitted`. The endpoint is stalled when a transfer ended, and never unstalled. |
| GsPort.GsUsbPort.PollRead | src/usbd_gs/gs_port.rs:79-92 | The read half of `poll` performs `ReadStep` and `ReadBufferAfter`. |
| GsPort.GsUsbPort.PollWrite | src/usbd_gs/gs_port.rs:94-122 | The write half of `poll` performs `WriteStep` and emits the packet `Emitted` names. |
| GsPort.GsUsbPort.Reset | src/usbd_gs/gs_port.rs:74-76 | Reset stalls the IN endpoint. |
| GsPort.GsUsbPort.ReadFrame | src/usbd_gs/gs_port.rs:40-52 | A full read buffer is decoded and the read side restarts. Otherwise it would block and nothing changes. |
| GsPort.GsUsbPort.WriteFrame | src/usbd_gs/gs_port.rs:54-66 | When ready, the frame's layout fills the write buffer and a 76-byte transfer starts. Otherwise it would block and nothing changes. |
| GsPort.GsUsbPort.ControlOut | src/usbd_gs/gs_port.rs:135-137 | Delegates to the class's `ControlOutStep`. |
| GsPort.GsUsbPort.ControlIn | src/usbd_gs/gs_port.rs:139-141 | Delegates to the class, with every case stated: out of scope is ignored; the device configuration is answered; BtConst and BtConstExt get their corrected layouts for an existing channel and are rejected otherwise; everything else is rejected. |
| Bridge.SpeedForValue | src/main.rs:179-196 | The first bucket whose upper bound is at least the value. Values above 500,000 get Kbps1000. |
| Bridge.SpeedForValueMonotone | src/main.rs:179-196 | A larger value never selects a slower bucket. |
| Bridge.CanSpeedFromBitRate | src/main.rs:179-196 | Corrected: the rate in bit/s lies above the previous bucket's bound and at most at its own bound. |
| Bridge.CanSpeedFromBitRateAsWritten | src/main.rs:180 | As written, `rate / 1000` (kbit/s) falls in the chosen bucket of bounds written in bit/s: at most its bound and above the previous one. |
| Bridge.AsWrittenCollapses | src/main.rs:180-181 | As written, every rate below 5,001,000 bit/s selects 5 kbit/s. |
| Bridge.QuantisationExample | src/main.rs:179-196 | 111,111 bit/s selects 5 kbit/s as written and 125 kbit/s as corrected. |
| Bridge.QuantisationMonotone | src/main.rs:179-196 | Both quantisations are monotone in the rate. |
| Bridge.SelectOpMode | src/main.rs:120-135 | The successive overrides select sleep exactly when off, then listen-only, then loopback, else normal. |
| Bridge.PriorityOrdersDiffer | src/main.rs:123-129 | Listen-only-first and loopback-first differ exactly when the channel is on with both flags set. |
| Bridge.EventAction | src/main.rs:107-139 | Bit timing sets the CORRECTED quantisation (`CanSpeedFromBitRate`) of the channel's rate, or halts where the rate panics. Mode sets the selected mode. Data bit timing and identify do nothing. |
| Bridge.EventActionAsWritten | src/main.rs:107-139 | As written: bit timing sets `CanSpeedFromBitRateAsWritten` of the rate. Every other command agrees with `EventAction`. |
| Bridge.EventActionsDiffer | src/main.rs:109-117 | The two reactions differ only in the speed set. For the 111,111 bit/s timing of an 8 MHz channel, they set 5 kbit/s and 125 kbit/s. |
| Bridge.Push | src/main.rs:100-101 | A queue of 8 appends at the tail. When full, it first drops its oldest entry. |
| Bridge.Skip | src/main.rs:145-149 | Skipping removes the head of a nonempty queue. An empty queue stays empty. |
| Bridge.Overflowed | src/main.rs:166-170 | The returned frame has the Overflow flag set. Every other field and flag is unchanged. |
| Bridge.OutboxStep | src/main.rs:158-175 | An untranslatable head is dropped. A sent head moves unchanged to the inbox. Busy or timeout leaves both queues alone. Any other failure moves the head to the inbox with Overflow set. |
| Bridge.OutboxHeadReachesInbox | src/main.rs:158-175 | With room in the inbox, a sent or failed head is appended to it and the existing inbox is kept. |
| Bridge.HostStage | src/main.rs:141-151 | A frame read from the port joins the outbox. The inbox head leaves when the port took it. |
| Bridge.DeviceStage | src/main.rs:154-175 | A received frame joins the inbox on channel 1, then the outbox stage runs. |
| Bridge.ReceivedOnChannelOne | src/main.rs:154-156 | After any pass, a received frame is in the inbox as its host frame on channel 1, whatever the outbox held and the transceiver answered. |
| Bridge.OutboxStepKeepsInbox | src/main.rs:158-175 | The outbox stage only appends to the inbox, so the inbox's newest entry survives it. |
| Bridge.HostFrameEchoed | src/main.rs:158-164 | A translatable host frame that the transceiver accepts returns to the host unchanged. |
| Bridge.Firmware.Pass | src/main.rs:105-176 | One loop pass. The action is `EventAction` of the pending command (corrected quantisation), and a halt stops the pass. The queues become `DeviceStage` of `HostStage` of the old queues. Unless the pass halted, the frame submitted to the transceiver is the checked translation of the head of the outbox after `HostStage`, and none when that outbox is empty. When USB was active, the mailbox is empty afterwards. A full read side restarts, and a taken inbox head starts a 76-byte transfer of its layout. Otherwise the port is unchanged. |
| Bridge.Firmware.ServiceHost | src/main.rs:106-152 | The USB half of a pass: the command's action (corrected quantisation), then `HostStage`. The mailbox is emptied. The read state restarts if it was full. The write state and buffer hold the inbox head's transfer when it was taken. Everything else is unchanged, and all of it is unchanged on a halt. |
| Bridge.Firmware.HandleCommand | src/main.rs:107-139 | The pending command is taken from the mailbox, which is left empty. The action is `EventAction` of the command, or no action when there was none. |
| Bridge.Firmware.TransferFrames | src/main.rs:141-152 | The queues become `HostStage` of the old queues. A full read side restarts, with its frame appended to the outbox. When the IN endpoint was free, the inbox head's layout starts a 76-byte transfer. Otherwise the port is unchanged. |
| Bridge.Firmware.ServiceDevice | src/main.rs:154-175 | The transceiver half: `DeviceStage`, and the translation of the outbox head as the submitted frame. |

## Left out

- USB descriptors (`get_configuration_descriptors`), endpoint allocation and the usb-device stack. What an endpoint reported is a parameter (`ReadOutcome`, `WriteOutcome`).
- The packet-size getter, `write_packet`, `read_packet` and `unstall` of the class. `unstall` has no model because `poll` can never reach it (`PollNeverUnstalls`).
- The MCP2515 driver, the SPI bus, clocks and the hardware bring-up in `main.rs`. What the transceiver reported is a parameter (`received`, `SendResult`).
- The results of `set_bitrate` and `set_mode`. They are assumed to succeed; the model does not capture the `assert_eq!` panic when they fail.
- The loop itself and the USB stack's `poll`. `Bridge.Firmware.Pass` models one pass after the stack's poll returned. `GsPort.GsUsbPort.Poll` is the port's part of that poll.
- `GsUsbPort::read_frame` and `write_frame`: modelled from their commented-out bodies. As written they are `todo!()` and panic.
- The pack error of `write_frame`, and the other `write_frame` errors the loop skips on. On a 76-byte buffer packing cannot fail, so the model has neither. `ReadParseError` is kept as a result of `ReadFrame`, but `ReadFrame`'s contract shows it is never returned, because a 76-byte buffer always decodes.
- ChannelEvents.BitRate: the u32 overflow of the quanta sum is treated as a panic, as in a debug build. A release build would wrap the sum and divide by the wrapped value.
- Frame.HostFrameFlags.Set: modelled as a function returning the updated flags rather than an update through `&mut self`.
- FrameExt.FromHostFrame: a remote frame's data is modelled as zeros, the way the driver reports it.
- GsPort.ReadStep: a packet larger than the space left in the read buffer is modelled as an endpoint error, which restarts the read side.
- The `assert!(C < u8::MAX)` of `GsUsbClass::new` becomes a requires on the constructor, and so does the packet size of full-speed USB.
- The ring buffer's internals. Only its observable behaviour with a capacity of 8 (`Push`, `Skip`) is modelled.
- Bridge.EventAction: the loop is modelled with the corrected quantisation `CanSpeedFromBitRate`. As written, the loop sets the bucket of `bit_rate / 1000`, which is `EventActionAsWritten`. `EventActionsDiffer` states where the two differ.
- Bridge.Firmware.Pass: inherits the corrected quantisation from `EventAction`. As written, the transceiver is set to `EventActionAsWritten`'s speed. It also inherits the corrected frame conversions of `DeviceStage`, so a pass never halts on a conversion panic.
- Bridge.DeviceStage: a received frame is converted with the intended `FrameExt.ToHostFrame`. As written, `to_host_frame` panics on every received frame (`ToHostFrameAsWrittenAlwaysPanics`), which would stop the firmware.
- Bridge.OutboxStep: the outbox head is translated with the checked `FrameExt.FromHostFrame`. As written, a data frame with `can_dlc` above 64 panics (`FromHostFrameAsWrittenPanicsOnLongDlc`), and a standard identifier above 0x7FF is sent and echoed instead of dropped (`FromHostFrameAsWrittenAcceptsWideStandardId`).
- Bridge.Firmware.ServiceDevice: uses `DeviceStage` and the checked `FrameExt.FromHostFrame` for the submitted frame, with the differences from the code as written stated for those two.
- Bridge.ReceivedOnChannelOne: holds for the intended `ToHostFrame`. As written, the received frame never reaches the inbox, because the conversion panics.
- Bridge.HostFrameEchoed: holds for the checked `FromHostFrame`. As written, a standard frame with an identifier above 0x7FF is echoed too.
- Bridge.Firmware.ServiceHost: inherits the corrected quantisation from `EventAction`, as `Pass` does.
- Bridge.Firmware.HandleCommand: inherits the corrected quantisation from `EventAction`, as `Pass` does.
- GsClass.GsUsbClass.ControlIn: answers BtConst and BtConstExt with the corrected layouts. As written, the class sends the bytes of `ControlInAsWritten`, where the clock is overwritten (`BtConstAsWrittenLosesClock`, `BtConstExtAsWrittenOverlap`).
- GsPort.GsUsbPort.ControlIn: delegates to the class's corrected `ControlIn`, with the same difference from the bytes sent as written.

## Findings

| source | as written | input that shows it | evidently intended | confidence | as-written member | corrected member |
|---|---|---|---|---|---|---|
| src/usbd_gs/gs_class.rs:254-256 | `pwrite_with` returns the bytes of one write, so the constraints go to offset 4 over the clock | any channel: offset 4 holds `tseg1_min`, not `fclk_can` | features, clock and constraints at offsets 0, 4 and 8 | high, not executed | GsClass.BtConstAsWrittenLosesClock | GsClass.BtConstReadBack |
| src/usbd_gs/gs_class.rs:284-287 | The clock is overwritten, and the data constraints start at offset 32 over the last nominal constraint | any channel: offset 4 holds `tseg1_min` and offset 32 the data `tseg1_min` | layout 0, 4, 8, 40 | high, not executed | GsClass.BtConstExtAsWrittenOverlap | GsClass.BtConstExtReadBack |
| src/main.rs:180-194 | The kbit/s value `bit_rate / 1000` is matched against bounds in bit/s | 111,111 bit/s selects 5 kbit/s | bucket the rate in bit/s (125 kbit/s here) | high, not executed | Bridge.AsWrittenCollapses | Bridge.CanSpeedFromBitRate |
| src/frame_ext.rs:28-30 | `copy_from_slice` needs equal lengths, but a 64-byte array receives at most 8 bytes | any classic frame | copy the data into the array's prefix | high, not executed | FrameExt.ToHostFrameAsWrittenAlwaysPanics | FrameExt.ToHostFrame |
| src/frame_ext.rs:48 | `bytes[..can_dlc]` panics when the host sends a length above 64 | a data frame with `can_dlc` 65 | refuse the frame (None) | medium, not executed | FrameExt.FromHostFrameAsWrittenPanicsOnLongDlc | FrameExt.FromHostFrame |
| src/frame_ext.rs:41 | `new_unchecked` accepts a standard identifier above 0x7FF | a standard frame with identifier 0x800 | refuse the frame (None) | medium, not executed | FrameExt.FromHostFrameAsWrittenAcceptsWideStandardId | FrameExt.FromHostFrame |
