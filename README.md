# pololuJrkUSB — a Dafny model of the jrk serial poller and USB helpers

pololuJrkUSB controls a Pololu jrk motor controller. Over the controller's
USB CDC-ACM serial port it sends single-byte read commands. Each reply is a
two-byte little-endian word, and the poller matches it to the oldest
command still awaiting an answer. A separate set of libusb helpers reads
the device's firmware version, its bus/port topology and its configuration
parameters, and finds the tty that belongs to the device in sysfs.

This project models that core in Dafny and proves properties of the model:

- `wrappers.dfy` (`Wrappers`): `Option` and `Result`.
- `text.dfy` (`Text`): the byte type and its two nibbles, decimal
  rendering as done by `std::to_string` and `operator<<` on integers (signed
  and unsigned) with its parsers, and joining and splitting on a separator
  character. These are the byte and string utilities the model needs.
- `protocol.dfy` (`JrkProtocol`): the four read opcodes, a reply frame and
  its word, the 13 error bits with their names and masks, and how a reply
  is decoded for the opcode it answers.
- `poller.dfy` (`JrkPoller`): `Poller::HexOutput`. Also the drain loop of
  `Poller::HandleUSB` as a function (`Drain`) and the poll loop over a
  sequence of events (`RunEvents`). The `Poller` class holds the
  outstanding-command queue `sent_cmds` and the `cancelled` flag. Its
  methods (`WriteJRKCommand`, `SendJRKReadCommand`, the four `ReadJRK*`
  commands, `StopPolling`, `HandleUSB`, `Poll`) update that state and are
  proved against those functions.
- `usb.dfy` (`JrkUsb`): `JrkGetFirmwareVersion`, `LibusbGetTopology`,
  `FindACMDevice`, the `JrkParams` table and `LibusbGetConfig`.

Everything the program gets from outside becomes an input to the model:

- bytes from `read`;
- whether `write` accepted a byte;
- what `poll` reported;
- the return codes and buffers of libusb calls;
- the entries `readdir` yields.

Printed output is modelled as values: a `Message` per line the poller would
print, a hex string, a rendered port list, a `ConfigLine`. Byte values are
the subset type `Byte` (0..255). A reply word is `hi * 256 + lo`, always
below 0x10000.

The main proved properties:

- **FIFO correlation** (`FifoCorrelation`, `DrainCorrelates`,
  `HandleUSB`). The k-th complete frame is decoded for the k-th opcode
  still queued. A frame that arrives with the queue empty gives one warning
  and changes nothing. Correlation carries across drain cycles
  (`DrainAppend`, `TwoWakeUps`). The class invariant `Valid()` ties
  `sent_cmds` to the log of every opcode ever sent.
- **Error-word decoding** (`DecodeErrors`). A flag is reported exactly
  when its mask bit is set, in source order. The zero word reports nothing,
  bits above 12 are ignored, the word 0x1FFF reports all 13 flags, and each
  single mask reports only its own flag.
- **Hex output** round-trips through a parser (`ParseHexOfHexString`).
  On a stream with default format flags, `HexOutput` produces two
  lowercase digits per byte.
- **Cancellation** (`Poll`, `NothingAfterStop`). A poller cancelled before
  `Poll` returns at once. Once the check at the head of the loop finds
  `cancelled` set, no later event is processed. `StopPolling` only stores
  the flag, so a `poll()` already blocked is still handled first.
- **USB helpers.** The rendered port list parses back to the port numbers
  (`PortListRoundTrip`). The sysfs directory name determines bus and port
  (`AcmTtyDirRoundTrip`). `FindACMDevice` returns the first entry other
  than `.` and `..`. `LibusbGetConfig` reads the table in order, stops at
  the first failed transfer, and shows whatever the shared 2-byte buffer
  holds (`FullTransferShowsPayload`, `ShortTransferShowsStaleBytes`).

Facts about the code that the model follows:

- `lib/poller.h:41-44` declares a mutex, an eventfd and a callback that
  `poller.cpp` never uses. The second `pollfd` is zero-filled, so it is
  passed to `poll()` as descriptor 0 with no requested events
  (`poller.cpp:166-171`). An error, hang-up or invalid-descriptor condition
  on descriptor 0 still wakes the loop and prints "event on bogon fd 0"
  (`poller.cpp:181`).
- A zero error word prints `Error bits: ` and nothing after it
  (`poller.cpp:137-151`).
- Only `EAGAIN` ends a drain cleanly (`poller.cpp:157`). End of file, or a
  read of a single byte, leaves `errno` at zero, so it is reported as an
  error and the exception leaves `Poll`.

## Model

| member | source | states |
|---|---|---|
| Text.Decimal | lib/usb.cpp:64-66 | the decimal rendering is non-empty, all digits, and has no leading zero except for 0 itself |
| Text.IntString | lib/usb.cpp:194-195 | `std::to_string` of an int is non-empty, starts with '-' exactly when the value is negative, and is otherwise all digits |
| Text.ParseInt | lib/usb.cpp:194-195 | a string reads as an int exactly when it is digits, or '-' then digits; a leading '-' gives a value of at most zero and no '-' a value of at least zero |
| Text.ParseIntOfIntString | lib/usb.cpp:194-195 | reading back `std::to_string` of any int, negative or not, gives that int |
| Text.ParseDecimal | lib/usb.cpp:64-66 | a string parses as a number exactly when it is non-empty and all digits |
| Text.ParseDecimalOfDecimal | lib/usb.cpp:64-66 | parsing the rendering of n gives back n |
| Text.Split | lib/usb.cpp:64-66 | splitting on a separator always gives at least one piece |
| Text.SplitJoin | lib/usb.cpp:64-66 | pieces free of the separator, joined and split again, give back the pieces |
| Text.SplitAppendSeparator | lib/usb.cpp:194-195 | splitting a + sep + b splits a and then adds b as the last piece |
| JrkProtocol.CommandByte | poller.cpp:62-64 | a command in 0..255 is sent as the byte of the same value (`cmd % 0x100`) |
| JrkProtocol.Word | poller.cpp:123 | the reply word is below 0x10000, its low byte is the first byte read and its high byte the second |
| JrkProtocol.FrameWordRoundTrip | poller.cpp:123 | frames and words below 0x10000 correspond one to one |
| JrkProtocol.Mask | poller.cpp:138-150 | every mask the source tests is non-zero and lies within the low 13 bits of the word |
| JrkProtocol.Name | poller.cpp:138-150 | every flag prints a name of at least seven characters that starts with a capital letter |
| JrkProtocol.NamesDistinct | poller.cpp:138-150 | two flags print the same name exactly when they are the same flag |
| JrkProtocol.FlagOrderIsBitOrder | poller.cpp:138-150 | the source tests every flag, in strictly ascending bit order |
| JrkProtocol.Bit | poller.cpp:138-150 | each of the 13 error flags has a bit position below 13 |
| JrkProtocol.FlagLayout | poller.cpp:138-150 | each flag's mask is 2 to the power of its bit, and the flag sits at that position in the source's print order |
| JrkProtocol.IsSetIsMaskTest | poller.cpp:138-150 | a flag is set exactly when the bit its power-of-two mask selects is 1, read as the quotient of the word by the mask taken modulo 2 |
| JrkProtocol.DecodeErrors | poller.cpp:136-152 | a flag is reported exactly when its bit is set in the word, in bit order, each at most once |
| JrkProtocol.DecodeErrorsNoneSet | poller.cpp:137-151 | a word with none of the 13 bits set reports no flag |
| JrkProtocol.DecodeErrorsOfZero | poller.cpp:137-151 | the zero word reports no flag |
| JrkProtocol.DecodeErrorsIgnoresHighBits | poller.cpp:138-150 | bits 13 to 15 of the word do not affect the report |
| JrkProtocol.DecodeErrorsAllFlags | poller.cpp:138-150 | the word 0x1FFF reports all 13 flags in source order |
| JrkProtocol.DecodeErrorsSingleFlag | poller.cpp:138-150 | a word holding only one flag's mask reports exactly that flag |
| JrkProtocol.Decode | poller.cpp:132-155 | the reply names the opcode it answers. Input, feedback and target carry the word, errors carry the decoded flags, and any other opcode gives an "unexpected command" reply |
| JrkPoller.HexByte | poller.cpp:110-112 | each byte is shown as exactly two characters |
| JrkPoller.HexString | poller.cpp:110-112 | the hex text has two characters per byte |
| JrkPoller.HexStringAt | poller.cpp:110-112 | characters 2i and 2i+1 of the hex text are the two digits of byte i |
| JrkPoller.ParseHexOfHexString | poller.cpp:106-115 | the hex text parses back to the bytes it came from |
| JrkPoller.HexOutput | poller.cpp:106-115 | the loop produces the hex text of the bytes |
| JrkPoller.Receive | poller.cpp:126-155 | one frame gives exactly one message. With no outstanding opcode it is the warning and the queue stays empty. Otherwise the queue loses exactly its front, and the message is a reply to that opcode |
| JrkPoller.Drain | poller.cpp:122-156 | one message per complete frame read, and none of them is a read error |
| JrkPoller.DrainCorrelates | poller.cpp:122-156 | frame i is decoded for queued opcode i while opcodes remain and gives a warning after that. The queue loses exactly the answered opcodes |
| JrkPoller.FifoCorrelation | poller.cpp:126-135 | when as many frames arrive as opcodes were sent, every frame is reported as the reply to the opcode sent in the same position, and the queue ends empty |
| JrkPoller.TargetThenFeedback | poller.cpp:133-135 | a target query and then a feedback query, answered by 0x0010 and 0x00ff, report target 16 and then feedback 255 |
| JrkPoller.DrainEmptyQueue | poller.cpp:126-129 | frames that arrive with no outstanding command each give one warning and leave the queue empty |
| JrkPoller.DrainAppend | poller.cpp:122-131 | two drains in a row give the same messages and queue as one drain of all their frames |
| JrkPoller.RunEvents | poller.cpp:170-185 | a run ends stopped only if the loop check saw the flag, and runs out of events only if it never did |
| JrkPoller.RunEventsAborted | poller.cpp:157-159 | a run ends aborted exactly when its last message is the read error, and then some wake-up's drain ended on something other than EAGAIN |
| JrkPoller.NothingAfterStop | poller.cpp:170 | events after a stop request change nothing in the run |
| JrkPoller.TwoWakeUps | poller.cpp:170-185 | two readable wake-ups that each end on EAGAIN correlate replies exactly like one drain of all their frames |
| JrkPoller.Poller.constructor | poller.cpp:40-45 | a new poller has no outstanding command and is not cancelled |
| JrkPoller.Poller.StopPolling | poller.cpp:54-59 | afterwards `cancelled` is set, and nothing else changes |
| JrkPoller.Poller.WriteJRKCommand | poller.cpp:61-70 | the command byte is written when `write` accepts it. A refused write is only reported, and nothing is queued |
| JrkPoller.Poller.SendJRKReadCommand | poller.cpp:72-76 | the opcode is written and appended to the outstanding queue whether or not the write succeeded, and the queue invariant is kept |
| JrkPoller.Poller.ReadJRKInput | poller.cpp:78-83 | sends and queues opcode 0xa1 |
| JrkPoller.Poller.ReadJRKFeedback | poller.cpp:85-90 | sends and queues opcode 0xa3 |
| JrkPoller.Poller.ReadJRKTarget | poller.cpp:92-97 | sends and queues opcode 0xa5 |
| JrkPoller.Poller.ReadJRKErrors | poller.cpp:99-104 | sends and queues opcode 0xb5 |
| JrkPoller.Poller.ReadFrames | poller.cpp:122-156 | the read loop writes exactly the messages of a drain from the current queue and leaves its queue. Every opcode it pops is the next unanswered one in the log |
| JrkPoller.Poller.HandleUSB | poller.cpp:117-162 | drains every complete frame, decoding each for the oldest outstanding opcode in the log. It succeeds exactly when the read stopped on EAGAIN and otherwise adds a read error. The queue keeps exactly the unanswered opcodes |
| JrkPoller.Poller.Poll | poller.cpp:165-186 | a poller already cancelled returns at once with nothing processed. Otherwise the run is that of the poll-loop model, and the loop ended by a stop exactly when `cancelled` is set |
| Text.HighNibble | lib/usb.cpp:46-47 | `(b >> 4) & 0xf` is below 16, and with the low nibble it rebuilds the byte |
| Text.LowNibble | lib/usb.cpp:45 | `b & 0xf` is below 16 and is what remains of the byte after the high nibble |
| JrkUsb.JrkGetFirmwareVersion | lib/usb.cpp:35-49 | fails with the transfer's code unless exactly 14 bytes came back. Otherwise minor is the low nibble of byte 12 and major is the high nibble of byte 12 plus 100 times the high nibble of byte 13 |
| JrkUsb.BcdFirmwareVersion | lib/usb.cpp:35-49 | same error path; reads `bcdDevice` as binary-coded decimal, major from byte 13, minor from byte 12 |
| JrkUsb.BcdByteValue | lib/usb.cpp:45-47 | the BCD byte of every number below 100 reads back as that number |
| JrkUsb.BcdFirmwareVersionRoundTrip | lib/usb.cpp:45-47 | the BCD reading recovers every release number 0.0 to 99.99 |
| JrkUsb.FirmwareReadingsAgreeOnlyBelowTen | lib/usb.cpp:45-47 | the source's reading and the BCD reading agree exactly when byte 13 is zero and byte 12 is below 16 |
| JrkUsb.FirmwareRelease102ShownAs02 | lib/usb.cpp:45-47 | the descriptor of release 1.02 is shown as 0.2 by the source and read as 1.2 in BCD |
| JrkUsb.PortListShape | lib/usb.cpp:64-66 | for at least one port, the port list holds only digits and dots and starts and ends with a digit, so there is no trailing dot |
| JrkUsb.Decimals | lib/usb.cpp:64-66 | each port number is rendered in decimal, in order |
| JrkUsb.ParseAllDecimals | lib/usb.cpp:64-66 | the decimal renderings read back as the port numbers |
| JrkUsb.PortListRoundTrip | lib/usb.cpp:64-66 | the dotted port list reads back as the port numbers |
| JrkUsb.LibusbGetTopology | lib/usb.cpp:53-68 | fails with libusb's code when it reports no port numbers. Otherwise the port is the first number, and the rendering is the reported numbers in decimal, separated by dots, with no trailing dot |
| JrkUsb.AcmTtyDir | lib/usb.cpp:194-195 | the directory name starts with `/sys/bus/usb/devices/` and ends with `:1.0/tty`, with the bus and port between |
| JrkUsb.SplitBusPort | lib/usb.cpp:194-195 | the bus and port part of the directory name splits at the dash into the two numbers |
| JrkUsb.ParseBusPortRoundTrip | lib/usb.cpp:194-195 | "bus-port" with both numbers in decimal reads back as the two numbers |
| JrkUsb.AcmTtyDirRoundTrip | lib/usb.cpp:194-195 | the sysfs directory name determines the bus and port it was built from |
| JrkUsb.FindACMDevice | lib/usb.cpp:193-219 | an opendir failure is reported with the directory name. Otherwise the result is the first entry other than "." and "..". With no such entry, it is a read error if the last readdir failed and "no device" otherwise |
| JrkUsb.JrkParamsFitBuffer | lib/usb.cpp:144-162 | every parameter is 1 or 2 bytes wide, so it fits the 2-byte buffer, and its id fits the 8-bit wIndex |
| JrkUsb.FullTransferShowsPayload | lib/usb.cpp:162-172 | a transfer that delivers the parameter's full width is shown as exactly its bytes |
| JrkUsb.ShortTransferShowsStaleBytes | lib/usb.cpp:162-172 | a short transfer is shown followed by the buffer bytes left from earlier transfers |
| JrkUsb.BufferAfter | lib/usb.cpp:162-172 | the buffer stays 2 bytes long, and after n transfers it starts with the bytes the last one delivered |
| JrkUsb.ConfigLines | lib/usb.cpp:162-172 | one line per successful transfer, the newest naming its parameter and showing two hex digits per byte of the parameter's width |
| JrkUsb.ShowParameter | lib/usb.cpp:165-172 | a successful transfer's payload lands at the start of the buffer, and the parameter's width of the buffer is rendered as hex |
| JrkUsb.ConfigLineAt | lib/usb.cpp:171-172 | line k names parameter k and shows the hex of its width of the buffer as transfer k left it |
| JrkUsb.ConfigRequests | lib/usb.cpp:163-166 | request i asks for parameter i's id with parameter i's width, in table order |
| JrkUsb.LibusbGetConfig | lib/usb.cpp:161-174 | requests the parameters in table order and prints one line per successful transfer. It stops with the code of the first transfer returning zero or less, and only then |

## Left out

- Opening and configuring the tty (`OpenDev`: `open`, `tcgetattr`,
  `tcsetattr`) and closing it in the destructor are system calls outside
  the model. The constructor starts from an open device.
- `poll()` itself is abstracted into a sequence of events. A wake-up of
  the second `pollfd`, passed to `poll()` as descriptor 0 with no
  requested events, becomes `OtherFdEvent`. An event
  sequence is finite, so a run that is never stopped ends as
  `EventsExhausted`.
- Atomicity of `cancelled` and concurrent calls from the command thread
  are not modelled. `poller.cpp` has no lock, wake-up descriptor or reply
  callback to model.
- JrkPoller.Poller.Poll: `StopPolling` does not wake `poll()`
  (`poller.cpp:57-58`, `poller.cpp:170-171`), so a stop takes effect only
  after the next return of `poll()` has been handled, and never if none
  comes. The model's `StopRequested` event stands for the moment the check
  at line 170 finds the flag set. A `HandleUSB` that throws after a
  concurrent `StopPolling` leaves `Poll` with `cancelled` already set; the
  model, which orders the stop between events, does not capture that
  case, so its `cancelled <==> outcome == Stopped` holds only for stops
  seen by the loop check.
- The exact text of the iostream output is not modelled. Each printed
  line is a `Message`, `ConfigLine` or string value. Restoring the
  stream's format state in `HexOutput` has no counterpart.
- JrkPoller.HexOutput: the model assumes the caller's stream has default
  format flags. `poller.cpp:109-111` sets only the base, the fill and the
  width, so `std::uppercase`, `std::showbase` or `std::left` already set
  on the stream would change the text.
- `JrkUsb.LibusbGetTopology`: writes `*bus` before the port query can
  fail; the model returns the bus only on success. The source also prints
  the address of the `bus` pointer rather than the bus number; the model
  records the number.
- `JrkUsb.LibusbGetConfig`: libusb's errors are passed in as return codes,
  not as `libusb_strerror` text. The buffer's uninitialised start is an
  input.
- `JrkUsb.FindACMDevice`: the listing is given whole. Closing the
  directory is not modelled.
- `LibusbGetDesc` (it byte-swaps with `ntohs`, and its string descriptor
  is fetched by libusb), `LibusbVersion` and `JrkGetSerialNumber` only
  print what libusb returns. They are not part of this model.
- The full `JrkConfigParam` enumeration is not modelled. Only the five
  values that `JrkParams` uses are constants.
- `SetJrkTarget`, `SetJrkOff`, `ReadJrkScaledFeedback`, `ReadJrkErrorSum`,
  `ReadJrkDutyCycleTarget`, `ReadJrkDutyCycle`, `ReadJrkCurrent` and
  `USBToSigned16` are only declared (`lib/poller.h:26-33`,
  `lib/poller.h:49`); their bodies are not in these files, so they are not
  modelled.
- The command-line front end (`pololu.cpp`) and the tests are not part of
  this model.

## Findings

| source | as written | input that shows it | evidently intended | confidence | as-written member | corrected member |
|---|---|---|---|---|---|---|
| lib/usb.cpp:45-47 | minor is the low nibble of byte 12; major is the high nibble of byte 12 plus 100 times the high nibble of byte 13. The low nibble of byte 13 is dropped | device descriptor with `bcdDevice` 0x0102 (bytes 12-13 = 0x02, 0x01), release 1.02: shown as 0.2 | read `bcdDevice` as binary-coded decimal (section 9.6.1 of the USB 2.0 specification): major 1, minor 2 | medium, not executed | JrkUsb.FirmwareRelease102ShownAs02 | JrkUsb.BcdFirmwareVersionRoundTrip |
