# CondInterface: a verified model of the conductivity-meter session

This project models the instrument session of the pump controller's
conductivity meter, class `CondInterface` in `condinterface.cpp`. It
supports two meters: the Thermo Orion Lab Star EC112 (9600 baud, frames
end with `>`) and the eDAQ EPU357 isoPod (115200 baud, frames end with a
newline). The model covers:

- the read handler, which appends the bytes read to the serial buffer and
  cuts out complete frames;
- the two response parsers, which turn one trimmed frame into at most one
  message, reading or error event;
- connecting, with the per-meter initialisation commands: the EC112's
  zero-padded `SETRTC` clock command, or the EPU357's four set-up commands;
- the measurement trigger;
- writing a command to the port as UTF-8;
- shutdown;
- the reaction to serial-port errors.

Files, one module each:

- `wrappers.dfy`: `Option`.
- `sequences.dfy`: the container operations the session uses, as Qt defines them:
  - `indexOf`;
  - a last-occurrence search, which the session never calls but which describes what the read loop leaves in the buffer;
  - `contains` and `startsWith`;
  - `split(',')`, which keeps empty parts;
  - `split(' ', SkipEmptyParts)`.
- `text.dfy`: `QString::trimmed`, with the whitespace set of `QChar::isSpace`, and `QString::fromLatin1`.
- `utf8.dfy`: `QString::toUtf8`.
- `numbers.dfy`:
  - `QString::arg` zero padding;
  - `QString::toDouble`: optional sign, digits with an optional point, optional exponent, surrounding whitespace ignored, exact value.
- `framing.dfy`: frame cutting at a terminator, and its properties.
- `meter.dfy`: the per-meter constants and commands.
- `responses.dfy`: the two parsers.
- `session.dfy`: the class `CondInterface`, plus the functions and lemmas that describe what one read reports.

Modelling choices:

- The serial port, the worker thread and the clock are replaced by inputs and output logs:
  - the bytes read are a parameter of `HandleReadyRead`;
  - the outcome of opening the port is a parameter of `ConnectToMeter`, and so is the current date and time;
  - what `write` reported is a parameter of `SendToMeter`.
- The signals are appended to fields of the object, in emission order:
  - `events` holds `messageReceived`, `measurementReceived` and `errorOccurred`;
  - `commands` holds `sendCommand`;
  - `calls` holds requests to the worker thread and the port;
  - `packets` holds the bytes handed to the port.

Behaviour of the code worth noting:

- `getMeasurement` does not check that a port is connected. It always emits its trigger command.
- `connectToMeter` does not clear the serial buffer. A partial frame left from an earlier connection stays in front of the new bytes.
- An EC112 frame keeps its `>` terminator when it reaches the parser. An EPU357 frame's newline is removed by trimming.
- An EC112 measurement field that does not convert counts as 0. It does not count as malformed. `toDouble` is called there without a success flag.

## Model

| member | source | states |
|---|---|---|
| Sequences.IndexOf | condinterface.cpp:149 | The result is -1 exactly when the byte is absent. Otherwise it is the position of the byte's first occurrence. |
| Sequences.LastIndexOf | condinterface.cpp:148-161 | Not called by the session. It defines the remainder `AfterLast` that the read loop leaves in the buffer. The result is -1 exactly when the byte is absent. Otherwise it is the position of the byte's last occurrence. |
| Sequences.Contains | condinterface.cpp:184 | True exactly when the pattern occurs at some position of the text. |
| Sequences.StartsWith | condinterface.cpp:216-229 | `startsWith`: the text begins with the prefix, which is no longer than the text. |
| Sequences.Split | condinterface.cpp:189 | The comma split has one more part than there are commas. No part holds a comma. Joining the parts with commas gives the text back, so empty fields are kept. |
| Sequences.SplitJoin | condinterface.cpp:189 | Splitting comma-free fields joined by commas gives back exactly those fields. |
| Sequences.NonEmpty | condinterface.cpp:235 | Dropping empty parts keeps only non-empty parts from the input, and their concatenation is unchanged. |
| Sequences.NonEmptyAppend | condinterface.cpp:235 | Dropping empty parts is an in-order filter: on a concatenation it is the concatenation of the results. |
| Sequences.NonEmptyOne | condinterface.cpp:235 | On one part it keeps the part exactly when the part is not empty. |
| Sequences.SplitSkipEmpty | condinterface.cpp:235 | The space split with SkipEmptyParts gives non-empty words without spaces. Together they hold every character of the line that is not a space. |
| Sequences.SplitSkipEmptyOfJoin | condinterface.cpp:235 | For any parts without the separator, the split of their join is exactly the non-empty parts, in order. Since every text is the join of its plain split, this fixes the result for every text, whatever runs of separators it holds. |
| Sequences.SplitSkipEmptyJoin | condinterface.cpp:235 | Non-empty words without spaces, joined by single spaces, split back into exactly those words. |
| Text.IsSpace | condinterface.cpp:157 | The whitespace set of `QChar::isSpace`: tab to carriage return, space, NEL, no-break space, and the Unicode separators. |
| Text.LeadingSpaces | condinterface.cpp:157 | Counts the whitespace run at the front; the next character is not whitespace. |
| Text.TrailingSpaces | condinterface.cpp:157 | Counts the whitespace run at the back; the character before it is not whitespace. |
| Text.Trimmed | condinterface.cpp:157 | The result is the text's middle part, with only whitespace around it. A non-empty result starts and ends with non-whitespace. It is empty exactly when the text is all whitespace. |
| Text.TrimmedNoOp | condinterface.cpp:157 | Text that starts and ends with non-whitespace is unchanged by trimming. |
| Text.TrimmedIdempotent | condinterface.cpp:230 | Trimming twice is trimming once. So the parsers' trimmed input is unchanged when the EPU357 value line is trimmed again. |
| Text.TrimmedKeepsLast | condinterface.cpp:170-173 | A last character that is not whitespace survives trimming and stays last. |
| Text.FromLatin1 | condinterface.cpp:157 | Each byte becomes the character with the same code, so the length is kept. |
| Text.FromLatin1Injective | condinterface.cpp:173 | Different frames give different text. |
| Utf8.EncodeChar | condinterface.cpp:134 | A character becomes 1 byte below 0x80, 2 bytes below 0x800, 3 bytes below 0x10000, and 4 bytes otherwise. A multi-byte sequence has a lead byte and continuation bytes, and a lead byte is never a continuation byte. |
| Utf8.DecodeEncodeChar | condinterface.cpp:134 | Every character's encoding decodes back to the character. |
| Utf8.ToUtf8 | condinterface.cpp:134 | The encoding has between one and four bytes per character. |
| Utf8.ToUtf8Append | condinterface.cpp:134 | The encoding of a concatenation is the concatenation of the encodings, so a command is encoded character by character. |
| Utf8.AsciiUtf8 | condinterface.cpp:134-138 | ASCII text encodes to one byte per character, and reading those bytes as Latin-1 gives the text back. |
| Utf8.NonAsciiLonger | condinterface.cpp:134-138 | Text with a character outside ASCII encodes to more bytes than it has characters. |
| Numbers.Decimal | condinterface.cpp:103-109 | The numeral is made of digits, denotes the number, and has no leading zero. |
| Numbers.DecimalFits | condinterface.cpp:103-109 | The numeral fits a width exactly when the number is below 10 to that width. |
| Numbers.Zeros | condinterface.cpp:103-109 | The padding is that many zero digits, and its value is 0. |
| Numbers.LeadingZeros | condinterface.cpp:103-109 | Zeros in front do not change a numeral's value. |
| Numbers.Pad | condinterface.cpp:104-109 | Zero padding gives digits that denote the number, at least as wide as the field. |
| Numbers.PadWidth | condinterface.cpp:104-109 | The padded field is exactly its width when the number fits. Otherwise the padding is the plain numeral, wider than the field. |
| Numbers.DigitChar | condinterface.cpp:103-109 | A digit value becomes the digit character that has that value. |
| Numbers.ParseNumber | condinterface.cpp:193 | A conversion succeeds only when the trimmed text starts with a sign, a point or a digit. |
| Numbers.ParseMantissa | condinterface.cpp:239 | A mantissa converts only when it starts with a digit or a point. |
| Numbers.ParseUnsigned | condinterface.cpp:239 | An unsigned numeral converts only when it starts with a digit or a point. |
| Numbers.ExponentIndex | condinterface.cpp:239 | The position of the first 'e' or 'E': -1 exactly when there is none; otherwise a marker with no marker before it. |
| Numbers.ParseExponent | condinterface.cpp:239 | An exponent is digits with an optional leading sign, at least one digit. |
| Numbers.Scale | condinterface.cpp:239 | The mantissa times 10 to the exponent, dividing for a negative exponent. |
| Numbers.NumberOfDigits | condinterface.cpp:239 | A run of digits converts to the number those digits denote. |
| Numbers.NumberOfDecimal | condinterface.cpp:239 | Every natural number's numeral converts back to that number. |
| Numbers.NumberOfFixedPoint | condinterface.cpp:239 | "d.f" converts to d plus f divided by 10 to the length of f, as in "12.398184". |
| Numbers.NumberOfNegated | condinterface.cpp:239 | A leading minus negates the value, and a text that does not convert does not convert with the minus either. |
| Numbers.NumberRejectsWord | condinterface.cpp:239-253 | Text whose trimmed form does not start like a number does not convert. |
| Numbers.NumberRejectsJunk | condinterface.cpp:255-266 | Text whose trimmed form holds any character other than a digit, a point, an exponent marker or a sign does not convert. So a lone word with a unit glued to it is not a number. |
| Numbers.NumberWithUnitRejected | condinterface.cpp:255-266 | "12mS" does not convert, so as a lone word it gives a message rather than a reading. |
| Framing.AfterLast | condinterface.cpp:143-178 | The bytes after the last terminator: a suffix without terminator, preceded by a terminator unless it is everything. |
| Framing.Frames | condinterface.cpp:148-155 | The frames the read loop cuts, in order: each is the prefix up to and including the first terminator of what is left. See FramesCons, FramesComplete, FramesLossless and FrameCount. |
| Framing.AfterLastUnique | condinterface.cpp:143-178 | Those three properties pin the remainder down. |
| Framing.AfterLastStep | condinterface.cpp:155 | Removing a prefix that ends at a terminator leaves the same remainder. |
| Framing.FramesCons | condinterface.cpp:149-155 | The first frame is the prefix up to and including the first terminator. The remaining frames come from what follows it. |
| Framing.FramesComplete | condinterface.cpp:149-155 | Every frame cut ends with the terminator and holds no earlier terminator. |
| Framing.FramesLossless | condinterface.cpp:142-179 | The frames, then the bytes left in the buffer, give back exactly the buffer plus the bytes read. |
| Framing.NoTerminatorNoFrame | condinterface.cpp:151-152 | Bytes without a terminator give no frame and all remain buffered. |
| Framing.FrameCount | condinterface.cpp:148-161 | There are exactly as many frames as terminator bytes. |
| Framing.FramesAppend | condinterface.cpp:142-179 | Framing more bytes after earlier ones gives the earlier frames, then the frames of the leftover plus the new bytes. The remainder is that of the whole. |
| Framing.ChunkingIndependent | condinterface.cpp:142-179 | Reads of any chunking of the bytes, starting from a buffer without a terminator, cut the frames of a single read of all of them, and leave the same buffer. |
| Meter.SetRtcCommand | condinterface.cpp:103-109 | The clock command starts with "SETRTC ", ends with "-3" and a carriage return, and is at least 29 characters long. |
| Meter.SetRtcRoundTrip | condinterface.cpp:103-109 | Every date and time reads back from its command: between "SETRTC " and "-3\r", the six fields separated by '-' denote exactly that date and time. |
| Meter.SetRtcLength | condinterface.cpp:103-109 | A date and time whose fields fit their widths gives a command of exactly 29 characters. |
| Meter.Fields | condinterface.cpp:104-109 | The six fields are digits, the year at least 4 wide and every other field at least 2. |
| Meter.StampJoin | condinterface.cpp:103 | The command is "SETRTC ", then the six fields joined by '-', then "-3\r". |
| Meter.Stamp | condinterface.cpp:103 | The layout of the clock command: "SETRTC ", the six fields separated by '-', then "-3" and a carriage return. |
| Meter.FieldWidths | condinterface.cpp:104-109 | For a date and time that fits, year pads to 4 characters and every other field to 2. |
| Meter.CommandsEndWithReturn | condinterface.cpp:84-129 | Every initialisation command and the measurement command ends with a carriage return. |
| Meter.CommandsAreAscii | condinterface.cpp:84-138 | Every command the session sends is ASCII, so each is written as one byte per character. |
| Meter.SetRtcAscii | condinterface.cpp:103-109 | The clock command is ASCII for every date and time. |
| Meter.DigitsAscii | condinterface.cpp:104-109 | Digits are ASCII. |
| Meter.Terminator | condinterface.cpp:146-165 | The frame terminator is '\n' for the EPU357 and '>' for the EC112. Both are ASCII. Only the EPU357's is whitespace, so trimming removes it and the EC112's stays at the end of the response. |
| Meter.BaudRate | condinterface.cpp:58-59 | 115200 baud for the EPU357, 9600 for the EC112. |
| Meter.InitCommands | condinterface.cpp:79-113 | The commands sent once the port is open, in order: for the EPU357 a carriage return, "set range 20 auto", "set k 1.0" and "sample ascii #", each ending in a carriage return; for the EC112 the one clock command. |
| Meter.MeasurementCommand | condinterface.cpp:121-128 | "#\r" for the EPU357, "GETMEAS\r" for the EC112. |
| Responses.ParseOrion | condinterface.cpp:181-205 | The decision rule of the EC112 parser: <br>- the raw response as a message exactly when it contains "RTC updated"; <br>- otherwise, for a response containing "Conductivity", a reading exactly when it has at least 11 commas (12 fields), and "Malformed GETMEAS response" as an error exactly when it has fewer; <br>- "Unknown response: " plus the response exactly when it holds neither phrase. <br>So every response gives exactly one event. |
| Responses.OrionReadingFromFields | condinterface.cpp:189-197 | A measurement line of at least 12 fields gives a reading whose value is field 9 converted, or 0 when it does not convert, and whose unit is field 10 trimmed. |
| Responses.OrionMalformedFields | condinterface.cpp:189-200 | A measurement line of 1 to 11 fields gives exactly the error "Malformed GETMEAS response". |
| Responses.NumberOrZero | condinterface.cpp:193 | `toDouble` without a success flag: the converted value when the text converts, and 0 when it does not. |
| Responses.ValueLine | condinterface.cpp:226-231 | The value line is the response, or the trimmed rest after the 15-character "EPU357 Reading " banner. It is never longer than the response, and it is trimmed when the response is. |
| Responses.ParseEPU357 | condinterface.cpp:207-271 | The decision rule of the EPU357 parser: <br>- no event exactly for the prompt "EPU357>"; <br>- the sampling and range notices as messages; <br>- never an error; <br>- a reading's unit is always one non-empty word; <br>- every message ends with the whole response. |
| Responses.ReadWords | condinterface.cpp:235-270 | The word rule: <br>- a reading exactly when there is at least one word and the first converts; <br>- its value is that of the first word, its unit the second word, or "mS" for a lone word; <br>- otherwise "Could not parse value from: " plus the response for two or more words, and "EPU357: " plus the response for one word or none; <br>- never an error. |
| Responses.EPU357ByWords | condinterface.cpp:211-235 | A response that is not the prompt, not a sampling or range notice and not a reading banner is decided by the word rule on its own words. |
| Responses.EPU357Words | condinterface.cpp:211-235 | For any response that is parts joined by single spaces, so with any runs of spaces where parts are empty, the words the rule sees are exactly the non-empty parts, in order. |
| Responses.Differs | condinterface.cpp:211-229 | Text that differs from a literal at one position neither equals nor starts with it. |
| Responses.EPU357Reading | condinterface.cpp:237-251 | For such a response: at least two words whose first converts to x give a reading of x in the unit of the second word, as in "12.398184 mS" or "12.398184   mS extra". |
| Responses.EPU357ReadingBanner | condinterface.cpp:229-235 | For every remainder w: "EPU357 Reading " followed by w is decided by the word rule on the words of w trimmed. |
| Responses.EPU357PrefixedWords | condinterface.cpp:229-235 | When w trimmed is parts joined by single spaces, those words are its non-empty parts, in order. |
| Responses.EPU357PrefixedReading | condinterface.cpp:229-251 | After the banner, at least two words whose first converts to x give a reading of x in the unit of the second word. When the trimmed remainder is itself decided by its own words, the banner changes nothing. |
| Responses.EPU357LoneValue | condinterface.cpp:255-263 | For such a response: a single word that converts to x gives a reading of x in the default unit "mS". |
| Responses.EPU357UnparseableValue | condinterface.cpp:237-253 | For such a response: at least two words whose first does not convert give the message "Could not parse value from: " plus the response, as for "Error 5". |
| Responses.EPU357UnknownWord | condinterface.cpp:255-266 | For such a response: a single word that does not convert gives "EPU357: " plus the response. |
| Responses.EPU357NoWords | condinterface.cpp:267-270 | For such a response: no word at all gives "EPU357: " plus the response. |
| Responses.EPU357ValueLineHasWord | condinterface.cpp:226-270 | A trimmed, non-empty response always has at least one word on its value line. So the branch for a line without words is never taken for a response the read handler delivers. |
| Responses.BannerRestHasWord | condinterface.cpp:229-230 | After the banner, a response that ends in non-whitespace leaves a non-empty trimmed remainder. |
| Responses.WordIn | condinterface.cpp:235 | A line holding a character other than a space has at least one word. |
| Session.ErrorName | condinterface.cpp:276-279 | The name of each `QSerialPort::SerialPortError` enumerator, as the meta-object system reports it. |
| Session.ErrorNamesDistinct | condinterface.cpp:276-279 | Distinct serial errors are reported under distinct names. |
| Session.Response | condinterface.cpp:157-173 | A frame's response is its bytes read as Latin-1, then trimmed. |
| Session.NonBlank | condinterface.cpp:158-174 | A response is handed on only when it is not empty. |
| Session.ResponseOf | condinterface.cpp:157-174 | The responses of one frame: its trimmed Latin-1 text, or nothing when that is empty. |
| Session.EventsOf | condinterface.cpp:157-176 | A response gives at most one event, and none exactly when it is the EPU357 prompt. The EC112 always gives one. |
| Session.Delivered | condinterface.cpp:157-176 | The responses handed to the parser, in arrival order, one per frame that is not blank; see DeliveredTrimmed and DeliveredAll. |
| Session.ReadEvents | condinterface.cpp:142-179 | The events one read reports: those of the responses of the frames cut from the buffer plus the bytes read; see ReadsCompose and HandleReadyRead. |
| Session.EventsOfAppend | condinterface.cpp:148-177 | The events of two runs of frames are those of the first run, then those of the second. |
| Session.ReadsCompose | condinterface.cpp:142-179 | Two reads report the events of one read of the same bytes, in the same order. Where the driver splits the stream does not change what the session reports. |
| Session.ReadsSplit | condinterface.cpp:142-179 | Two reads cut the frames of one read of the same bytes, in order, and leave the same buffer behind. |
| Session.DeliveredTrimmed | condinterface.cpp:157-176 | Every response handed to a parser is non-empty and already trimmed. |
| Session.DeliveredAll | condinterface.cpp:157-176 | When no frame is blank, every frame reaches the parser exactly once, as its trimmed Latin-1 text, in arrival order. |
| Session.OrionFrameNotBlank | condinterface.cpp:170-176 | An EC112 frame is never blank: its response ends with the '>' it was cut at. |
| Session.OrionEventPerResponse | condinterface.cpp:181-205 | The EC112 parser gives exactly one event per response. |
| Session.OrionEventPerTerminator | condinterface.cpp:164-177 | From an EC112 byte stream the session reports exactly one event per '>' byte. |
| Session.EPU357EventPerResponse | condinterface.cpp:207-271 | EPU357 responses other than the prompt give exactly one event each. |
| Session.EPU357PromptsSilent | condinterface.cpp:211-213 | Prompts give no event. |
| Session.CutStep | condinterface.cpp:149-155 | One loop step keeps the frames and the remainder of the whole input accounted for. |
| Session.PieceOf | condinterface.cpp:157-160 | A blank frame gives no event. Any other frame gives the events of its trimmed response. |
| Session.CutOne | condinterface.cpp:154-160 | One more frame adds its response's events, or none when it is blank. |
| Session.CondInterface.constructor | condinterface.cpp:6-27 | A new session has an empty buffer, a closed port, sampling mode off, and no output. Its worker thread is started. |
| Session.CondInterface.Shutdown | condinterface.cpp:29-40 | Afterwards the worker is stopped and the port closed. The worker is asked to stop only if it was running, and the port is closed only if it was open, in that order. |
| Session.CondInterface.SendCommand | condinterface.cpp:84-129 | A command is appended to the commands queued for the worker. |
| Session.CondInterface.ConnectToMeter | condinterface.cpp:52-116 | An open port is closed first, then the port is set to the meter's baud rate and opened. <br>- The result is true exactly when the port opened. <br>- On failure: exactly one error "Failed to open port: " plus the port's reason, and no command. <br>- On success: exactly the meter's initialisation commands, in order, and for the EPU357 sampling mode is switched on. |
| Session.CondInterface.GetMeasurement | condinterface.cpp:118-130 | Exactly one command is appended, "#\r" for the EPU357 or "GETMEAS\r" for the EC112, and nothing else changes. |
| Session.CondInterface.SendToMeter | condinterface.cpp:132-140 | The command's UTF-8 bytes are handed to the port. The result is true exactly when the port reports all of them written. |
| Session.CondInterface.HandleCommand | condinterface.cpp:46-49 | A command the worker releases is written to the port as its UTF-8 bytes. |
| Session.CondInterface.HandleError | condinterface.cpp:273-288 | A ResourceError closes the port and emits one error carrying the error's name. Every other error changes nothing. |
| Session.CondInterface.Parse | condinterface.cpp:159-175 | A response is handed to its meter's parser, which appends its events. |
| Session.CondInterface.HandleReadyRead | condinterface.cpp:142-179 | Afterwards the buffer holds exactly the bytes after the last terminator in the old buffer plus the bytes read, so it holds no terminator. The events appended are those of the responses of every frame cut, in order, with blank frames skipped. |
| Session.CondInterface.CutFrame | condinterface.cpp:154-160 | One frame is removed from the front of the buffer, and the events of its response are appended. |
| Session.ShutdownTwice | condinterface.cpp:29-40 | Two shutdowns in a row have the effect of one: the second neither stops the worker nor closes the port again. |
| Session.ReadInTwoChunks | condinterface.cpp:142-179 | Reading bytes in two chunks leaves the object's buffer and events as one read of all the bytes would. |

## Left out

- Threads and the worker. The worker thread, `CondWorker`, and the queued signal connections between them are left out. `condworker.h` is not part of this model. The worker's queue is the `commands` log. Commands are released to `HandleCommand` in that order.
- Serial port I/O is replaced by parameters:
  - open, read and write results;
  - `errorString`.
- Port settings without a visible effect are left out: data bits, parity, stop bits, flow control, DTR and RTS (condinterface.cpp:63-66, 73-74).
- The settle delays `QThread::msleep(100)` (condinterface.cpp:82, 86) are timing only.
- Logging through `qDebug` and `qWarning` is left out.
- Numbers.ParseNumber: gives exact rational values. It does not model these, which need floating point:
  - double rounding, overflow and underflow (`toDouble` reports a result too small for a double as a failed conversion, so 0 at condinterface.cpp:193; the model gives the exact value);
  - `inf` and `nan`.
- Meter.DateTime: fields are natural numbers. Negative years are not modelled. A year above 9999 pads to its own width, as `arg` does.
- The model follows Qt 6. Under Qt 5 two things would differ:
  - `SerialPortError` would also have `ParityError`, `FramingError` and `BreakConditionError`, which `ErrorName` does not list;
  - `QString::fromLatin1` of a byte array would stop at the first NUL byte, while `FromLatin1` decodes every byte.
- `getMeterType` is the constant field `meterType`.
- The destructor only calls `shutdown`; see `Shutdown`.
- The meta-object enumerator lookup is the fixed table `ErrorName`, holding the names of `QSerialPort::SerialPortError`.
- The port-selection dialog, `comsdialog.cpp`, is outside the session.
- A numeric instance such as "12.398184" converting to 12.398184 is not stated as a separate lemma. `NumberOfFixedPoint` covers it for every value of that shape.
