# A verified model of dsmr3Lib

dsmr3Lib reads the telegrams of smart electricity meters (DSMR, P1 port): it
collects the bytes between `/` and `!`, checks an optional CRC, splits the
telegram into lines, and decodes the fields that the application asked for
while a bad line only costs its own field. This project models that library in
Dafny 4.11 and proves what it promises, from the bytes on the wire to the
stored values. `dafny verify dfyconfig.toml` checks everything.

## How the model is laid out

Code that changes things step by step is imperative here as well: cursors and
accumulators are loops, `P1PacketAccumulator`, `P1DiagnosticsTracker`,
`P1FixedReader`, `P1Reader` and `ParsedData` are classes that write their
arrays and fields in place. Every such method is proved equal to a
specification function on values, and the laws are proved about those
functions.

| file | models | proves |
|---|---|---|
| `crc16.dfy` | `_crc16_update` | linearity, invertibility, detection of bursts of up to 16 bits, bit parity |
| `text.dfy`, `checksum.dfy` | parse results, `CrcParser`, `%04X` | what `strtoul` takes for a checksum, the digits of both cases, printing against parsing |
| `numbers.dfy`, `number_laws.dfy` | `StringParser`, `NumParser` | exactly which texts are numbers, fixed-point values modulo 2^32, round trips, milli-units |
| `obis.dfy`, `obis_laws.dfy` | `ObisIdParser` | the id grammar, longest prefix, round trip, the channel of 1-1 |
| `decoder.dfy`, `decoder_laws.dfy` | `ValueDecoder`, the field shapes | both orders of a stamped reading, DLMS date-times, two-line readings |
| `field_laws.dfy` | every field shape | what is stored from the text that a meter prints, and which texts are refused |
| `fields.dfy` | `ParsedData` | one field per id, duplicates |
| `telegram.dfy`, `telegram_laws.dfy` | `P1Parser` | split and fold, blank lines, error counts, first complete line wins, two lines as one |
| `receiver.dfy`, `receiver_laws.dfy` | tracker and accumulator | what every byte does over every run, the vote, the counters, the invisible saving |
| `agreement.dfy`, `recovery.dfy` | batch parser against receiver | which texts are accepted, when both accept, what a checksum detects, reprinting, resynchronisation |
| `readers.dfy`, `reader_laws.dfy` | `P1FixedReader`, `P1Reader` | both readers receive the same telegrams, bytes to fields, what `loop` and `available` say |
| `reader_runs.dfy` | clients of `P1FixedReader` | the accounts over whole runs of arriving bytes and calls |

A pair of pointers into the text is modelled as the text between them, and a
position counts from its first character; only `parse_data`, whose cursors jump
and cross, keeps indices into the whole text. Bytes are characters, of which
the CRC sees the low eight bits. The template list of fields is a sequence of
descriptors (id, shape), and the members of the fields are two arrays.
`concat_hack` copies through a C string and therefore cuts at a NUL; `strchr`
finds the terminating NUL; both are modelled.

## Where the code differs from its documentation

The model follows the code. Each difference has a lemma with a concrete input,
and a lemma that says exactly when the code keeps the promise.

- Not every accepted checksum is four hexadecimal digits (DESIGN.md, Telegram
  integrity): `strtoul` also takes white space, a sign or `0x` in the place of
  digits. See `SignedChecksum`, `CrcParseAccepts`, `BatchAndStreamAgree`.
- The receiver completes on the fourth digit while the batch parser measures
  the whole suffix. See `FiveDigits`, `BatchAndStreamAgree`.
- An empty number is 0 for every integer field, not only for M-Bus device
  types (comment at `src/dsmr3/fields3.h:193`). See `EmptyNumberIsZero`,
  `PlainNumberReads`, `PlainNumberOnly`.
- A milli-unit reading with decimals is stored with the decimals appended. See
  `MilliDecimalsCounterexample`, `MilliDecimals`.
- `P1FixedReader` still calls a telegram available when the next `/` has
  emptied its buffer and that telegram is not finished yet. See `LostExample`,
  `LostAtSlash`.
- `P1Reader::loop` is not just like `available`, although its comment says so:
  it returns true after a rejected suffix, and false while a telegram that was
  not taken is available. See `TrueWithoutTelegram`, `FalseWithTelegram`,
  `LoopAgainstAvailable`.

## Model

| member | source | states |
|---|---|---|
| `Crc16.Update` | src/dsmr3/crc16.h:44-57 | the eight-step loop is eight turns of the shift register on the register combined with the byte |
| `Crc16.NextLinear` | src/dsmr3/crc16.h:44-57 | the update is linear over exclusive or, jointly in register and byte |
| `Crc16.NextInjective` | src/dsmr3/crc16.h:44-57 | no byte makes two different registers meet |
| `Crc16.FoldInjective` | src/dsmr3/crc16.h:44-57 | nor does any message tail |
| `Crc16.BurstDetected` | src/dsmr3/crc16.h:44-57 | texts of one length that differ in at most sixteen consecutive transmitted bits, over up to three bytes, have different CRCs |
| `Crc16.CrcParity` | src/dsmr3/crc16.h:44-57 | the register has the parity of all bits of the text, so an odd number of changed bits shows |
| `Checksum.CrcParseHex` | src/dsmr3/parser3.h:341-362 | four hexadecimal digits are read as the number they denote |
| `Checksum.CrcParseAccepts` | src/dsmr3/parser3.h:341-362 | four characters are accepted exactly when digits follow what strtoul skips, up to the last character, and are read as the number of those digits, negated after a minus sign |
| `Checksum.NumeralReads` | src/dsmr3/parser3.h:341-362 | white space, a sign and 0x before the digits: the number of the digits is read, negated after a minus sign |
| `Checksum.NumeralOnly` | src/dsmr3/parser3.h:341-362 | no other four characters are accepted |
| `Checksum.IsSpaceMeans` | src/dsmr3/parser3.h:349-358 | the six characters of white space |
| `Checksum.HexNibbleMeans` | src/dsmr3/fields3.cpp:54-59 | the sixteen digits in both cases have their values, and no other character has one |
| `Checksum.PrintParse` | src/dsmr3/reader3.h:376-396 | printing any 16-bit value in the %04X format and parsing it gives the value back |
| `Checksum.PrintsUpperCase` | src/dsmr3/reader3.h:388-393 | %04X prints four digits in upper case |
| `Numbers.ParseString` | src/dsmr3/parser3.h:166-189 | the cursor loop finds the first closing parenthesis, checks the length and copies the text between |
| `Numbers.ParseNumber` | src/dsmr3/parser3.h:197-283 | the loops with wrapping arithmetic give the value of the kept digits modulo 2^32, the next position, or the error |
| `Numbers.Decimals` | src/dsmr3/parser3.h:220-242 | at most max_decimals decimals enter the value, the others are skipped |
| `Numbers.Finish` | src/dsmr3/parser3.h:246-281 | unit text, milli variant, missing decimals and closing parenthesis |
| `NumberLaws.NumberAccepts` | src/dsmr3/parser3.h:198-282 | digits, possibly a point and decimals, and whatever may stand for a unit up to the parenthesis: read to the end as the reading of the digits |
| `NumberLaws.NumberOnly` | src/dsmr3/parser3.h:198-282 | nothing else is read as a number, with or without a unit |
| `NumberLaws.NumberRefused` | src/dsmr3/parser3.h:198-282 | the errors: no opening parenthesis, another character among the digits, no end |
| `NumberLaws.ReadingIsThousands` | src/dsmr3/parser3.h:198-282 | with three decimals the value is 1000 times the integer part plus the first three decimals padded with zeros, modulo 2^32 |
| `NumberLaws.NumberReads` | src/dsmr3/parser3.h:198-282 | a printed number is read whole, with or without decimals, asterisk and unit text; only the milli variant of the unit has an effect |
| `NumberLaws.BareNumberReads` | src/dsmr3/parser3.h:198-282 | where no unit is expected, digits in parentheses with or without a point are read as their fixed-point value |
| `NumberLaws.BareNumberOnly` | src/dsmr3/parser3.h:198-282 | nothing else is accepted there |
| `NumberLaws.FixedRoundTrip` | src/dsmr3/parser3.h:198-282 | every value below 2^32 printed with three decimals is read back |
| `NumberLaws.MilliRoundTrip` | src/dsmr3/parser3.h:262-276 | the same value printed as a whole number of milli-units is read back too |
| `NumberLaws.MilliDecimals` | src/dsmr3/parser3.h:262-276 | while the digits fit in 32 bits, a milli reading is stored exactly when it has no decimals or only zeros as digits; beyond that under a congruence on its digits |
| `NumberLaws.MilliDecimalsCounterexample` | src/dsmr3/parser3.h:262-276 | 1.5 mA is stored as 15 |
| `NumberLaws.PlainNumberReads` | src/dsmr3/parser3.h:198-282 | parenthesised digits, possibly none, are accepted as an integer without unit |
| `NumberLaws.PlainNumberOnly` | src/dsmr3/parser3.h:198-282 | nothing else is |
| `NumberLaws.EmptyNumberIsZero` | src/dsmr3/fields3.h:180-205 | an empty integer is 0, which the comment there denies |
| `Obis.ParseObis` | src/dsmr3/parser3.h:285-334 | the character loop with its part index and overflow test computes the id of the parts, the position of an overflow, or emptiness |
| `ObisLaws.ParseIdMeans` | src/dsmr3/parser3.h:286-333 | the longest prefix that is the text of an id is consumed; rejected exactly when a part exceeds 255 or nothing is there; missing parts are 255 |
| `ObisLaws.PrintParseId` | src/dsmr3/parser3.h:286-333 | parsing undoes printing of one to six parts up to the channel normalisation, which is idempotent |
| `ObisLaws.PrintedComponents` | src/dsmr3/parser3.h:315-332 | every component is read back, missing ones as 255, but channel 1 of medium 1 as 0 |
| `ObisLaws.ChannelOneIsZero` | src/dsmr3/parser3.h:325-327 | what begins with 1-1: is read as if it began with 1-0:, failures included |
| `ObisLaws.OverflowPosition` | src/dsmr3/parser3.h:298-302 | an overflow is reported at the first digit that takes a part above 255 |
| `Decoder.ReadBytes` | src/dsmr3/fields3.cpp:96-101 | the byte loop fills the buffer up to the first byte that is not hexadecimal |
| `Decoder.DecodeTimestamp` | src/dsmr3/fields3.cpp:82-116 | a text of 12 or 13 characters, or else a DLMS date-time of 24 |
| `Decoder.DecodeStamped` | src/dsmr3/fields3.cpp:127-151 | both orders of time stamp and value, and what a failed parse has stored |
| `Decoder.ParseDoubleHead` | src/dsmr3/fields3.cpp:160-177 | the groups, the id and the unit of the first line of a two-line reading |
| `Decoder.DecodeDoubleLine` | src/dsmr3/fields3.cpp:153-191 | the cursor moves past the line end and the number is taken from the second line |
| `Decoder.DecodeField` | src/dsmr3/fields3.h:93-227 | every field shape, including the sentinels of the optional M-Bus fields |
| `DecoderLaws.StringReads` | src/dsmr3/parser3.h:166-189 | a group is accepted exactly when its length is in bounds, and read up to a NUL |
| `DecoderLaws.StringOnly` | src/dsmr3/parser3.h:166-189 | whatever is accepted starts with such a group |
| `DecoderLaws.StringRefused` | src/dsmr3/parser3.h:166-189 | the errors of a missing parenthesis |
| `DecoderLaws.TimestampReads` | src/dsmr3/fields3.cpp:82-116 | 12 or 13 characters are stored as they are; any other group is accepted exactly when it is a DLMS date-time in range |
| `DecoderLaws.TimestampOnly` | src/dsmr3/fields3.cpp:82-116 | whatever is accepted starts with a group |
| `DecoderLaws.SingleLineBound` | src/dsmr3/fields3.h:93-227 | every shape but the two-line one stays within its line and ignores the text after it |
| `DecoderLaws.OutcomeIgnoresOldValue` | src/dsmr3/fields3.h:93-227 | whether a value decodes does not depend on what the field held |
| `DecoderLaws.FirstGroupByLength` | src/dsmr3/fields3.cpp:130-137 | length alone decides that the first group is the time stamp |
| `DecoderLaws.EitherOrder` | src/dsmr3/fields3.cpp:127-151 | both orders give the same pair for every stamp and every number whose text is not 12 or 13 long |
| `DecoderLaws.StampedMeans` | src/dsmr3/fields3.cpp:127-151 | a stamped reading is accepted exactly when a time stamp and a number follow each other in one of the orders |
| `DecoderLaws.ValueNeedsStamp` | src/dsmr3/fields3.cpp:139-147 | a value without a time stamp is refused, after its number has been stored |
| `DecoderLaws.DlmsReads` | src/dsmr3/fields3.cpp:90-115 | every date of 2000 to 2099 encoded in twelve bytes is converted to the DSMR text |
| `DecoderLaws.DateTextRecovers` | src/dsmr3/fields3.cpp:109-114 | the components and the season are recovered from that text of 13 characters |
| `DecoderLaws.TimestampLength` | src/dsmr3/fields3.cpp:82-116 | whatever is accepted in 24 characters gives exactly 13 |
| `DecoderLaws.DoubleLineReads` | src/dsmr3/fields3.cpp:153-191 | a well-formed two-line reading sets the time stamp, stores the digits of its second line in thousandths and ends right after that line |
| `DecoderLaws.OneLineReads` | src/dsmr3/fields3.cpp:177-190 | the same reading on one line is stored as well |
| `DecoderLaws.DoubleLineOnly` | src/dsmr3/fields3.cpp:153-191 | whatever a two-line field accepts has these parts and its own unit, up to the two characters around the id, which are not looked at |
| `FieldLaws.StringFieldStores` | src/dsmr3/fields3.h:93-99 | a string field stores the text of the group exactly when its length is in bounds |
| `FieldLaws.TimestampFieldStores` | src/dsmr3/fields3.h:107-112 | a time stamp field stores 12 or 13 characters as they are |
| `FieldLaws.DlmsFieldStores` | src/dsmr3/fields3.h:107-112 | and a DLMS date-time as its DSMR text |
| `FieldLaws.FixedFieldStores` | src/dsmr3/fields3.cpp:118-125 | a fixed-point field stores the reading of every text that is a number |
| `FieldLaws.FixedFieldRoundTrip` | src/dsmr3/fields3.cpp:118-125 | every value below 2^32 is stored as it is from its printed forms |
| `FieldLaws.FixedFieldExactly` | src/dsmr3/fields3.cpp:118-125 | which whole texts a fixed-point field takes; the others change nothing |
| `FieldLaws.IntFieldStores` | src/dsmr3/fields3.h:181-191 | an integer field stores its digits modulo 2^32 and the size of its type |
| `FieldLaws.IntFieldExactly` | src/dsmr3/fields3.h:181-191 | which whole texts an integer field takes; the others change nothing |
| `FieldLaws.StampedFieldStores` | src/dsmr3/fields3.h:155-163 | a stamped field stores time stamp and printed value from both orders |
| `FieldLaws.AbsentExactly` | src/dsmr3/fields3.h:193-218 | a field takes itself to be absent exactly on its sentinel, and keeps its value then |
| `FieldLaws.OptionalOtherwise` | src/dsmr3/fields3.h:193-218 | other texts are read as by the shape without a sentinel |
| `FieldLaws.RawFieldStores` | src/dsmr3/fields3.h:222-227 | a raw field stores the whole text up to a NUL |
| `FieldLaws.IdentificationStored` | src/dsmr3/parser3.h:431-455 | the first line goes to the raw field whose id is 255 throughout, and no other line changes that |
| `FieldLaws.FixedLineStores` | src/dsmr3/fields3.h:137-146 | a line with a printed id and a printed value is complete for its field and stores the value |
| `FieldLaws.IntLineStores` | src/dsmr3/fields3.h:181-191 | so is a line with an integer |
| `FieldLaws.StrayValueStays` | src/dsmr3/parser3.h:120-133 | a stamped value without its time stamp is a bad line that makes nothing present but stores its number |
| `Fields.ParsedData.constructor` | src/dsmr3/fields3.h:278-287 | every field starts absent |
| `Fields.ParsedData.ParseLineInlined` | src/dsmr3/parser3.h:120-133 | only the first field with the id is touched; a present one is a duplicate; the flag stays set only after success without a sentinel |
| `Fields.ParsedData.ClearPresent` | src/dsmr3/parser3.h:157-162 | clears the flag of the first field with the id |
| `Telegram.ParseLine` | src/dsmr3/parser3.h:488-516 | blank, malformed, unknown, trailing and skipped lines, on data and result |
| `Telegram.ParseData` | src/dsmr3/parser3.h:425-485 | the two loops with two cursors compute the scan from which the laws follow |
| `Telegram.Check` | src/dsmr3/parser3.h:374-411 | framing and checksum verdict of a complete text, with the running CRC |
| `Telegram.Parse` | src/dsmr3/parser3.h:374-416 | a rejected text leaves the data untouched, an accepted one is parsed between its markers |
| `TelegramLaws.SplitAndFold` | src/dsmr3/parser3.h:425-485 | with single-line fields the cursors give the data, the count and the first bad line of splitting at every CR or LF and absorbing the lines |
| `TelegramLaws.BlankLinesDoNotMatter` | src/dsmr3/parser3.h:491-492 | a line end inserted after a line end anywhere in the text changes no field and no count |
| `TelegramLaws.FinalLineEnd` | src/dsmr3/parser3.h:475-482 | once there is a line end, a further one at the end has no effect |
| `TelegramLaws.ErrorsCounted` | src/dsmr3/util.h:138-142 | the count is the number of bad lines modulo 2^16 and the first line is the first bad one until the counter has wrapped |
| `TelegramLaws.FaultsCounted` | src/dsmr3/parser3.h:425-485 | for every list of fields, two-line ones included, the count is the number of positions at which the cursors find a bad line, modulo 2^16, and the reported one is the first of them |
| `TelegramLaws.FaultsAreBadLines` | src/dsmr3/parser3.h:425-485 | with single-line fields the lines at these positions are the lines that are bad one by one |
| `TelegramLaws.BadLineIff` | src/dsmr3/parser3.h:488-516 | exactly which lines are bad, with and without unknown ids as errors |
| `TelegramLaws.OtherFieldsUntouched` | src/dsmr3/parser3.h:120-133 | a line touches no field but the one with its id |
| `TelegramLaws.DuplicateIgnored` | src/dsmr3/parser3.h:121-123 | a line for a present field is bad and changes nothing |
| `TelegramLaws.FirstCompleteLineWins` | src/dsmr3/parser3.h:488-516 | a field ends present exactly when some line is complete for it, with the value of the first such line |
| `TelegramLaws.PairAsOneLine` | src/dsmr3/parser3.h:458-473 | a two-line reading stores the time stamp and the digits of its second line, adds no error, and parsing goes on at the end of that line as if the pair were one |
| `TelegramLaws.PairCutByEnd` | src/dsmr3/parser3.h:475-482 | when the data end inside the second line the value is stored all the same and one bad line is counted |
| `TelegramLaws.SplitWithPairs` | src/dsmr3/parser3.h:425-485 | split and fold for whole telegrams in which two-line readings stand among other lines |
| `Receiver.P1DiagnosticsTracker.Reset` | src/dsmr3/reader3.h:83-89 | mode, counters and votes start again |
| `Receiver.P1DiagnosticsTracker.AddSkippedFields` | src/dsmr3/reader3.h:99-101 | adds modulo 2^32 |
| `Receiver.P1DiagnosticsTracker.RecordCrcError` | src/dsmr3/reader3.h:103-105 | counts modulo 2^32 |
| `Receiver.P1DiagnosticsTracker.ObserveCrc` | src/dsmr3/reader3.h:107-123 | votes until three are in, then locks the majority |
| `Receiver.P1PacketAccumulator.constructor` | src/dsmr3/reader3.h:147-152 | an empty waiting accumulator on the caller's buffer |
| `Receiver.P1PacketAccumulator.Reset` | src/dsmr3/reader3.h:247-255 | everything but the diagnostics starts again and the buffer is an empty string |
| `Receiver.P1PacketAccumulator.ResetDiagnostics` | src/dsmr3/reader3.h:160-163 | the diagnostics start again as well |
| `Receiver.P1PacketAccumulator.RecordCrcError` | src/dsmr3/reader3.h:288-291 | one more error and a reset |
| `Receiver.P1PacketAccumulator.Start` | src/dsmr3/reader3.h:276-286 | reading starts with the CRC of the slash, or 0 in the absent mode |
| `Receiver.P1PacketAccumulator.Process` | src/dsmr3/reader3.h:177-245 | one byte in every state keeps the invariant and makes the step of the state machine |
| `Receiver.StepInv` | src/dsmr3/reader3.h:177-245 | every byte keeps: the buffer fits and holds no '!', the CRC is that of the text so far, a completed CRC is that of the telegram |
| `ReceiverLaws.EveryByteJudged` | src/dsmr3/reader3.h:177-245 | over every run a byte completes, or overflows, exactly when the text since the opening slash says so, and the body is stored verbatim |
| `ReceiverLaws.EveryByteKept` | src/dsmr3/reader3.h:177-255 | over every run a byte without a verdict extends the stored telegram or is passed over, and a refused telegram leaves nothing behind |
| `ReceiverLaws.CompleteText` | src/dsmr3/reader3.h:203-241 | a text of the complete form reaches its verdict on its last character and not before |
| `ReceiverLaws.RunAccounts` | src/dsmr3/reader3.h:99-123 | over every run since the last reset: mode is the majority of the first three completions and all later ones agree, errors and skipped fields add up modulo 2^32, overflows do not count |
| `ReceiverLaws.SkippingCrcIsInvisible` | src/dsmr3/reader3.h:186-187 | not computing the CRC in the absent mode changes no result and no state but a CRC that nothing reads |
| `Agreement.JudgeMeans` | src/dsmr3/parser3.h:374-411 | every text: accepted exactly when it has both markers and a suffix that is empty or denotes the CRC; otherwise which error it gives |
| `Agreement.BatchAndStreamAgree` | src/dsmr3/parser3.h:394-411 | batch parser and receiver accept the same texts except in three cases, named exactly |
| `Agreement.ShortSuffixesAgree` | src/dsmr3/parser3.h:394-411 | they agree for every suffix of at most four characters, all digits when there are four |
| `Agreement.SameFields` | src/dsmr3/reader3.h:410-423 | parsing the accepted text and parsing the receiver's buffer give the same data, count and first bad line |
| `Agreement.WrongCrcRejected` | src/dsmr3/reader3.h:226-238 | four digits that are not the CRC are a mismatch for both |
| `Agreement.BurstErrorRejected` | src/dsmr3/reader3.h:226-238 | so is a body changed by a burst of at most sixteen bits |
| `Agreement.TwoByteChangeRejected` | src/dsmr3/parser3.h:385-411 | so is a body changed in one byte or two adjacent bytes |
| `Agreement.OddChangeRejected` | src/dsmr3/parser3.h:385-411 | so is a body changed in an odd number of bits |
| `Recovery.PrintedTelegramIsAccepted` | src/dsmr3/reader3.h:376-396 | after every run the reprinted telegram is accepted by the batch parser, and a fresh receiver recovers body and CRC presence from it |
| `Recovery.Resynchronises` | src/dsmr3/reader3.h:177-245 | from every state a telegram of either format with a slash-free body leaves the receiver waiting |
| `Recovery.SecondTelegramReceived` | src/dsmr3/reader3.h:177-291 | from every state with a locked mode, the telegram after that one is received with exactly its own body |
| `Recovery.SignedChecksum` | src/dsmr3/parser3.h:349-358 | a text with a signed checksum that the batch parser accepts and the receiver rejects |
| `Recovery.FiveDigits` | src/dsmr3/parser3.h:398-404 | a text with five digits that the receiver completes and the batch parser rejects |
| `Readers.CaptureFieldWarning` | src/dsmr3/reader3.h:59-75 | the count and the text of the reported line up to its end |
| `Readers.P1FixedReader.Disable` | src/dsmr3/reader3.h:325-331 | a partial telegram and pending bytes are dropped, a complete telegram is kept |
| `Readers.P1FixedReader.Loop` | src/dsmr3/reader3.h:337-362 | reads bytes until a telegram completes or the stream is empty |
| `Readers.P1FixedReader.Clear` | src/dsmr3/reader3.h:434-439 | only a complete telegram is cleared |
| `Readers.P1FixedReader.CompleteRaw` | src/dsmr3/reader3.h:376-396 | the telegram with its markers, and its CRC if it came with one |
| `Readers.P1FixedReader.Parse` | src/dsmr3/reader3.h:410-423 | data, warning and skipped fields are those of the lines of the telegram, which is cleared |
| `Readers.P1FixedReader.DoChecksum` | src/dsmr3/reader3.h:314-317 | resets the diagnostics and drops the buffer, whatever its argument |
| `Readers.P1FixedReader.ChangeStream` | src/dsmr3/reader3.h:441-445 | everything starts again on the new stream |
| `Readers.P1Reader.RecordCrcError` | src/dsmr3/reader3.h:775-781 | one more error, and the reader waits with an empty buffer |
| `Readers.P1Reader.TakeByte` | src/dsmr3/reader3.h:659-690 | one byte outside the checksum state |
| `Readers.P1Reader.TakeSuffix` | src/dsmr3/reader3.h:600-640 | the suffix is classified without reading it before four characters are there |
| `Readers.P1Reader.Loop` | src/dsmr3/reader3.h:598-695 | turns of the loop until it returns |
| `ReaderLaws.ReadersAgree` | src/dsmr3/reader3.h:337-695 | however the bytes of a series of telegrams arrive in pieces, both readers deliver the bodies that a receiver of whole telegrams delivers and reach its mode and error count |
| `ReaderLaws.ClientAppend` | src/dsmr3/reader3.h:598-695 | for the string reader it does not matter whether bytes arrive now or later |
| `ReaderLaws.FromBytesToFields` | src/dsmr3/reader3.h:337-423 | bytes to fields: a telegram that arrives is made available, and its fields are present exactly when a line is complete for them |
| `ReaderLaws.FromBytesToNumber` | src/dsmr3/reader3.h:337-423 | bytes to numbers: a printed value on the first complete line of a fixed-point field ends up in the field |
| `ReaderLaws.FixedRestart` | src/dsmr3/reader3.h:319-331 | a partial telegram is gone after disable and enable, and the next one arrives whole |
| `ReaderLaws.StringRestart` | src/dsmr3/reader3.h:528-548 | the same for the string reader |
| `ReaderLaws.KeptUntilSlash` | src/dsmr3/reader3.h:337-362 | a telegram that is not taken stays until another slash arrives |
| `ReaderLaws.LostExample` | src/dsmr3/reader3.h:337-362 | that slash empties the buffer while the telegram is still called available |
| `ReaderLaws.LostExactly` | src/dsmr3/reader3.h:337-362 | for every reader and input, a telegram is lost exactly when the bytes lead into another one and to no verdict |
| `ReaderLaws.LostAtSlash` | src/dsmr3/reader3.h:337-362 | which for a waiting reader means: a slash arrives, and the text from it on is the beginning of a telegram that fits and is not finished |
| `ReaderLaws.FixedLoopSaysAvailable` | src/dsmr3/reader3.h:337-362 | the result of `P1FixedReader::loop` is always what `available` says afterwards |
| `ReaderLaws.LoopJudges` | src/dsmr3/reader3.h:598-695 | for every `P1Reader` and input, what loop leaves: it waits, makes the body before the suffix available, or counts an error and empties the buffer |
| `ReaderLaws.LoopDelivers` | src/dsmr3/reader3.h:598-651 | exactly when a telegram is made available, and exactly when an error is counted, read off the input |
| `ReaderLaws.LoopAgainstAvailable` | src/dsmr3/reader3.h:593-651 | for every `P1Reader` and input, when loop returns true with nothing available, and when false with a telegram available, read off the input |
| `ReaderLaws.TrueWithoutTelegram` | src/dsmr3/reader3.h:593-651 | a true result with nothing available |
| `ReaderLaws.FalseWithTelegram` | src/dsmr3/reader3.h:653-657 | a false result with a telegram available |
| `ReaderLaws.TrueMeansClassified` | src/dsmr3/reader3.h:593-651 | after a true result a telegram is available exactly when no error was counted |
| `ReaderLaws.OnceKeepsTelegram` | src/dsmr3/reader3.h:347-352 | a reader that is enabled for one telegram keeps it and drops all later bytes |
| `ReaderLaws.OnceKeepsTelegramToo` | src/dsmr3/reader3.h:647-651 | so does the string reader |
| `ReaderRuns.ReaderAccounts` | src/dsmr3/reader3.h:307-445 | over every run of arriving bytes and calls since the last reset: mode and CRC errors are those of the accumulator's events, the skipped fields are the sum of the bad lines of all parses modulo 2^32, and each warning holds the count and the text up to a NUL of the first bad line of its parse |
| `ReaderRuns.BadLinesAlone` | src/dsmr3/reader3.h:410-423 | with single-line fields these are the bad lines of the telegram one by one, whatever the buffer holds after it |
| `ReaderRuns.FreshStart` | src/dsmr3/reader3.h:410-445 | after clear or parse of a telegram, clearAll, ChangeStream or doChecksum nothing is available and the next telegram arrives whole |
| `ReaderRuns.EnabledReceives` | src/dsmr3/reader3.h:307-362 | a new reader takes nothing before it is enabled, and the first telegram after that |

## Left out

- Pins, serial ports and `delay`: `Stream` is a queue of bytes with `read`, `peek` and `available`.
- Allocation: `String::reserve` always succeeds, strings are immutable sequences.
- The xmodem, ccitt and ibutton variants in crc16.h, which nothing calls.
- The table of about 80 fields: a sequence of descriptors with ids and shapes stands for any choice of them.
- `FixedValue::val()`, `applyEach`, `all_present` and the name converters, which only read.
- `ParseResult::fullError`: `parse_data` reports no error of its own, so the readers never call it.
- `P1Reader::parse` and `P1Reader::CompleteRaw`, whose bodies repeat those of `P1FixedReader`, and the `ChangeStream`, `clearAll` and `resetDiagnostics` of `P1Reader`, which are not meant to be called inside a telegram.
- Decoder.DecodeDoubleLine: the source scans for a line end beyond the data when the second line is not terminated; here the text ends with the buffer and that end counts as a line end.
- Telegram.ParseData: the result of `parse_data` has no error member here, because the source never sets it.
- TelegramLaws.SplitAndFold: for single-line fields only; with a two-line field a line is not independent of what follows, which `SplitWithPairs` covers for well-formed readings.
- ReaderLaws.ReadersAgree: for telegrams whose suffix is a line end or four digits, readers that stay enabled, clients that take every telegram, and a buffer with room for every body; other suffixes make the two readers consume different numbers of bytes.
- Compatibility with dsmr2Lib, which is not part of this model.
