# Dafny model of the SMS relay

A verification project beside the SMS relay: it models the parts of the relay that carry a message from the
modem's bytes to a reassembled text and on to a client, and proves what holds of them for all inputs, all runs and
all orders of arrival. `dafny verify dfyconfig.toml` checks it with Dafny 4.11.

## What is modelled

Code that loops and updates is modelled by methods with loops and by classes whose methods change their fields; each
is proved against a function on values, and the theorems are about that function. Octet strings are `seq<byte>`; the
text of the AT layer is `string`. Exceptions and reads past the end of a PDU become `Option` or `Result` values. The
modem's replies, the pieces in which a socket delivers, the clock and the interleaving of threads are arbitrary.

| module | models |
|---|---|
| `Bits`, `Decimals`, `Sequences`, `Wrappers` | shifts, positional numbers and other groundwork |
| `Septets` | packing of 7-bit characters (section 6.1.2.1 of 3GPP TS 23.038), as positional numbers in two bases |
| `Utf8`, `Gsm7`, `Gsm7Text`, `Cutting` | UTF-8, UCS-2, the 7-bit alphabet, which texts survive coding and packing, and which slices can be encoded |
| `Ucs2Loss` | what becomes of UCS-2 text that is read as 7-bit text |
| `Address`, `Timestamp`, `Udh` | hexadecimal text, semi-octets, address fields, timestamps, user data headers (3GPP TS 23.040) |
| `Pdu`, `SubmitOctets` | encoding of SUBMIT PDUs with splitting, and their octets written out |
| `PduDecode`, `PduRoundTrip`, `Delivered` | decoding, encoding and decoding together, and decoding of what the network delivers |
| `LineParser` | the two line parsers in series |
| `AtResponse`, `AtNames` | response building and routing, and routing told by the name of a command |
| `AtSession` | the session as a state machine over all interleavings |
| `AtRuns`, `AtWire` | progress, timeouts and answers over its runs; what the modem is sent and what callers are told |
| `Sms`, `Reassembly` | collecting parts as they arrive |
| `Combine`, `Conservation` | combining stored messages, and what the combined list shows |
| `Listing` | whose message a combined one is, and what a client is told of each message |
| `MessageCache`, `DeleteCommutes`, `DeleteRequest` | deleting from cache and storage, one index or a whole request, and when they stay in step |
| `EndToEnd` | from a submitted text to one notification |
| `Ipc`, `IpcServer`, `DeleteAnswer` | records and requests as octets, the receive loop, and what a client is told of a delete request |

## Main results

- Packing: the octets are the septets read as one number, `PackingConservesValue`; unpacking inverts it up to zeros
  dropped under an exact condition, `RoundTripExactly`.
- Text: a text survives 7-bit coding, packing and a header in front if and only if it passes a check character by
  character and loses no zero septet, `PackedTextExactly`. `SinglePdu` and `PartComesBack` are the same for whole PDUs,
  `DeliveredText`, `DeliveredPart` and `DeliveredUcs2Part` for those the network delivers in 7-bit text and in UCS-2.
  `MultipartPdus` says which longer texts are submitted; `PartsInSeptets` and `PartsInUcs2` write out their octets.
- UCS-2: no text of up to 70 octets that is read as 7-bit text comes back, `Ucs2NeverComesBack`: the characters it
  would have to show are forced one by one, and there are more of them than it holds.
- End to end: `TextComesThrough`.
- Session: over every interleaving every promise is set at most once and in order, and at most one command is in
  flight: `AlwaysInv`, `EachPromiseOnceInOrder`. By its own steps, as it can really take them, the session sets every
  promise from any reachable state if and only if no message command with a cancelled timer is in flight,
  `DrainsExactly`; and every schedule of them ends there, `EveryScheduleEnds`. `OwnTimeoutExactly` says when every
  command gets the timeout its caller asked for. The modem is sent exactly the commands asked for, each once and in
  order, `SentInOrder`; each caller is told success exactly for the line OK, `AnswerTold`, with the lines that are its
  own, `DataTold`; and exactly the other lines reach the handlers, `HandedOnByName`.
- From storage to the client: `StoredMessageTold`; and back, what a request to delete is told and does: `DeleteTold`,
  `LeftExactly`.
- Framing: `Receiver.OnRead` for lines and `HandleClient` for requests do not depend on how the bytes are cut.
- Reassembly: the shared cache is nothing but one window per group, `CacheIsWindows`; `ReassembledOnce`;
  `IncrementalIsBatch`.
- Cache: `ConservesExactly`, `DeleteCommutesExactly` and `DeleteRequestExactly` give the exact conditions under which
  each stored message is shown once, and under which deleting, of one index or of a whole request some of which is
  refused, keeps the cache in step with the storage.

## Where the code does less than its documentation says

The model follows the code. Each point has a lemma that gives the exact condition or a concrete case.

- A zero septet (`@`) at position 8k+7 may be lost when text is unpacked (`RoundTripExactly`, `TrailingZeroIsLost`).
- The encoding table and the decoding switch disagree at a few positions (`DisagreementIsExact`), so those characters
  come back as others (`RoundTripExactlyIf`).
- A text of up to 160 octets may need more than 256 septets; it is then cut (`TextBeyondLength`).
- Longer text is cut at octets: if a slice would start inside a character, the whole is refused (`MultipartPdus`,
  `CutCharacterIsRefused`).
- The scheme octet written for UCS-2 is read as 7-bit text, so that no single message that needs UCS-2 is decoded to
  the text submitted (`Ucs2IsReadAsSeptets`, `LetterIsMisread`); characters beyond 16 bits are lost by the UCS-2 codec
  itself (`AstralCharacterIsLost`).
- The header of a part in UCS-2 is written without its length octet, so that no part of a longer text that needs UCS-2
  is recognised as one, and the text is never joined (`Ucs2PartStandsAlone`).
- Octets delivered behind a header are shown with the header in front of them (`DeliveredOctetsPart`).
- A time zone is read in base 16 though it is written in base 10, and one of five hours or more to the west makes
  decoding fail (`ZoneShownExactly`, `DeliveredText`).
- An address of which a character cannot be encoded does not come back (`NumberBackExactly`).
- An address whose length does not fit its octet, or with nothing to encode, misplaces the cursor (`CursorExactly`,
  `EmptyFieldMisplacesTheCursor`).
- Of 256 parts and more, the total and the positions are cut to 8 bits (`TotalToldExactly`).
- A query with a plus sign is never completed by its OK (`PlusQueryNeverCompletes`).
- An extended error such as +CMS ERROR completes no command (`PlusLinesNeverComplete`).
- Sending a message only sends its command: the PDU is never written to the modem (`SentInOrder`).
- A message command whose prompt does not come, but another line does, loses its timer, and blocks itself and all
  commands behind it until a line or an error ends it (`NoPromptNoAnswer`, `MessageGetsBlocked`, `DrainsExactly`).
- A command may run with the timeout of another caller, exactly if not all callers ask for the same one
  (`OwnTimeoutExactly`, `OtherCallersTimeout`).
- A single message under the key of an incomplete group is listed twice (`BatchShows`).
- Deleting a part of a complete group other than its first leaves the cache out of step (`DeleteCommutesExactly`), and
  so does a request of whose entries for several messages the modem deletes some but not all (`DeleteRequestExactly`).

## Model

| member | source | states |
|---|---|---|
| `Septets.SeptetsPack` | src/common/pdu/pdu.cpp:471-507 | The shift-register loop writes exactly the octets of one integer: the septets read base 128, least significant first, moved up by the fill bits. |
| `Septets.PackingConservesValue` | src/common/pdu/pdu.cpp:471-507 | For every septet string and padding 0..6: the octets read base 256 are worth 2^fill times the septets read base 128, fill being (7-pad) mod 7, and there are ceil((7n+fill)/8) of them. |
| `Septets.SeptetsUnpack` | src/common/pdu/pdu.cpp:509-559 | The loop yields the base-128 digits of the octets it may read, less the zero digits that meet the dropping condition. |
| `Septets.SeptetSpanning` | src/common/pdu/pdu.cpp:542-545 | The septet computed from an octet and its predecessor is the digit of the whole octet string at that place. |
| `Septets.UnpackAfterPack` | src/common/pdu/pdu.cpp:471-559 | Text packed behind a header of any length and unpacked from the start of the header comes back as the header's septets followed by the text, less the dropped zeros. |
| `Septets.UnpackInvertsPack` | src/common/pdu/pdu.cpp:471-559 | Unpacking what was packed gives the septets back less exactly the dropped zeros. |
| `Septets.RoundTripExactly` | src/common/pdu/pdu.cpp:509-559 | The round trip is the identity if and only if no septet at 8k+7 is 0 while ending the string or following a septet below 64. |
| `Septets.TrailingZeroIsLost` | src/common/pdu/pdu.cpp:551-556 | Concrete loss: eight zero septets come back as seven. |
| `Utf8.Ucs2Encode` | src/common/pdu/pdu.cpp:565-579 | The loop writes two octets, high one first, for each code point read. |
| `Utf8.Ucs2Decode` | src/common/pdu/pdu.cpp:581-614 | The loop writes the UTF-8 octets of each pair. |
| `Utf8.ReadBack` | src/common/pdu/pdu.cpp:336-367 | A text that starts with the UTF-8 octets of a 16-bit code point is read as that code point and that many octets. |
| `Utf8.EncodeInvertsDecode` | src/common/pdu/pdu.cpp:565-614 | Encoding undoes decoding for every even-length octet string. |
| `Utf8.DecodeInvertsEncodeExactly` | src/common/pdu/pdu.cpp:336-367 | Decoding undoes encoding if and only if the text is shortest-form UTF-8 of code points below 0x10000. |
| `Utf8.ShortestFormIsUtf8` | src/common/pdu/pdu.cpp:590-610 | The texts that pass that check include the UTF-8 text of every sequence of 16-bit code points. |
| `Utf8.AstralCharacterIsLost` | src/common/pdu/pdu.cpp:565-579 | Concrete loss: U+1F600 does not come back. |
| `Gsm7.FindPosition` | src/common/pdu/pdu.cpp:373-385 | The search returns the first table position that holds the code point, if any. |
| `Gsm7.PositionIsExact` | src/common/pdu/pdu.cpp:50-189 | No code point stands twice in the table: a position is found for a code point if and only if the table holds it there. |
| `Gsm7.DisagreementIsExact` | src/common/pdu/pdu.cpp:204-284 | The decoding switch shows another character than the encoding table holds at exactly the listed positions. |
| `Gsm7.ExtensionInverts` | src/common/pdu/pdu.cpp:192-202 | Each of the nine extension characters is shown for the code it is encoded as. |
| `Gsm7.ExtensionExactly` | src/common/pdu/pdu.cpp:192-202 | Exactly the nine extension characters have a code behind an escape. |
| `Gsm7.ExtensionIsExact` | src/common/pdu/pdu.cpp:192-202 | Whatever is shown for a code behind an escape is encoded as that code. |
| `Gsm7.Gsm7Encode` | src/common/pdu/pdu.cpp:387-428 | The loop yields the septets of each character in turn, and fails exactly where a character has none and discarding is off. |
| `Gsm7.Gsm7Decode` | src/common/pdu/pdu.cpp:430-465 | The loop shows each septet or escaped pair in turn, an escape at the end as itself. |
| `Gsm7Text.RoundTripExactlyIf` | src/common/pdu/pdu.cpp:387-465 | Decoding undoes encoding if and only if the text is shortest-form UTF-8 of agreeing characters, a bare escape being allowed at the very end only. |
| `Gsm7Text.DecodeShrinks` | src/common/pdu/pdu.cpp:430-465 | Septets of any subset of characters, even with an escape swallowing its neighbour, never show more octets than the characters had. |
| `Gsm7Text.PackedTextExactly` | src/common/pdu/pdu.cpp:387-559 | Encoding, packing, unpacking and decoding together are the identity if and only if the character check passes and no septet is dropped. |
| `Gsm7Text.DiscardedIsLost` | src/common/pdu/pdu.cpp:387-428 | A text of which the discarding mode drops a character does not come back from packing. |
| `Cutting.FrontEncodesExactly` | src/common/pdu/pdu.cpp:336-428 | The front of a text that can be encoded can itself be encoded if and only if it ends between two characters, since an incomplete character is read as code point 0. |
| `Ucs2Loss.Ucs2NeverComesBack` | src/common/pdu/pdu.cpp:430-579 | No text of 1 to 70 octets comes back when its UCS-2 octets are unpacked and decoded as 7-bit text. |
| `Ucs2Loss.LetterIsMisread` | src/common/pdu/pdu.cpp:430-579 | Concrete loss: the Cyrillic letter U+044F needs UCS-2, and is read as U+00E8 and U+00DF. |
| `Address.BytesToHex` | src/common/pdu/pdu.cpp:320-330 | The loop writes two hexadecimal digits for each octet. |
| `Address.HexToBytes` | src/common/pdu/pdu.cpp:290-318 | The loop reads digit pairs, a lone digit at the end being ignored and other characters counting as 0. |
| `Address.HexInverts` | src/common/pdu/pdu.cpp:290-330 | Reading the hexadecimal text of any octets gives the octets. |
| `Address.HexAt` | src/common/pdu/pdu.cpp:320-330 | Each octet is written as two of the characters 0 to 9 and A to F, its high half first. |
| `Address.HexValueExactly` | src/common/pdu/pdu.cpp:290-318 | What each hexadecimal digit counts, in both cases; any other character counts 0. |
| `Address.SemiOctetsEncode` | src/common/pdu/pdu.cpp:620-656 | The loop writes the digit pairs of the number, padded with F to an even length. |
| `Address.SemiOctetAt` | src/common/pdu/pdu.cpp:620-656 | Octet k is digit 2k in its low half and digit 2k+1 in its high half. |
| `Address.SemiOctetsDecode` | src/common/pdu/pdu.cpp:658-679 | The loop shows the halves of each octet, stopping at a filler. |
| `Address.SemiOctetsExactly` | src/common/pdu/pdu.cpp:620-679 | A number comes back from semi-octets if and only if it consists of digits. |
| `Address.BuildAddressField` | src/common/pdu/pdu.cpp:693-742 | Classification, type octet, encoding and length octet in both length conventions, the length cut to 8 bits. |
| `Address.ParseAddressField` | src/common/pdu/pdu.cpp:744-789 | The number read and the cursor behind it, for every octet string and start; reads past the end are told apart. |
| `Address.FieldRoundTrip` | src/common/pdu/pdu.cpp:693-789 | Wherever it stands in a PDU, a built field whose length fits its octet is read to its end and no further, in both length conventions. |
| `Address.CursorExactly` | src/common/pdu/pdu.cpp:744-789 | The cursor ends behind a built field if and only if something was encoded and its length fits the length octet. |
| `Address.NumberBackExactly` | src/common/pdu/pdu.cpp:693-789 | For every non-empty address: the number read back is the one written if and only if it is made of digits behind an optional plus, or it is other text all of whose characters can be encoded, that passes the character check and loses no zero septet. |
| `Address.EmptyFieldMisplacesTheCursor` | src/common/pdu/pdu.cpp:749-752 | An alphanumeric address with no encodable character writes two octets of which one is read. |
| `Address.FieldRead` | src/common/pdu/pdu.cpp:744-789 | Wherever it stands in a PDU, a field of any type is read to its end and no further. |
| `Address.DigitsRead` | src/common/pdu/pdu.cpp:769-788 | For each of the type octets that do not mean text: digits come back, behind a plus sign exactly if the type is international. |
| `Address.TextRead` | src/common/pdu/pdu.cpp:757-767 | For each type octet that means text, and each length octet that spans its octets: text comes back if and only if it passes the character check and loses no zero septet. |
| `SubmitOctets.AddressIs` | src/common/pdu/pdu.cpp:693-742 | The field of any address, octet by octet: 0x91 behind a plus, 0xA1 for digits, 0xD1 for text; and what its length counts in either place. |
| `Timestamp.ParseTimestamp` | src/common/pdu/pdu.cpp:795-830 | The text that seven octets stand for, cut short by a filler or laid out with its zone, or failure where the zone is no number. |
| `Timestamp.ZoneShownExactly` | src/common/pdu/pdu.cpp:813-825 | Of any time with any zone as a service centre writes it: it is shown with its own zone if and only if that is less than ten quarters of an hour away, and refused if and only if it lies five hours or more to the west. |
| `Timestamp.RightIs` | src/common/pdu/pdu.cpp:803-825 | The time as it should be shown, digit by digit and separator by separator, with the minutes of the zone behind a sign. |
| `Decimals.DecimalValue` | src/common/pdu/pdu.cpp:817-825 | Decimal digits stand for the number they were made of. |
| `Udh.ParseUdh` | src/common/pdu/pdu.cpp:856-891 | The walk over information elements, with its cursor and the fields it reports, for every octet string. |
| `Udh.WalkReportsLastConcat` | src/common/pdu/pdu.cpp:856-891 | Over any list of elements the cursor moves by exactly the header's octets, and the fields reported are those of the last concatenation element, 8-bit or 16-bit, or zeros. |
| `Pdu.EncodeUserData` | src/common/pdu/pdu.cpp:930-1004 | Length octet, header and text in all four combinations of alphabet and header. |
| `Pdu.EncodeSubmitPdu` | src/common/pdu/pdu.cpp:897-1007 | The whole SUBMIT PDU, or failure where a character cannot be encoded. |
| `Pdu.EncodeParts` | src/common/pdu/pdu.cpp:1050-1069 | One hexadecimal PDU for each slice of 153 or 67 octets, numbered from 1, or failure of the whole. |
| `Pdu.EncodeSubmit` | src/common/pdu/pdu.cpp:1017-1075 | The choice of alphabet and of splitting, and the error cases. |
| `SubmitOctets.AloneInSeptets` | src/common/pdu/pdu.cpp:897-1007 | The one PDU of a short 7-bit text, octet by octet. |
| `SubmitOctets.AloneInUcs2` | src/common/pdu/pdu.cpp:897-1007 | The one PDU of a short text that needs UCS-2, octet by octet. |
| `SubmitOctets.PartsInSeptets` | src/common/pdu/pdu.cpp:1050-1069 | Each PDU of a longer 7-bit text, octet by octet, with reference, total and position in its header and its 153 octets of text. |
| `SubmitOctets.PartsInUcs2` | src/common/pdu/pdu.cpp:1050-1069 | A longer text that needs UCS-2 is never refused: one PDU for every 67 octets begun, octet by octet, the header without its length octet. |
| `SubmitOctets.Ucs2PartStandsAlone` | src/common/pdu/pdu.cpp:1113-1140 | Each of those PDUs decodes to a message with a header but without reference, total and position, and to what the septets of header and text show, all but the first two. |
| `PduDecode.ParseUserData` | src/common/pdu/pdu.cpp:1110-1170 | The text, with or without a header, in the three alphabets the parser tells apart. |
| `PduDecode.DecodeBytes` | src/common/pdu/pdu.cpp:1083-1268 | Decoding of DELIVER, SUBMIT and STATUS-REPORT PDUs and its failures. |
| `PduDecode.Decode` | src/common/pdu/pdu.cpp:1077-1081 | The same from hexadecimal text. |
| `PduRoundTrip.FramedDecodes` | src/common/pdu/pdu.cpp:1172-1190 | Around any user data: number, SMSC and reference come back as their fields give them back, and the user data are read from exactly where they start. |
| `PduRoundTrip.SinglePdu` | src/common/pdu/pdu.cpp:897-1081 | Single-part round trip of encodable text of up to 160 octets: all fields come back, and the text if and only if it has at most 256 septets, passes the character check and loses no zero septet. |
| `PduRoundTrip.NumericComesBack` | src/common/pdu/pdu.cpp:693-789 | Numbers and SMSCs of 1 to 255 digits, with or without a plus, fit their fields and come back as they are. |
| `PduRoundTrip.NumericSinglePdu` | src/common/pdu/pdu.cpp:897-1081 | For a numeric number, a numeric or no SMSC, and surviving text without @ of at most 160 octets and 256 septets, decoding gives back exactly what was submitted. |
| `PduRoundTrip.TextBeyondLength` | src/common/pdu/pdu.cpp:933-1004 | A text of more than 256 septets is cut by its length octet and never comes back. |
| `PduRoundTrip.Ucs2IsReadAsSeptets` | src/common/pdu/pdu.cpp:835-842 | Every text of up to 70 octets that needs UCS-2 is decoded as 7-bit text, since the scheme octet written is read differently, and to another text than was submitted. |
| `PduRoundTrip.MultipartPdus` | src/common/pdu/pdu.cpp:1050-1069 | Longer 7-bit text is submitted, as one PDU for every 153 octets begun, if and only if every multiple of 153 within it is the start of a character; otherwise the whole is refused. |
| `PduRoundTrip.CutCharacterIsRefused` | src/common/pdu/pdu.cpp:1050-1069 | Concrete refusals: 152 plain characters, an accented letter of two octets, and seven plain characters or more. |
| `PduRoundTrip.PartComesBack` | src/common/pdu/pdu.cpp:1050-1081 | Each part decodes to its position, total and reference, and to its slice if and only if the slice, its header in front, stays within 256 septets, passes the character check and loses no zero septet. |
| `PduRoundTrip.TotalToldExactly` | src/common/pdu/pdu.cpp:1054-1066 | The parts tell their number if and only if the text has at most 39015 octets, that is 255 parts. |
| `PduRoundTrip.LettersArePlain` | src/common/pdu/pdu.cpp:50-189 | Letters, digits, space and full stop are among the characters that plain text may hold. |
| `PduRoundTrip.PlainPartComesBack` | src/common/pdu/pdu.cpp:1050-1081 | Plain text of 161 to 39015 octets becomes ceil(len/153) PDUs of at most 160 septets, each decoding to its own slice, reference, position and total. |
| `Delivered.DeliveryDecodes` | src/common/pdu/pdu.cpp:1092-1120 | A delivered message with any user data is refused exactly if its timestamp is; otherwise SMSC, sender and timestamp come back as their fields, of any type of address, give them back, and the user data are read from exactly where they start. |
| `Delivered.DeliveredText` | src/common/pdu/pdu.cpp:1092-1170 | A delivered 7-bit message in one part: refused exactly from five hours west on; its time right exactly below ten quarters; its text right exactly if it has at most 256 septets, passes the character check and loses no zero septet; all other fields as written. |
| `Delivered.DeliveredPart` | src/common/pdu/pdu.cpp:1113-1140 | The same for one part of several, with its reference, total and position, and its text under the condition with the header counted in. |
| `Delivered.DeliveredTextBehind` | src/common/pdu/pdu.cpp:1113-1140 | 7-bit text behind a header of any elements, within 256 septets of which none is dropped, comes back if and only if it passes the character check; the last concatenation element is reported. |
| `Delivered.DeliveredWidePart` | src/common/pdu/pdu.cpp:1113-1140 | The same for one part of several with a 16-bit reference, octet by octet. |
| `Delivered.SchemeExactly` | src/common/pdu/pdu.cpp:835-842 | Which scheme octets mean 7-bit text and which UCS-2, for all 256 of them. |
| `Delivered.DeliveredUcs2` | src/common/pdu/pdu.cpp:1155-1163 | A delivered UCS-2 message, for any length octet: its text is the one written if and only if that is shortest-form UTF-8 below 0x10000; all other fields as for 7-bit text. |
| `Delivered.DeliveredUcs2Part` | src/common/pdu/pdu.cpp:1141-1146 | The same behind a header of any elements: none of its octets shows, and its last concatenation element is reported. |
| `Delivered.DeliveredUcs2Concat` | src/common/pdu/pdu.cpp:1141-1146 | The same for one part of several, octet by octet. |
| `Delivered.DeliveredOctets` | src/common/pdu/pdu.cpp:1164-1168 | Delivered octets are shown as they are. |
| `Delivered.DeliveredOctetsPart` | src/common/pdu/pdu.cpp:1147-1151 | Behind a header, the header and its length octet are shown in front of them. |
| `Delivered.SubmitWithValidity` | src/common/pdu/pdu.cpp:1172-1190 | A SUBMIT PDU with an absent, relative, absolute or enhanced validity period: its fields, and user data from exactly where they start. |
| `Delivered.ReportDecodes` | src/common/pdu/pdu.cpp:1252-1260 | A status report: number, reference, status and first time as written; refused exactly if either time is. |
| `LineParser.SplitIsTheOnlyCut` | src/sms_relay/transport/line_parser.h:81-100 | Cutting at leftmost CRLFs is the only way to write a text as CRLF-free pieces joined by CRLF and a CRLF-free leftover. |
| `LineParser.SplitCuts` | src/sms_relay/transport/line_parser.h:81-100 | The pieces and the leftover join to the text, and none holds a CRLF. |
| `LineParser.SplitResumes` | src/sms_relay/transport/line_parser.h:29-35 | Cutting a text in two feeds gives the pieces and the leftover of the whole. |
| `LineParser.ChunksDoNotMatter` | src/sms_relay/transport/line_parser.h:29-35 | For every cutting of a stream into chunks, pieces and leftover are those of the stream. |
| `LineParser.LineParser.Feed` | src/sms_relay/transport/line_parser.h:29-35 | After any feeds, the buffer and all lines handed on are functions of the concatenation of what was fed. |
| `LineParser.LineParser.ExtractLines` | src/sms_relay/transport/line_parser.h:81-100 | The loop hands on the pieces of the buffer, each without one trailing CR, and keeps the leftover. |
| `LineParser.ReframedLine` | src/sms_relay/transport/serial_transport.cpp:16-24 | A line framed again passes the second parser at once and leaves nothing in its buffer. |
| `LineParser.TwiceStripped` | src/sms_relay/transport/line_parser.h:89-93 | Two parsers in series take at most two trailing CRs off a piece, and fewer only if no more are there. |
| `LineParser.Receiver.OnRead` | src/sms_relay/transport/serial_transport.cpp:203-206 | However reads are cut, the session has been handed the twice stripped pieces of all bytes read, and its own buffer is empty. |
| `AtResponse.ResponseBuilder.StartCommand` | src/sms_relay/at/response_builder.cpp:5-16 | The state after a command is started. |
| `AtResponse.ResponseBuilder.AddLine` | src/sms_relay/at/response_builder.cpp:18-63 | The state after a line, in each phase, and whether the response became complete by it. |
| `AtResponse.ResponseBuilder.GetResponse` | src/sms_relay/at/response_builder.cpp:65-113 | The response that the collected lines stand for. |
| `AtResponse.Dispatcher.Dispatch` | src/sms_relay/at/dispatcher.cpp:5-44 | A line changes either the builder or what the URC dispatcher was handed, never both; which handler it leads to, if any; and whether it was of any use. |
| `AtResponse.UrcDispatcher.Dispatch` | src/sms_relay/transport/urc_dispatcher.h:48-82 | The search of the handler table calls the first handler whose prefix the line starts with, with what stands behind the first colon. |
| `AtResponse.HandledExactly` | src/sms_relay/transport/urc_dispatcher.h:57-80 | A line is handled if and only if it starts with a registered prefix, and by that prefix's handler if there is only one, however the table is ordered. |
| `AtResponse.ArgsComeThrough` | src/sms_relay/transport/urc_dispatcher.h:61-75 | The handler of a notification is given the arguments behind the colon and space unchanged. |
| `AtResponse.Dispatcher.CouldBeResponseToCurrent` | src/sms_relay/at/dispatcher.cpp:69-115 | Which lines a command takes as its own. |
| `AtResponse.UpToEnd` | src/sms_relay/at/dispatcher.cpp:140-147 | The longest start of a command that holds no equals sign, space, question mark or asterisk. |
| `AtNames.PlusName` | src/sms_relay/at/dispatcher.cpp:117-148 | The prefix of a command, whatever stands before its first plus sign, is its name from there to the first equals sign, space, question mark or asterisk. |
| `AtNames.PlainName` | src/sms_relay/at/dispatcher.cpp:117-148 | Without a plus sign, it is what stands behind AT. |
| `AtResponse.Routing` | src/sms_relay/at/dispatcher.cpp:5-115 | Any line sequence completes an ordinary command at its first OK or ERROR line, with success exactly for OK, the earlier data lines as data, and all other earlier lines with the URC dispatcher in order. |
| `AtNames.RoutingByName` | src/sms_relay/at/dispatcher.cpp:69-115 | The same for a command given by name: it is told the lines that do not start with a plus sign or start with its name, and exactly the others reach the URC dispatcher. |
| `AtNames.AnnouncedWhileListing` | src/sms_relay/at/dispatcher.cpp:98-111 | Concretely: a +CMTI line between the results of AT+CMGL=4 reaches the URC dispatcher and is no part of the response. |
| `AtResponse.NoFinalNoResponse` | src/sms_relay/at/response_builder.cpp:32-57 | Without a final line the response stays incomplete, with lines shared out in the same way. |
| `AtResponse.PlusLinesNeverComplete` | src/sms_relay/at/response_builder.cpp:32-45 | Lines that start with a plus, extended errors among them, complete no command. |
| `AtResponse.QueryCompletesExactly` | src/sms_relay/at/dispatcher.cpp:79-96 | A command with a question mark is completed if and only if a final line starts with its prefix. |
| `AtResponse.PlusQueryNeverCompletes` | src/sms_relay/at/dispatcher.cpp:79-96 | So a query such as AT+CREG? is never completed by any line sequence. |
| `AtResponse.PromptRouting` | src/sms_relay/at/dispatcher.cpp:12-19 | Sending a message: lines before the prompt vanish, and from the prompt to the first final line all lines are data, unsolicited ones included. |
| `AtSession.CommandQueue.Enqueue` | src/sms_relay/at/command_queue.cpp:5-21 | A fresh promise is created and its command goes to the end of the queue. |
| `AtSession.CommandQueue.Dequeue` | src/sms_relay/at/command_queue.cpp:23-34 | The front of the queue is taken, or nothing. |
| `AtSession.AtSession.SendCommand` | src/sms_relay/at/at_session.cpp:51-68 | One enqueue step of the state machine, on the caller's thread. |
| `AtSession.AtSession.PostWakeUp` | src/sms_relay/at/at_session.cpp:58-65 | The step in which a caller posts its wake-up, possibly long after it enqueued. |
| `AtSession.AtSession.RunWakeUp` | src/sms_relay/at/at_session.cpp:58-65 | A posted wake-up as a step of the state machine. |
| `AtSession.AtSession.ProcessNextCommand` | src/sms_relay/at/at_session.cpp:75-114 | Nothing while a command is in flight or none is queued; else the front of the queue is started, timed and written. |
| `AtSession.AtSession.OnLineReceived` | src/sms_relay/at/at_session.cpp:116-167 | A line as a step of the state machine. |
| `AtSession.AtSession.OnTimeout` | src/sms_relay/at/at_session.cpp:169-197 | A timeout, aborted or stale ones included, as a step of the state machine. |
| `AtSession.AtSession.ExpireTimer` | src/sms_relay/at/at_session.cpp:104-107 | An armed timer expires, and its handler is queued. |
| `AtSession.AtSession.OnTransportError` | src/sms_relay/at/at_session.cpp:340-361 | A transport error as a step of the state machine. |
| `AtSession.StepKeeps` | src/sms_relay/at/at_session.cpp:51-197 | Each step from any state that meets the invariants leads to one that does. |
| `AtSession.AlwaysInv` | src/sms_relay/at/at_session.cpp:51-197 | After every interleaving of events: promises set, in flight and queued are those created, in order; in-progress flag, current command and builder agree; an idle session with queued commands has a wake-up pending, and a command in flight has its timer armed or the handler of an expired one queued, unless it is one that sends a message. |
| `AtSession.EachPromiseOnceInOrder` | src/sms_relay/at/at_session.cpp:116-197 | After every run the promises set are the first ones created, each once and in order; at most the next one is in flight and all others are queued. |
| `AtSession.AnswersStand` | src/sms_relay/at/at_session.cpp:141-150 | Later steps never take back or replace an answer. |
| `AtSession.PromptDisarmsExactly` | src/sms_relay/at/at_session.cpp:155-166 | While a prompt is awaited, a non-empty line leaves the timer armed if and only if it is the prompt and the timer was armed. |
| `AtSession.NoPromptNoAnswer` | src/sms_relay/at/at_session.cpp:155-166 | Until the prompt comes, a message command stays in flight whatever lines come, with its timer cancelled as soon as one of them is not empty. |
| `AtRuns.DrainsExactly` | src/sms_relay/at/at_session.cpp:51-197 | From any state that keeps the invariants there is a schedule of posts, wake-ups, expiries of armed timers and handlers of expired ones that sets every promise if and only if no command is in flight that has neither an armed timer nor the handler of an expired one to end it; only a command that sends a message can be such. |
| `AtRuns.EveryScheduleEnds` | src/sms_relay/at/at_session.cpp:51-197 | Every sequence of steps the session can take by itself is bounded, and when no further step is possible, all promises are set unless such a blocked command was in flight at the start. |
| `AtRuns.MessageGetsBlocked` | src/sms_relay/at/at_session.cpp:155-163 | Concretely: a message command that hears another line than the prompt is blocked. |
| `AtRuns.OwnTimeoutExactly` | src/sms_relay/at/at_session.cpp:51-99 | Every possible run gives each command the timeout its own caller asked for if and only if all callers ask for the same one. |
| `AtRuns.OtherCallersTimeout` | src/sms_relay/at/at_session.cpp:58-99 | Concretely: of two callers the second posts first, and the first command is started with the second one's timeout. |
| `AtRuns.AnswerInFlight` | src/sms_relay/at/at_session.cpp:116-154 | A command in flight is answered by its first final line with the data lines read since it was started, whatever unsolicited lines, new commands, wake-ups and aborted or expiring timers come between. |
| `AtRuns.AlwaysHeard` | src/sms_relay/at/at_session.cpp:116-154 | In every run the builder of the command in flight is that of a fresh start that has seen the lines read since, and no other. |
| `AtRuns.EveryAnswer` | src/sms_relay/at/at_session.cpp:116-197 | Every answer of every run goes to the command in flight, and is the response made of the lines read since it was started, a timeout or a transport error. |
| `AtWire.SentInOrder` | src/sms_relay/at/at_session.cpp:75-114 | After every run the modem has been sent, in order and each once, the texts of the commands asked for up to the one in flight, each followed by a carriage return, and nothing else. |
| `AtWire.AnswerTold` | src/sms_relay/at/at_session.cpp:116-197 | Every answer of every run: success exactly if the event is the line OK; a line that starts with ERROR, a transport error and a timeout are told as such, written out. |
| `AtWire.TimeoutWasAsked` | src/sms_relay/at/at_session.cpp:51-99 | In every possible run a command in flight has a timeout that some caller asked for. |
| `AtWire.DataTold` | src/sms_relay/at/at_session.cpp:116-154 | In every run an ordinary named command is told exactly those lines read since it was sent that do not start with a plus sign or start with its name. |
| `AtWire.HandedOn` | src/sms_relay/at/at_session.cpp:116-133 | In every run nothing but a line is taken as unsolicited, and every line that is not empty is while no command is in flight. |
| `AtWire.HandedOnByName` | src/sms_relay/at/dispatcher.cpp:69-115 | In every run, while an ordinary named command is in flight, exactly the lines with a plus sign and another name are taken as unsolicited. |
| `Sms.CacheKeyInjective` | src/sms_relay/sms/sms_service.cpp:280-285 | Two groups have the same key only if sender and reference are the same, underscores in senders notwithstanding. |
| `Reassembly.Combine` | src/sms_relay/sms/sms_service.h:71-79 | The loop joins the texts in the order of their sequence numbers. |
| `Reassembly.MultipartCache.HandleMultipart` | src/sms_relay/sms/sms_service.cpp:235-278 | The new cache and the notification, and a history by which the cache is always the result of all events so far. |
| `Reassembly.MultipartCache.CleanupCache` | src/sms_relay/sms/sms_service.cpp:287-307 | Exactly the entries older than two minutes go. |
| `Reassembly.MultipartCache.HandleCmti` | src/sms_relay/sms/sms_service.cpp:103-145 | Cleanup first; then parts are collected, other messages are notified at once, and failed reads change nothing more. |
| `Reassembly.CacheIsWindows` | src/sms_relay/sms/sms_service.cpp:235-307 | After every run the shared cache is nothing but one window for each group: what arrived of it since it was last notified or expired. |
| `Reassembly.NoteIsOfWindow` | src/sms_relay/sms/sms_service.cpp:254-277 | A notification is given exactly when the window is full, and is made of the latest text for each number in that window only. |
| `Reassembly.NoteIsOfLast` | src/sms_relay/sms/sms_service.cpp:259-276 | A notification is the message that completed its group, all parts' text in place of its own: its index, storage and decoded fields. |
| `Reassembly.WindowExpires` | src/sms_relay/sms/sms_service.h:62-66 | A cleanup drops exactly what began to arrive more than 120 seconds before. |
| `Reassembly.AlwaysBounded` | src/sms_relay/sms/sms_service.h:54-57 | Over every run each entry holds at least one part and fewer than announced. |
| `Reassembly.CountingSuffices` | src/sms_relay/sms/sms_service.h:54-57 | With numbers from 1 to the total, counting the parts tells whether all are there. |
| `Reassembly.WholeText` | src/sms_relay/sms/sms_service.h:71-79 | The joined text is text_1 ++ ... ++ text_total. |
| `Reassembly.ReassembledOnce` | src/sms_relay/sms/sms_service.cpp:235-278 | For every arrival order, with anything of other groups in between and no late cleanup: nothing is notified before the last missing part, then one message with the whole text. |
| `Combine.CombineMultipartMessages` | src/sms_relay/sms/sms_service.cpp:480-561 | The two passes over the map yield the single messages in order and then, by ascending key, the combined message of a complete group or whatever has the key of an incomplete one. |
| `Combine.GetAllIndices` | src/sms_relay/sms/sms_service.h:84-93 | The indices of all parts, sorted. |
| `Combine.FindStatus` | src/sms_relay/sms/sms_service.cpp:534-541 | The status of the first message with the index. |
| `Combine.InsertedAscending` | src/sms_relay/sms/sms_service.cpp:483-505 | The map's keys stay in strictly ascending octet order. |
| `Conservation.EntryOfGroup` | src/sms_relay/sms/sms_service.h:84-93 | For parts with different numbers, the entry counts them all and holds exactly their indices. |
| `Conservation.SortedOrders` | src/sms_relay/sms/sms_service.h:91-92 | The original indices are in ascending order. |
| `Conservation.BatchShows` | src/sms_relay/sms/sms_service.cpp:480-561 | As multisets, the indices shown are those stored plus those of single messages under the key of an incomplete group. |
| `Conservation.ConservesExactly` | src/sms_relay/sms/sms_service.cpp:480-561 | Each stored index is shown exactly once, alone or among original indices, if and only if no single message has the key of an incomplete group. |
| `Listing.CombinedShown` | src/sms_relay/sms/sms_service.cpp:514-543 | A complete group is shown as one message with the number of all its parts, the time and index of the first, the status of the first stored message with that index, and no mark of a part. |
| `Listing.GroupsAre` | src/sms_relay/sms/sms_service.cpp:485-510 | Which stored messages form a group, and which stand alone: a part has a header with concatenation and a total above one, and is grouped by its sender and reference. |
| `Listing.ShownAsItIs` | src/sms_relay/sms/sms_service.cpp:507-557 | A stored message is itself shown if and only if it stands alone or its group misses a part. |
| `MessageCache.MessageCache.RefreshCache` | src/sms_relay/sms/sms_service.cpp:386-416 | The cache becomes the combined list of the storage, or stays as it is if the listing fails. |
| `MessageCache.MessageCache.DeleteMessage` | src/sms_relay/sms/sms_service.cpp:325-382 | The modem is asked to delete all original indices of the cached message, or the index alone; the error names the last one refused, and there is none exactly if none was. |
| `MessageCache.EachIndexAnswered` | src/sms_relay/ipc/ipc_server.cpp:624-644 | As multisets, the indices reported as deleted and as failed are together those of the request. |
| `MessageCache.MessageCache.RemoveFromCache` | src/sms_relay/sms/sms_service.cpp:587-601 | Every entry with the index goes, and nothing else. |
| `MessageCache.MessageCache.HandleDelete` | src/sms_relay/ipc/ipc_server.cpp:624-644 | The loop deletes index by index; an entry is forgotten only if all its deletions succeeded; each index is reported as deleted or failed accordingly. |
| `DeleteCommutes.GoneExactly` | src/sms_relay/sms/sms_service.cpp:335-351 | What is asked of the modem for an index is the message with it, and all parts of the complete group that starts at it. |
| `DeleteCommutes.HiddenExactly` | src/sms_relay/sms/sms_service.cpp:514-543 | A stored index without a cache entry is a part of a complete group other than its first. |
| `DeleteCommutes.DeleteCommutesExactly` | src/sms_relay/sms/sms_service.cpp:325-372 | Deleting one index leaves the cache equal, as a sequence, to the combined list of the storage left if and only if the index names a cache entry or an empty slot. |
| `DeleteCommutes.StaysWellFormed` | src/sms_relay/sms/sms_service.cpp:355-372 | The storage left is again well-formed. |
| `DeleteCommutes.DeleteRequestCommutes` | src/sms_relay/ipc/ipc_server.cpp:624-644 | A request of any length, with repetitions, of indices that name a cache entry or an empty slot, nothing of which is refused, leaves cache and storage in step. |
| `DeleteRequest.AnsweredOneByOne` | src/sms_relay/ipc/ipc_server.cpp:624-644 | Each index of a request is reported as it would be in a request of its own, whatever was deleted before it. |
| `DeleteRequest.RequestLeaves` | src/sms_relay/ipc/ipc_server.cpp:624-644 | What a whole request leaves of the cache and of the storage, for any refusals, in terms of the cache before it. |
| `DeleteRequest.DeleteRequestExactly` | src/sms_relay/ipc/ipc_server.cpp:624-644 | For any request and any refusals: the cache left is the combined list of the storage left if and only if, of each entry that stands for several messages, the modem refuses all or none when the entry's index is requested, and all that are requested when it is not. |
| `EndToEnd.StoredMessageCombined` | src/sms_relay/sms/sms_service.cpp:485-543 | A message all of whose parts are stored, in any order, is shown as one message with the whole text. |
| `EndToEnd.IncrementalIsBatch` | src/sms_relay/sms/sms_service.cpp:235-561 | Collecting on arrival and combining from storage give one message each, with the same text, for every arrival order and every storage order. |
| `EndToEnd.TextComesThrough` | src/common/pdu/pdu.cpp:1050-1069 | Submitted, decoded and collected in any order, plain text of 161 to 39015 octets is notified exactly once and unchanged, with the number if it is made of digits. |
| `Ipc.StrBack` | src/common/ipc/ipc_serialization.h:28-97 | A string or vector of fewer than 2^32 octets is read back wherever it stands, and reading stops exactly at its end. |
| `Ipc.SerializeSmsInfo` | src/common/ipc/ipc_serialization.h:252-293 | The octets of a record, parts only if combined. |
| `Ipc.DeserializeSmsInfo` | src/common/ipc/ipc_serialization.h:192-249 | The record read and the offset behind it, or failure where the data end too early. |
| `Ipc.InfoReadBack` | src/common/ipc/ipc_serialization.h:192-293 | A record is read back wherever it stands, and reading stops exactly at its end. |
| `Ipc.ListReadBack` | src/common/ipc/ipc_serialization.h:192-293 | Any list of records, parts only in combined ones, is read back identically and every octet is consumed. |
| `IpcServer.SerializeRequest` | src/common/ipc/ipc_serialization.h:99-121 | Magic, length, command, sequence number and payload. |
| `Listing.RequestHeaderTold` | src/common/ipc/ipc_serialization.h:99-121 | The four words of a request's header, and its payload behind them. |
| `Ipc.WordOctets` | src/common/ipc/ipc_serialization.h:18-24 | A number is sent as its four octets, highest first. |
| `Ipc.RecordIs` | src/common/ipc/ipc_serialization.h:252-293 | The octets of a record field by field: strings behind their lengths, truth values as 0 or 1, parts only of a combined message. |
| `Ipc.PartAt` | src/common/ipc/ipc_serialization.h:276-291 | Each part is three octets: index, position and total. |
| `IpcServer.ReceiveAll` | src/sms_relay/ipc/ipc_server.cpp:302-319 | Whatever each call receives, the wanted number of octets is taken from the front of the stream, fewer only if the client is gone. |
| `IpcServer.HandleClient` | src/sms_relay/ipc/ipc_server.cpp:292-400 | For every way in which octets are received piece by piece, the requests handed on are a function of the stream. |
| `IpcServer.FirstRequest` | src/sms_relay/ipc/ipc_server.cpp:349-364 | A request at the front of the stream is handed on if and only if its payload has at most 1 MiB; otherwise the connection ends. |
| `IpcServer.RequestsHandedOn` | src/sms_relay/ipc/ipc_server.cpp:292-400 | Any concatenation of such requests is handed on as the same requests in order. |
| `IpcServer.RequestReadBack` | src/sms_relay/ipc/ipc_server.cpp:437-466 | Command, sequence number and payload carried out are those sent. |
| `IpcServer.HandleList` | src/sms_relay/ipc/ipc_server.cpp:494-530 | The answer lists all messages, or refuses a malformed payload; `Listing.ListTells` and `Listing.RefusalTold` say what it tells. |
| `IpcServer.ListAnswerReadBack` | src/sms_relay/ipc/ipc_server.cpp:506-530 | A client reads exactly the listed fields from the answer, with nothing left over. |
| `Listing.ListTells` | src/sms_relay/ipc/ipc_server.cpp:506-530 | A client reads success, the count, and for each message in order its index, sender, text, time, header flag, position, total and status, with nothing left over. |
| `Listing.RefusalTold` | src/sms_relay/ipc/ipc_server.cpp:497-503 | A malformed list request is answered by status 4 and an empty payload. |
| `Listing.AnswerHeader` | src/common/ipc/ipc_serialization.h:123-145 | The four words of an answer's header: magic number, length, status and sequence number. |
| `Listing.StoredMessageTold` | src/sms_relay/sms/sms_service.cpp:485-543 | A stored message all of whose parts are there is told to a client by a record with its sender, its whole text, and the time and index of its first part. |
| `IpcServer.HandleDelete` | src/sms_relay/ipc/ipc_server.cpp:607-658 | The answer and the effect of a delete request; nothing is deleted if it names no index. |
| `DeleteAnswer.AskedExactly` | src/sms_relay/sms/sms_service.cpp:335-351 | For an index the modem is asked to delete the index itself and the parts of the complete group whose first stored part has it, and nothing else. |
| `DeleteAnswer.DeleteTold` | src/sms_relay/ipc/ipc_server.cpp:624-658 | A client reads success, then the indices deleted, then those that failed, in the order of the request: an index is deleted if and only if the modem refuses nothing that it is asked to delete for it. |
| `DeleteAnswer.LeftExactly` | src/sms_relay/ipc/ipc_server.cpp:624-644 | After any request and any refusals: a message is still stored if and only if it is refused or not asked to be deleted, and still cached if and only if its index was not deleted. |

## Left out

- `PduDecode.DecodeBytes`: a read past the end of the PDU, whose effect the language leaves open, is modelled as one failure.
- `SubmitOctets.Ucs2PartStandsAlone`: says what is shown of a submitted UCS-2 part, but not that this is never its text, as `PduRoundTrip.Ucs2IsReadAsSeptets` does of a single UCS-2 PDU.
- `Udh.ParseUdh`: the language leaves open which of the two octets of a 16-bit reference is read first; the model takes the left one.
- `Reassembly.MultipartCache.CleanupCache`: the clock is an arbitrary number handed in, not known to be non-decreasing, which the theorems do not need.
- `Combine.GetAllIndices`: std::sort is modelled by an insertion sort on values, not in place.
- `Combine.CombineMultipartMessages`: the ordered map is a map together with the ascending list of its keys; the time of the first part is not kept, since nothing looks at it.
- `MessageCache.MessageCache.DeleteMessage`: of the error text, the index it names is kept; the modem's words and the pauses between deletions are left out.
- `MessageCache.MessageCache.RefreshCache`: the AT commands that list and read messages are left out; whether the listing succeeds is handed in, and the storage is the list of messages that were read and decoded.
- `AtResponse.UrcDispatcher.Dispatch`: the handlers themselves are left out; their calls are recorded with their arguments.
- `AtSession.AlwaysInv`: stopping the session is not an event; each locked section and each handler is one atomic step.
- `IpcServer.HandleClient`: the server is not stopped while it serves, and an error of the socket counts as the end of its stream.
- `IpcServer.HandleDelete`: the modem's replies are a set of indices that it refuses throughout one request.
- `Ipc.DeserializeSmsInfo`: on failure the model returns nothing, where the original leaves some fields set and the offset moved; its callers drop the record.
- Read, send and status requests, and the client shells.
- Serial port, sockets, threads, configuration, callbacks, forwarding and templates: input and output, or wrappers.
- The write queue of the serial transport: its flag is never set, so it promises nothing.
