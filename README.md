# IEC 60870-5-104 client: a verified model

This project models the core of a Go IEC 60870-5-104 client. The model has two layers.

The codec decodes and encodes frames:

- The six-octet control field (APCI) is classified into I, S and U formats (`apci.go`).
- The frame (APDU) is parsed and built (`apdu.go`).
- The application data unit (ASDU) and its data unit identifier are parsed and encoded (`msg-elements/asdu.go`, `msg-elements/parse.go`).
- Three information-object types are covered:
  - M_ME_NC_1, the short floating-point measured value, with its quality descriptor (`msg-elements/m_me_nc_1.go`);
  - M_ME_NA_1, the normalised measured value (`msg-elements/m_me_na_1.go`);
  - C_IC_NA_1, the interrogation command (`msg-elements/c_ic_na_1.go`).

The client (`client/client.go`) has:

- the STARTDT/STOPDT/TESTFR handshakes;
- the general interrogation;
- the reconnect loop driven by the connection test;
- the read loop that routes frames to the data and control channels;
- the answers to the peer's U-frame activations;
- the receive loop that extracts measured values and acknowledges each I frame with an S frame.

## How the model is organised

Octets are integers 0..255 (`Wire.byte`). Go's `int16` arithmetic is written out with explicit wrap-around (`Wire.Wrap16`). Every Go call yields a `Wire.Outcome`, which is one of:

- a value;
- an error it returns (`Fault`, naming the check that failed);
- a runtime panic (`PanicKind`: index out of range, nil dereference, divide by zero, write to a nil map, failed type assertion).

Panics are modelled rather than excluded, because several inputs the code accepts lead to them.

Each decoder loop of the Go code is a `method` with loop invariants. The method is proved equal to a specification function (`ensures r == DecodeSq0Objects(...)`). The properties are proved about that function: exact error conditions, where each field is read from, and round trips against the encoders.

The client is a class, `Client.Connection`. Its state is:

- the frames the peer will still deliver;
- whether writes succeed;
- the frames written;
- the three channels;
- the cancellation flag.

Each of its methods updates these fields in place. Its `ensures` ties the new state to a rule of module `ClientRules` over a value called `Link`, the same state seen as a value. The lemmas of `ClientRules` prove what the client promises: which frames go to which channel, when a handshake succeeds, how many reconnect attempts are made, what the acknowledgements carry, and which values are passed on.

Socket reads are the outcomes of `ParseAPDU` on the octets received (`ClientRules.Parsed`), so the client layer sees exactly what the parser can produce.

The codec keeps the code as written. The client layer keeps it too, except for one assumption about how frames are built (see the first line of "## Left out"). Under that assumption, the lemmas show several consequences of the code:

- An I frame with an odd send number N(S) is rejected, because bit 1 of the first control octet then makes the dispatch report an unknown frame type (`Apci.IFrameAcceptedIffSendEven`).
- Only the OV flag of a quality descriptor survives parsing, because the other masks are compared with 1 (`MeNc1.QdsRoundTripIff`).
- SQ=1 M_ME_NC_1 runs are read one octet late, and any non-empty run the encoder writes makes the parser panic (`MeNc1.Sq1EncodingPanics`).
- Parsing an interrogation ASDU keeps only its type, so its cause is always 0 (`Parse.ParsedIcCauseIsZero`). The general interrogation therefore never succeeds (`ClientRules.TotalCallNeverSucceeds`). Neither does a reconnect. Given the assumption about frame building, a connection test that fails with an error is never followed by a reconnect. The session ends after five attempts, unless a reconnect panics first (`ClientRules.FailedTestCancels`). The code has no `recover`, so a panic in `test` or `reconnect` runs the deferred `cancel` and then ends the process. A test that panics makes no reconnect attempt (`ClientRules.PanickingTestNoReconnect`). An interrogation frame with a four-octet ASDU is one such test (`ClientRules.ShortInterrogationCrashesTest`).
- Any non-empty SQ=0 M_ME_NA_1 list the encoder writes makes the parser panic (`MeNa1.Na1Sq0EncodingPanics`). M_ME_NA_1 is never parsed by ParseASDU at all (`Parse.Na1NeverParsed`).
- `NewAPDU` with no ASDU panics with a nil dereference, or returns the control-field error (`Apdu.NewApdu`). The client, which builds all its frames except the interrogation that way, is therefore modelled against a `NewAPDU` that accepts a nil ASDU (see "## Left out").

## Model

| member | source | states |
|---|---|---|
| Wire.Wrap16 | apci.go:54-55 | The Go `int16` conversion keeps the value modulo 65536 and leaves every value already in range unchanged. |
| Wire.BitAnd | apci.go:72-88 | Masking an octet with a one-bit mask gives the mask exactly when that bit is set, and 0 otherwise. |
| Wire.SqBit | msg-elements/m_me_nc_1.go:95-96 | The SQ bit in `vsq >> 7` is 0 or 1, and it is 1 exactly when the top bit of the qualifier is set. |
| Wire.BigEndianBytes | msg-elements/m_me_nc_1.go:53-61 | The four octets written for a float pattern read back as the same big-endian 32-bit value. |
| Wire.ConcatMapSlice | msg-elements/m_me_nc_1.go:40-46 | In a concatenation of equal-width encodings, element k's encoding is the slice at k times the width. |
| Apci.SeqNumber | apci.go:53-61 | A 15-bit sequence number read from two octets is `lo/2 + hi*128`; none of the `int16` steps wrap. |
| Apci.ParseIFrame | apci.go:53-61 | An I frame's send number comes from Ctr1/Ctr2 and its receive number from Ctr3/Ctr4. |
| Apci.ParseSFrame | apci.go:63-69 | An S frame's receive number comes from Ctr3/Ctr4. |
| Apci.ParseUFrame | apci.go:71-89 | Each of the six U flags is Ctr1 masked by its own bit, and is non-zero exactly when that bit is set. |
| Apci.ParseCtr | apci.go:36-51 | The two low bits of Ctr1 select I (0), S (1) or U (3) with the matching frame; value 2 is the error tag with an unknown-frame-type error; it never panics. |
| Apci.SeqNumberCoversRange | apci.go:53-61 | Every sequence number 0..32767 is produced by the packing formula. |
| Apci.IFrameSendIsEven | apci.go:36-61 | Every send number decoded from an I frame is even. |
| Apci.IFrameAcceptedIffSendEven | apci.go:36-61 | An I-format field carrying N(S) = n parses exactly when n is even, giving back n; for odd n it is the unknown-frame-type error. |
| Apci.SFrameIgnoresCtr1AndCtr2 | apci.go:63-69 | The upper bits of Ctr1 and all of Ctr2 do not change how an S frame parses. |
| Apci.UFrameIgnoresCtr2To4 | apci.go:71-89 | Ctr2 to Ctr4 do not change how a U frame parses. |
| MeNc1.QdsByte | msg-elements/m_me_nc_1.go:72-92 | The QDS octet has OV in bit 0, BL, SB, NT and IV in bits 4 to 7, and bits 1 to 3 clear. |
| MeNc1.ConvertQds | msg-elements/m_me_nc_1.go:72-92 | The `+=` accumulation of QDS.ConvertBytes gives exactly that octet. |
| MeNc1.ParseQds | msg-elements/m_me_nc_1.go:141-149 | Parsing keeps OV from bit 0 and always clears BL, SB, NT and IV, because their masks are compared with 1. |
| MeNc1.QdsRoundTripIff | msg-elements/m_me_nc_1.go:141-149 | A QDS survives encode-then-parse exactly when only OV may be set; in every case the result keeps only OV. |
| MeNc1.Core13Bytes | msg-elements/m_me_nc_1.go:53-61 | A value is five octets: the big-endian float pattern, then the QDS octet. |
| MeNc1.Sq0ElementBytes | msg-elements/m_me_nc_1.go:34-36 | An SQ=0 object is six octets: its address, then its value. |
| MeNc1.Sq0Bytes | msg-elements/m_me_nc_1.go:40-46 | An SQ=0 list encodes to six octets per object, with object k's encoding at octets 6k to 6k+5. |
| MeNc1.Sq1Bytes | msg-elements/m_me_nc_1.go:20-26 | An SQ=1 run encodes to the address octet followed by five octets per value. |
| MeNc1.ConvertSq0 | msg-elements/m_me_nc_1.go:40-46 | The append loop produces exactly the SQ=0 encoding. |
| MeNc1.ConvertSq1 | msg-elements/m_me_nc_1.go:20-26 | The append loop produces exactly the SQ=1 encoding. |
| MeNc1.Sq1Decoded | msg-elements/m_me_nc_1.go:125-135 | The SQ=1 read loop either yields one value per declared object or panics with an out-of-range index. |
| MeNc1.DecodeSq0Objects | msg-elements/m_me_nc_1.go:99-118 | SQ=0 parsing never panics; it fails exactly when the body length divided by 6 differs from the declared count; otherwise object k is read from octet 4+6k. |
| MeNc1.DecodeSq1Objects | msg-elements/m_me_nc_1.go:119-136 | SQ=1 parsing panics exactly when the ASDU is under five octets or, for a non-empty run, the last QDS read falls past the end; it fails exactly when the length after the address divided by 5 differs from the declared count; otherwise value k is read from octet 6+5k. |
| MeNc1.ParseNc1Sq0 | msg-elements/m_me_nc_1.go:99-118 | The SQ=0 loop of parseM_ME_NC_1 computes DecodeSq0Objects. |
| MeNc1.ParseNc1Sq1 | msg-elements/m_me_nc_1.go:119-136 | The SQ=1 loop of parseM_ME_NC_1 computes DecodeSq1Objects. |
| MeNc1.ParseNc1 | msg-elements/m_me_nc_1.go:94-138 | parseM_ME_NC_1 dispatches on the SQ bit to the matching decoder. |
| MeNc1.ReadBack | msg-elements/m_me_nc_1.go:141-149 | An object reads back with the same address and value, and only OV kept in its QDS. |
| MeNc1.Sq0RoundTrip | msg-elements/m_me_nc_1.go:99-118 | Parsing a four-octet header plus an encoded SQ=0 list with a matching count returns every object as it reads back. |
| MeNc1.Sq0ObjectReadBack | msg-elements/m_me_nc_1.go:105-117 | Object k of an encoded list occupies octets 4+6k to 9+6k of the ASDU. |
| MeNc1.Sq0ElementFields | msg-elements/m_me_nc_1.go:34-36 | The address, float pattern and QDS of an encoded object read back from its six octets. |
| MeNc1.Sq1EncodingPanics | msg-elements/m_me_nc_1.go:119-136 | Every non-empty SQ=1 run the encoder writes, with a matching count, makes the parser panic. |
| MeNa1.DecodeInt16 | msg-elements/m_me_na_1.go:105-117 | With two octets or more the complement decoder gives the signed little-endian 16-bit value; with fewer it fails. |
| MeNa1.SignBit | msg-elements/m_me_na_1.go:110-116 | The `0x80` test on the high octet is the sign of the 16-bit pattern. |
| MeNa1.ComplementNegation | msg-elements/m_me_na_1.go:110-113 | Negating the complement plus one of a negative pattern gives its signed value. |
| MeNa1.MostNegativeValue | msg-elements/m_me_na_1.go:105-117 | The pattern 0x8000 decodes to -32768. |
| MeNa1.Core9Bytes | msg-elements/m_me_na_1.go:48-56 | A normalised value is three octets: its `int16` little-endian, then the QDS octet. |
| MeNa1.Core9ValueRoundTrip | msg-elements/m_me_na_1.go:105-117 | Decoding the two value octets of an encoded core gives back its value. |
| MeNa1.Int16BytesOfDecode | msg-elements/m_me_na_1.go:105-117 | Encoding the decoded value of any two octets gives back those octets. |
| MeNa1.Na1ElementBytes | msg-elements/m_me_na_1.go:29-31 | An SQ=0 object is five octets: its address truncated to its low octet, written twice, then its three-octet core. |
| MeNa1.Na1Sq0Bytes | msg-elements/m_me_na_1.go:35-41 | An SQ=0 list encodes to five octets per object, with object k's encoding at octets 5k to 5k+4. |
| MeNa1.Address24Bytes | msg-elements/m_me_na_1.go:15-21 | The three address octets read back as the address modulo 2^24. |
| MeNa1.Na1Sq1Bytes | msg-elements/m_me_na_1.go:15-21 | An SQ=1 run encodes to three address octets followed by three octets per value. |
| MeNa1.ConvertNa1Sq0 | msg-elements/m_me_na_1.go:35-41 | The append loop produces exactly the SQ=0 encoding. |
| MeNa1.ConvertNa1Sq1 | msg-elements/m_me_na_1.go:15-21 | The append loop produces exactly the SQ=1 encoding. |
| MeNa1.Rounds | msg-elements/m_me_na_1.go:64-68 | The loop runs either all `number` rounds or none. It runs them all exactly when the body holds at least `number` octets, so that the stride `len/number` is positive. |
| MeNa1.DecodeNa1Sq0Objects | msg-elements/m_me_na_1.go:64-84 | SQ=0 parsing never returns an error; it panics out of range for an ASDU under six octets; beyond that it divides by zero exactly for a zero count and panics out of range exactly when the last stride's six-octet read runs off the body; otherwise object k is read at octet 6 + k times the stride. |
| MeNa1.DecodeNa1Sq1Objects | msg-elements/m_me_na_1.go:85-101 | The same for SQ=1, with the three-octet little-endian address at octets 6 to 8 and three-octet reads from octet 9 on. |
| MeNa1.Na1Sq0RunClosed | msg-elements/m_me_na_1.go:68-83 | The SQ=0 loop, run as written, reads exactly the objects at the strides, or panics exactly when one runs off the body. |
| MeNa1.Na1Sq1RunClosed | msg-elements/m_me_na_1.go:91-100 | The same for the SQ=1 loop. |
| MeNa1.ReadNa1Sq0Run | msg-elements/m_me_na_1.go:68-83 | The SQ=0 loop method computes the loop's specification function. |
| MeNa1.ReadNa1Sq1Run | msg-elements/m_me_na_1.go:91-100 | The SQ=1 loop method computes the loop's specification function. |
| MeNa1.ParseNa1Sq0 | msg-elements/m_me_na_1.go:64-84 | The SQ=0 branch of parseM_ME_NA_1 computes DecodeNa1Sq0Objects. |
| MeNa1.ParseNa1Sq1 | msg-elements/m_me_na_1.go:85-101 | The SQ=1 branch of parseM_ME_NA_1 computes DecodeNa1Sq1Objects. |
| MeNa1.ParseNa1 | msg-elements/m_me_na_1.go:58-103 | parseM_ME_NA_1 dispatches on the SQ bit to the matching decoder. |
| MeNa1.Na1Sq1RoundTrip | msg-elements/m_me_na_1.go:85-101 | Parsing a six-octet header plus an encoded SQ=1 run (address below 2^24, matching count) gives back the address and every value, keeping only OV in each QDS. |
| MeNa1.Na1Sq1DecodeExact | msg-elements/m_me_na_1.go:85-101 | An ASDU of exactly three octets per declared value after the address decodes to those values. |
| MeNa1.Na1Sq0EncodingPanics | msg-elements/m_me_na_1.go:64-84 | Every non-empty SQ=0 list the encoder writes, behind a six-octet header with a matching count, makes the parser panic. |
| CIcNa1.IcElementBytes | msg-elements/c_ic_na_1.go:32-37 | An interrogation object encodes to two octets. IcRoundTrip shows that they read back as its address and its qualifier. |
| CIcNa1.ParseIc | msg-elements/c_ic_na_1.go:39-44 | Parsing panics exactly when the ASDU is shorter than six octets; otherwise it returns the object whose encoding is octets 4 and 5. |
| CIcNa1.IcRoundTrip | msg-elements/c_ic_na_1.go:32-44 | The object encoded behind any four header octets parses back unchanged. |
| Asdu.DuiBytes | msg-elements/asdu.go:9-19 | The DUI octets are type, qualifier and cause, then the optional (ext) octet, the low common address and the optional high common address. |
| Asdu.DuiBytesIgnoresDisabled | msg-elements/asdu.go:9-19 | A field whose enable flag is clear never reaches the wire. |
| Asdu.BodyBytes | msg-elements/asdu.go:21 | A nil body panics with a nil dereference; every other body gives its own encoding. |
| Asdu.AsduBytes | msg-elements/asdu.go:8-22 | The ASDU encodes to the DUI octets followed by the body's, and panics exactly for a nil body. |
| Asdu.NewAsduCIcNa1Bytes | msg-elements/c_ic_na_1.go:46-60 | The interrogation ASDU is the six octets: type, qualifier 1, cause, common address, address 0, qualifier of interrogation. |
| Parse.ParseTypeId | msg-elements/parse.go:55-64 | Only M_ME_NC_1 and C_IC_NA_1 are accepted; any other type is an unknown-type error. |
| Parse.ParseDui | msg-elements/parse.go:37-53 | The DUI parser panics on an empty input or a short M_ME_NC_1 input; it rejects unknown types; it fills the fields for M_ME_NC_1 and only the type otherwise. |
| Parse.ParseAsdu | msg-elements/parse.go:8-35 | An ASDU under four octets is too short; unknown types are errors; M_ME_NC_1 and C_IC_NA_1 bodies are decoded after the header. |
| Parse.Na1NeverParsed | msg-elements/parse.go:55-64 | Every M_ME_NA_1 ASDU the encoder writes is rejected as an unknown type. |
| Parse.IcFieldsLost | msg-elements/parse.go:37-53 | The interrogation the client sends parses back with its qualifier, cause and common address reset to zero. |
| Parse.ParsedIcCauseIsZero | msg-elements/parse.go:37-53 | Every parsed interrogation ASDU has cause 0. |
| Parse.Nc1Sq0AsduRoundTrip | msg-elements/parse.go:8-35 | An SQ=0 M_ME_NC_1 ASDU without optional fields parses back to its DUI and every object as it reads back. |
| Apdu.ParseApdu | apdu.go:43-87 | Input under six octets is too short; a wrong start octet or an unknown frame type is an error; a frame of exactly six octets has an empty ASDU; otherwise the rest is parsed as an ASDU and its error or panic is passed on; a parsed frame keeps the APCI, the length octet, the decoded control field and the ASDU length. |
| Apdu.LengthOctetUnchecked | apdu.go:43-87 | The length octet is never checked: changing it changes only the length field of the result. |
| Apdu.NewApdu | apdu.go:22-41 | A nil body panics; an unknown frame type is returned as an error; a missing ASDU panics with a nil dereference; otherwise the frame records the encoded length. |
| Apdu.ApduBytes | apdu.go:89-99 | A frame encodes to its APCI octets, followed by the ASDU octets when it has an ASDU. |
| Apdu.NewApduEncodesLen | apdu.go:89-99 | A frame built by NewAPDU, with an APCI encoder writing six octets, encodes to its header followed by its ASDU, exactly as many octets as its recorded length. |
| Apdu.ParsedApduEncodes | apdu.go:43-99 | Every parsed frame can be encoded again without a panic. |
| Apdu.ParsedIcNeverConfirms | apdu.go:43-87 | A parsed interrogation frame never carries the activation-confirmation cause. |
| ClientRules.ParsedTail | client/client.go:426-434 | After one read, the parse outcomes still pending are those of the remaining frames, and the outcome just read is ParseAPDU of the first frame. |
| ClientRules.ActFrame | client/client.go:172-247 | The U frame of stop, start and test sets exactly its own activation flag and no confirmation. |
| ClientRules.Served | client/client.go:318-354 | uFrameResp serves STARTDT before STOPDT before TESTFR, and serves nothing exactly when no activation is set. |
| ClientRules.Echo | client/client.go:318-354 | An activation is answered by clearing the served activation flag and setting its confirmation; a frame without activations gets no answer. |
| ClientRules.EchoAnswersHandshake | client/client.go:318-354 | A peer following the echo rule confirms every handshake this client starts. |
| ClientRules.AwaitURouting | client/client.go:423-450 | writeUFrame returns only U frames; I and S frames seen on the way are appended to the data channel and activations to the control channel. |
| ClientRules.HandshakeIffConfirmed | client/client.go:172-247 | A handshake succeeds exactly when the awaited U frame has its confirmation flag set. |
| ClientRules.HandshakeFrame | client/client.go:172-247 | A handshake writes only its activation frame, and only when writes succeed. |
| ClientRules.AckFor | client/client.go:135-137 | The acknowledgement's receive number is send+1, wrapping 32767 to -32768 as Go's `int16` does. |
| ClientRules.ParsedFromWire | apdu.go:43-87 | Every frame ParseAPDU returns satisfies the parsed-frame invariant. |
| ClientRules.AwaitIRouting | client/client.go:266-306 | totalCall's wait returns only an I frame; S frames go to the data channel and U frames to the control channel. |
| ClientRules.ConcludeOutcomes | client/client.go:283-300 | A confirming I frame is acknowledged once; any other I frame goes to the data channel with an error. |
| ClientRules.TotalCallNeverSucceeds | client/client.go:250-306 | Over frames from ParseAPDU, the general interrogation never succeeds. |
| ClientRules.InitIffBothConfirmed | client/client.go:158-169 | init succeeds exactly when stop and then start both succeed. |
| ClientRules.ReconnectNeverSucceeds | client/client.go:359-373 | Over frames from ParseAPDU, reconnect never succeeds. |
| ClientRules.RetryBound | client/client.go:96-103 | The reconnect loop makes at most five attempts. It stops at the first success or panic, and gives up only after the fifth error. |
| ClientRules.RetryExhausts | client/client.go:96-103 | Over frames from ParseAPDU, the loop never reconnects. It either fails all five attempts or stops at one that panics. |
| ClientRules.FailedTestCancels | client/client.go:84-106 | A passed test makes no reconnect attempt. A test that fails with an error always cancels the session. Either all five reconnects fail and the goroutine returns, or one panics and the process ends. |
| ClientRules.PanickingTestNoReconnect | client/client.go:84-94 | A test that panics ends the process with that panic, after the deferred cancel. No reconnect is attempted, and only the test frame is written. |
| ClientRules.ShortInterrogationCrashesTest | client/client.go:84-94 | A test that reads an interrogation frame with a four-octet ASDU panics. The process ends with no reconnect attempt, after the deferred cancel. |
| ClientRules.ReadAllRoutes | client/client.go:376-410 | Unless a frame makes the parser panic, `read` consumes every frame and ends with a read error. However it ends, it writes nothing, and its deferred cancel cancels the session. |
| ClientRules.ReadAllData | client/client.go:395-408 | Every parsed I and S frame is appended to the data channel, in order. |
| ClientRules.ReadAllControl | client/client.go:395-408 | Every parsed U frame is appended to the control channel, in order. |
| ClientRules.ControlChannelTyped | client/client.go:316-318 | writeUFrame, totalCall and `read` put only U frames on the control channel, so the type assertion of uFrameResp never fails. |
| ClientRules.UFrameRespAnswers | client/client.go:309-357 | On a control channel of U frames uFrameResp never panics and never returns, so the session stays as it was. It empties the channel and leaves everything else unchanged. |
| ClientRules.RespPanicCancels | client/client.go:309-318 | A frame without a U frame on the control channel fails the type assertion. uFrameResp panics after its deferred cancel, and the frames queued behind it stay unanswered. |
| ClientRules.RespSent | client/client.go:318-354 | uFrameResp writes exactly one echo per activation on the channel, in order, when writes succeed. |
| ClientRules.HandleDataAsWritten | client/client.go:453-478 | handleData as written panics with a nil-map write exactly for an M_ME_NC_1 body with at least one object; otherwise it gives an empty map or an error. |
| ClientRules.Sq1ValuesKeys | client/client.go:458-464 | An SQ=1 run maps exactly the addresses base..base+n-1, address base+i to value i. |
| ClientRules.Sq0ValuesKeys | client/client.go:466-470 | An SQ=0 list maps exactly its objects' addresses, each to the value of the last object with that address. |
| ClientRules.Values | client/client.go:453-478 | Corrected handleData never panics; it fails exactly for a type other than M_ME_NC_1 or a body that is not M_ME_NC_1. |
| ClientRules.AsWrittenAgreesWhenNoPanic | client/client.go:453-478 | Wherever the code as written does not panic, the corrected version gives the same outcome. |
| ClientRules.ReceiveOutputs | client/client.go:115-155 | receive empties the data channel and leaves the inbound frames and the control channel unchanged. |
| ClientRules.ReceiveOut | client/client.go:122-132 | receive appends one value map per accepted I frame to the output channel, in order. |
| ClientRules.ReceiveSent | client/client.go:134-145 | receive writes one S-frame acknowledgement per accepted I frame, in order, when writes succeed. |
| ClientRules.NilMapOnEveryReport | client/client.go:453-470 | Every SQ=0 M_ME_NC_1 report with at least one value, sent in an I frame, parses and makes handleData as written panic, while the corrected version returns values. |
| Client.Connection.constructor | client/client.go:39-62 | A new client has empty channels, nothing written and no cancellation. |
| Client.Connection.Write | client/client.go:417 | A write succeeds exactly when the socket accepts writes, and then appends the frame to the frames written. |
| Client.Connection.Read | client/client.go:426-434 | A read consumes one inbound frame and yields its parse outcome, or fails when none is left. |
| Client.Connection.WriteUFrame | client/client.go:413-451 | The loop of writeUFrame changes the state as the writeUFrame rule says. |
| Client.Connection.Handshake | client/client.go:172-247 | stop, start and test change the state and succeed as the handshake rule says. |
| Client.Connection.Init | client/client.go:158-169 | init follows its rule. |
| Client.Connection.TotalCall | client/client.go:250-306 | The loop of totalCall follows its rule. |
| Client.Connection.Reconnect | client/client.go:359-373 | reconnect follows its rule. |
| Client.Connection.Retry | client/client.go:96-103 | The reconnect loop follows its rule. It returns how it ended (reconnected, gave up, or panicked) and the number of attempts. |
| Client.Connection.Tick | client/client.go:84-106 | One ticker tick of connectionTest follows its rule. It ends in one of three ways: resumed, cancelled after five failed reconnects, or crashed by a panic in `test` or `reconnect`. |
| Client.Connection.ConnectionTest | client/client.go:84-113 | connectionTest over a number of ticks follows its rule. It stops at the first tick that does not resume. |
| Client.Connection.ReadLoop | client/client.go:375-410 | The loop of `read` follows its rule. It cancels the session on both ways out: a failed read or a parse panic. |
| Client.Connection.UFrameResp | client/client.go:309-357 | uFrameResp, run until the control channel is empty, follows its rule. It cancels the session when a type assertion panics. |
| Client.Connection.Receive | client/client.go:115-155 | receive, run until the data channel is empty, follows its rule, with the corrected handleData. |
| Client.HandleData | client/client.go:453-478 | The loops filling the value map (with the map created first) compute the corrected handleData. |

## Left out

- Client frame building: the client builds every frame it writes except the interrogation with `iec104.NewAPDU(apci, nil)` (client/client.go:139, 181, 207, 233, 290, 323, 334, 345). The `NewAPDU` of apdu.go:22-41 never returns a frame for a nil ASDU (`Apdu.NewApdu`). It returns the control-field error, or panics when it dereferences the nil ASDU at apdu.go:35. The client is written against another version of the library: its U flags are `bool`, and it reads an exported `CtrFrame`. The model therefore treats `NewAPDU(apci, nil)` as the version the client expects, one that builds a frame of the APCI alone (`ClientRules.Outbound` with no ASDU). The rules `ClientRules.Handshaking`, `ClientRules.Conclude`, `ClientRules.RespStep` and `ClientRules.ReceiveStep` depend on this, and so does every `Client.Connection` method built on them (Handshake, Init, TotalCall, Reconnect, Retry, Tick, ConnectionTest, UFrameResp, Receive). With the `NewAPDU` of apdu.go there would be no outgoing handshake, echo or acknowledgement: stop, start and test would fail or panic before writing, and receive, totalCall and uFrameResp would panic, or write a zero APDU, at the point where they build their frame.
- HandshakeIffConfirmed: holds only for the frame-building assumption above. With the `NewAPDU` of apdu.go, `stop`, `start` and `test` fail or panic at client.go:181, 207 and 233, before any frame is written.
- HandshakeFrame: assumes the activation frame is built. With the `NewAPDU` of apdu.go, no frame is written (client.go:181-184).
- ConcludeOutcomes: assumes the acknowledgement at client.go:290 is built. With the `NewAPDU` of apdu.go, building it panics.
- RetryExhausts: depends on the frame-building assumption. With the `NewAPDU` of apdu.go, the first attempt's `stop` would already fail at client.go:181, or panic there and end the process.
- FailedTestCancels: assumes `test` and `reconnect` build their frames (client.go:233, 181). With the `NewAPDU` of apdu.go, building those frames could panic instead, ending the process.
- UFrameRespAnswers: "never panics" holds only for the frame-building assumption. With the `NewAPDU` of apdu.go, each activation's echo panics at client.go:323, 334 or 345.
- RespSent: assumes the counted echoes are built at client.go:323, 334 and 345.
- ReceiveOutputs: assumes the S-frame acknowledgement at client.go:139 is built. With the `NewAPDU` of apdu.go, the first accepted I frame panics there, and the channel is not emptied.
- ReceiveOut: outputs after the first accepted I frame assume the acknowledgement at client.go:139 was built.
- ReceiveSent: assumes the S-frame acknowledgement at client.go:139 is built. With the `NewAPDU` of apdu.go it panics, or yields a zero APDU when the control field is rejected.
- Handshake: `Client.Connection.Handshake` follows Handshaking, so it rests on the frame-building assumption (client.go:181, 207, 233).
- Init: `Client.Connection.Init` is built on Handshake and rests on the same assumption.
- TotalCall: `Client.Connection.TotalCall` writes the acknowledgement that client.go:290 builds with `NewAPDU(apci, nil)`.
- Reconnect: `Client.Connection.Reconnect` is built on Handshake and TotalCall and rests on the same assumption.
- Retry: `Client.Connection.Retry` is built on Reconnect and rests on the same assumption.
- Tick: `Client.Connection.Tick` runs `test`, which builds its frame with `NewAPDU(apci, nil)` at client.go:233.
- ConnectionTest: `Client.Connection.ConnectionTest` is built on Tick and rests on the same assumption.
- UFrameResp: `Client.Connection.UFrameResp` writes echoes that client.go:323, 334 and 345 build with `NewAPDU(apci, nil)`.
- Receive: `Client.Connection.Receive` writes the acknowledgement that client.go:139 builds with `NewAPDU(apci, nil)`.
- A panic in any goroutine ends the whole process. The model ends only the operation that panicked: `Tick` reports `Crashed`, and `ReadAll`, `UFrameResp` and `TotalCall` return the panic. It does not stop the other operations, which the caller could still run on the state.
- Sockets, goroutines and channels: the two socket directions become a sequence of inbound frames and a log of written frames, and the channels become sequences. The four goroutines of `Start` are modelled as separate operations run to completion, not interleaved.
- The mutex in `read` (client/client.go:384-409) is not modelled. So is the lock left held when a frame fails to parse or a read fails: after `continue` at client.go:398 the next `Lock` would deadlock. `ClientRules.ReadAll` treats each frame as if the lock were released.
- The ticker, `SetDeadline`, the context and `Close` are left out. A ticker tick is one step of `ConnectionTest`. Cancellation is a flag, `cancelled`, that every exit the model reaches sets:
  - connectionTest's explicit and deferred `cancel` (client.go:85, 105);
  - read's deferred `cancel` (client.go:376), on a failed read or a parse panic;
  - uFrameResp's deferred `cancel` (client.go:310), on a failed type assertion.

  `receive` (client.go:116) never returns in the model, so its deferred `cancel` is never reached. The tight loop on `ctx.Done()` in the goroutines is not modelled.
- Log output is not modelled.
- `NewAPCI` and `APCI.ConvertBytes` are left out: their source is not among the files modelled. `Apdu.ApduBytes` takes the APCI encoder as a parameter, and the client's frames are recorded as `ClientRules.Outbound` (frame kind and fields) rather than octets.
- Because the client's U flags are `bool`, the model treats a flag as set when its masked octet is non-zero.
- Values are keyed by integer address, not by the `fmt.Sprint` string of the address.
- Float values are carried as their 32-bit pattern; no floating-point arithmetic is modelled.
- Each socket read returns one whole frame. The 1024-octet buffer, partial reads and several frames in one read are not modelled.
- `bytes.Buffer` and `binary.Write` are modelled only as the two little-endian octets they emit for an `int16`.
- `SetConnectDeadLine`, `New`'s dialling and `Start`'s wiring are left out; only their effect on the initial state is kept (`Client.Connection.constructor`).
- The declarations of the type-identification constants are not among the files modelled. `Asdu` gives them the values of IEC 60870-5-101: M_ME_NA_1 = 9, M_ME_NC_1 = 13, C_IC_NA_1 = 100.
- The test server, the examples and the test files are left out.

## Findings

| source | as written | input that shows it | evidently intended | confidence | as-written member | corrected member |
|---|---|---|---|---|---|---|
| client/client.go:456-470 | `var values map[string]float32` declares a nil map, and every assignment to it panics | any I frame with an SQ=0 M_ME_NC_1 ASDU holding at least one object | create the map with `make` before filling it | not executed | ClientRules.HandleDataAsWritten, ClientRules.NilMapOnEveryReport | ClientRules.Values, Client.HandleData |
