# Quectel AT-response decoding and the serial `write` exchange

This project models the core of `aerismodsdk`, a Python SDK that drives a
Quectel cellular modem with AT commands over a serial port, and proves
properties of that model.

- **`aerismodsdk/quectel.py`, the decode side (pure).** It covers the
  following:
  - `parse_response`, which strips every trailing O, K, CR and LF
    character (so a last value ending in O or K loses those letters too),
    finds the last occurrence of a response prefix, and splits what
    follows at commas.
  - The GPRS-timer bit fields: `timer_units`, and the five-bit value
    `value & 0b00011111`.
  - The lookup tables `psm_mode`, `tau_units`, `at_units`, `act_type`,
    `edrx_time` and `paging_time`, each with its "Invalid value" default.
  - The decode steps of the `+QPSMCFG` and `+CPSMS` replies in `psm_info`
    and of the `+CEDRXRDP` reply in `edrx_info`. These read numbers through
    `int(...)` and quoted bit strings through `int(field.strip('"'), 2)`.

  The Python string operations they rest on are modelled in `Strings`:
  `rstrip`/`strip` with a character set, `rfind`, slicing past the end,
  `split` and `join`. Python `&`, `int(s, 2)`, `int(s)` and `str(n)` are
  modelled in `Bits`.
- **`aerismodsdk/rmutils.py` `write`, the exchange with the modem
  (imperative).** A `Port` class holds four fields:
  - the bytes received and not yet read (`in_waiting` is their count);
  - the modem's pending replies, each with the millisecond at which it
    reaches the port;
  - a millisecond clock;
  - a trace of every write, sleep and one-byte read.

  `Write` follows the source step by step:
  1. Write the command with CR-LF framing.
  2. Sleep for the delay when it is positive.
  3. Poll every 50 ms while nothing is waiting and less than a second has
     passed.
  4. Read every waiting byte.
  5. Decode the bytes.
  6. If there is a payload, sleep one second, write the payload, and sleep
     one second again.

  Each step is a method proved against specification functions: `WaitEnd`,
  `StopTime`, `Captured` and `Exchange`. The lemmas then state what the
  source promises about those functions.

In two places the model follows the code where a reader might expect
otherwise:
- A reply without the expected prefix is not an error. `rfind` gives -1,
  so the values are read from index `len(prefix) - 1` (`ParseResponseAbsent`).
- The `+CPSMS:` prefix has no trailing space, so the first value keeps its
  leading blank (`CpsmsRoundTrip` gives back `" " + mode`).

The lookup tables are kept as written, including where they depart from
3GPP TS 24.008:
- `tau_units` departs from the GPRS Timer 3 unit coding of section
  10.5.7.4a in three entries (`TauUnitsOfOctet`):
  - `0b10100000` has no entry, where the standard gives 1 minute;
  - `0b11000000` reads "1 min", where the standard gives 320 hours;
  - `0b11100000` reads "invalid", where the standard gives "deactivated".
- `at_units` departs from the GPRS Timer 2 unit coding of section
  10.5.7.4, which reads unit patterns `0b011` to `0b110` as multiples of
  1 minute: the table has no entry for them, so they read "Invalid value"
  (`AtUnitsOfOctet`).
- `edrx_time` gives pattern `0b1111` as "10485.88 sec (174 min)", where
  section 10.5.5.32 gives 10485.76 seconds (2048 times 5.12 seconds)
  (`EdrxTime`).

## Model

| member | source | states |
|---|---|---|
| Strings.StripTrailing | aerismodsdk/quectel.py:54 | `rstrip(chars)`: the result is a prefix of the text, it does not end in a stripped character, and every character removed belongs to the set |
| Strings.StripLeading | aerismodsdk/quectel.py:111 | the leading half of `strip(chars)`: the result is a suffix, it does not start with a stripped character, and every character removed belongs to the set |
| Strings.Strip | aerismodsdk/quectel.py:111 | `strip(chars)`: the result is no longer than the text, neither starts nor ends with a stripped character, and is empty exactly when every character of the text is one |
| Strings.StripOf | aerismodsdk/quectel.py:111 | stripped characters on both sides of a body that starts and ends with kept characters strip back to exactly the body |
| Strings.StripTrailingOf | aerismodsdk/quectel.py:54 | a body ending in a kept character, followed by any run of stripped characters, strips back to exactly the body |
| Strings.StripLeadingOf | aerismodsdk/quectel.py:111 | a run of stripped characters before a body that starts with a kept character strips back to exactly the body |
| Strings.LastIndexOf | aerismodsdk/quectel.py:55 | `rfind`: an index at which the prefix occurs and after which it never occurs, or -1, which happens only for a non-empty prefix |
| Strings.SliceFrom | aerismodsdk/quectel.py:56 | `s[start:len(s)]`: `len(s) - start` characters (none once `start` is past the end), the `k`-th being `s[start + k]`, and `s[:start] + s[start:] == s` |
| Strings.Split | aerismodsdk/quectel.py:57 | `split(',')`: one more piece than there are commas, no piece holds a comma, and joining the pieces with commas gives the text back |
| Strings.SplitJoin | aerismodsdk/quectel.py:57 | splitting the comma-join of comma-free pieces gives the pieces back |
| Quectel.ParseResponse | aerismodsdk/quectel.py:53-59 | there is always at least one value, and no value holds a comma |
| Quectel.ParseResponseFound | aerismodsdk/quectel.py:53-59 | when the prefix occurs, the values re-joined are the stripped reply after the last occurrence, and there is one more value than that text has commas |
| Quectel.ParseResponseAbsent | aerismodsdk/quectel.py:55-57 | when the prefix does not occur, no error: the values re-joined are the stripped reply from index `len(prefix) - 1` on |
| Quectel.ParseResponseRoundTrip | aerismodsdk/quectel.py:53-59 | leading text, the prefix, comma-separated values and a tail of "OK"/CR/LF characters parse back to exactly those values |
| Quectel.TimerUnits | aerismodsdk/quectel.py:70-72 | `value & 0b11100000` is 32 times bits 6 to 8 of the value |
| Quectel.Magnitude | aerismodsdk/quectel.py:114 | `value & 0b00011111` is the value modulo 32 |
| Quectel.TimerOctetSplit | aerismodsdk/quectel.py:70-72 | units plus magnitude rebuild the octet with no bit shared; the units have no magnitude bits; taking units twice changes nothing |
| Quectel.TimerOctetCompose | aerismodsdk/quectel.py:113-114 | an octet built from a unit pattern and a five-bit value yields both back, independently |
| Quectel.TauUnits | aerismodsdk/quectel.py:75-84 | a label other than "Invalid value" exactly for the seven keys; "invalid" exactly for `0b11100000` |
| Quectel.TauUnitsOfOctet | aerismodsdk/quectel.py:113 | of the eight unit patterns of a TAU octet only `0b101` falls to the default, and `0b111` reads "invalid" |
| Quectel.AtUnits | aerismodsdk/quectel.py:87-93 | a label other than "Invalid value" exactly for the four keys |
| Quectel.AtUnitsOfOctet | aerismodsdk/quectel.py:116 | unit patterns `0b011` to `0b110` of an active-time octet fall to the default, and only they do |
| Quectel.PsmMode | aerismodsdk/quectel.py:61-67 | a label other than "Invalid value" exactly for 1, 2, 4 and 8 |
| Quectel.ActType | aerismodsdk/quectel.py:151-158 | `None` exactly for 0; "Invalid value" exactly outside 0, 2, 3, 4, 5 |
| Quectel.EdrxTime | aerismodsdk/quectel.py:161-179 | a label other than "Invalid value" exactly for the sixteen 4-bit patterns |
| Quectel.PagingTime | aerismodsdk/quectel.py:182-200 | a label other than "Invalid value" exactly for the sixteen 4-bit patterns |
| Quectel.BinaryField | aerismodsdk/quectel.py:111 | `int(field.strip('"'), 2)` succeeds exactly when what is left between the quotes is a non-empty string of binary digits, and a field of `n` characters reads as less than `2^n` |
| Quectel.QuotesOnlyRejected | aerismodsdk/quectel.py:111 | a field of quotes only, such as the empty quoted timer `""`, strips to nothing and does not decode |
| Quectel.QuotedBinaryRoundTrip | aerismodsdk/quectel.py:111 | `int(field.strip('"'), 2)` reads a quoted bit string of any width back as the number it spells |
| Quectel.QuotedOctetRoundTrip | aerismodsdk/quectel.py:115 | the same for the eight-bit timer octets |
| Quectel.QuotedNibbleRoundTrip | aerismodsdk/quectel.py:210-212 | the same for the four-bit eDRX and paging patterns |
| Quectel.DecimalFieldRoundTrip | aerismodsdk/quectel.py:208 | `int(field.strip('"'))` reads any number written in decimal back |
| Quectel.DecodeQpsmcfg | aerismodsdk/quectel.py:98-101 | a decoded reply had at least two values, and its second value is a decimal number |
| Quectel.QpsmcfgRoundTrip | aerismodsdk/quectel.py:98-101 | a `+QPSMCFG` reply decodes to its threshold text (with the blank after the colon) and the `psm_mode` label of its mode number, for every number |
| Quectel.DecodeCpsms | aerismodsdk/quectel.py:109-117 | a decoded reply had at least five values, and both timer values are below 32 |
| Quectel.CpsmsValues | aerismodsdk/quectel.py:110 | a `+CPSMS` reply is cut into its five values, whatever the RAU and READY timer values hold |
| Quectel.CpsmsRoundTrip | aerismodsdk/quectel.py:109-117 | a `+CPSMS` reply carrying two timer octets decodes to its enabled field, the TAU and active-time unit labels of the octets, and their low five bits, whatever the RAU and READY timer values between them hold |
| Quectel.DecodeEdrxRdp | aerismodsdk/quectel.py:206-212 | a full eDRX report was decoded from at least four values |
| Quectel.DecodeEdrxValues | aerismodsdk/quectel.py:208-212 | the same, on the values already split |
| Quectel.DecodePatterns | aerismodsdk/quectel.py:210-212 | never reports "no technology", and gives a full report exactly when all three pattern values parse |
| Quectel.NoTechnologyOfFields | aerismodsdk/quectel.py:208-209 | a first value that reads as technology 0 stops the decoding, whatever values follow |
| Quectel.DecodeEdrxFields | aerismodsdk/quectel.py:208-212 | four values that parse decode to no technology for 0, and otherwise to the technology label and the three pattern labels |
| Quectel.DecodeEdrxRdpOfValues | aerismodsdk/quectel.py:208-212 | the four values of a `+CEDRXRDP` answer, with any technology number, decode to the labels of the patterns they carry |
| Quectel.EdrxRdpRoundTrip | aerismodsdk/quectel.py:206-212 | a `+CEDRXRDP` reply with any technology number decodes to no technology for 0 and otherwise to the technology label (possibly "Invalid value") and the labels of its three patterns |
| Bits.BitAnd | aerismodsdk/quectel.py:71 | `a & b` on non-negative integers is at most either operand |
| Bits.BitAndLowMask | aerismodsdk/quectel.py:114 | masking with `2^n - 1` gives the value modulo `2^n` |
| Bits.BitAndHighThree | aerismodsdk/quectel.py:71 | masking with `0b11100000` gives 32 times bits 6 to 8 |
| Bits.ParseBinary | aerismodsdk/quectel.py:111 | `int(s, 2)` succeeds exactly on a non-empty string of binary digits |
| Bits.BinaryValue | aerismodsdk/quectel.py:111 | the value of `n` binary digits is below `2^n` |
| Bits.BinaryRoundTrip | aerismodsdk/quectel.py:111 | reading back `n` written in `width` binary digits gives `n` |
| Bits.ParseDecimal | aerismodsdk/quectel.py:208 | `int(s)` succeeds exactly on a non-empty string of decimal digits |
| Bits.ToDecimal | aerismodsdk/quectel.py:208 | `str(n)`: a non-empty string of decimal digits with no leading zero |
| Bits.DecimalRoundTrip | aerismodsdk/quectel.py:208 | `int(str(n)) == n` for every `n` |
| RmUtils.Port.InWaiting | aerismodsdk/rmutils.py:59 | `inWaiting()` is the number of received, unread bytes |
| RmUtils.Port.Read | aerismodsdk/rmutils.py:64 | `read()[0]` takes the oldest received byte and logs the read; time does not move |
| RmUtils.Port.WriteBytes | aerismodsdk/rmutils.py:50 | `ser.write` logs the bytes and changes nothing else |
| RmUtils.Port.Sleep | aerismodsdk/rmutils.py:56 | `time.sleep` moves the clock, and appends to the received bytes exactly what has arrived meanwhile, in order |
| RmUtils.DeliveredInSteps | aerismodsdk/rmutils.py:59-61 | sleeping in two steps delivers the same bytes, in the same order, as one sleep to the same time |
| RmUtils.DeliveredGrows | aerismodsdk/rmutils.py:59-61 | what has arrived by an earlier time is a prefix of what has arrived by a later one |
| RmUtils.WaitEnd | aerismodsdk/rmutils.py:57-62 | the wait ends no earlier than it is asked about |
| RmUtils.WaitEndBounds | aerismodsdk/rmutils.py:57-62 | the wait ends on a 50 ms step within one second of its start, and then a byte is waiting or the second is up |
| RmUtils.WaitEndFirst | aerismodsdk/rmutils.py:59 | no byte was waiting at any earlier poll: the wait stops at the first chance |
| RmUtils.NothingArrives | aerismodsdk/rmutils.py:59-65 | when nothing arrives within the second, the wait runs the full second and nothing is captured |
| RmUtils.NothingCaptured | aerismodsdk/rmutils.py:59-65 | when nothing has arrived a second after polling began, the exchange reads nothing back |
| RmUtils.QuietReply | aerismodsdk/rmutils.py:59-65 | with a codec that decodes no bytes to `""`, as UTF-8 does, an exchange that gets no reply within the second decodes to `""` |
| RmUtils.AlreadyWaiting | aerismodsdk/rmutils.py:59 | a byte already waiting ends the wait at once, with no poll |
| RmUtils.AwaitReply | aerismodsdk/rmutils.py:57-62 | the polling loop stops at `StopTime`, sleeps `PollCount` polls of 50 ms, reads nothing, and leaves waiting what has arrived by then |
| RmUtils.Drain | aerismodsdk/rmutils.py:63-64 | the read loop returns exactly the waiting bytes, oldest first, empties the queue and does not move the clock |
| RmUtils.SendCommand | aerismodsdk/rmutils.py:49-56 | the framed command is written, then the settle sleep happens when the delay is positive |
| RmUtils.SendAndCapture | aerismodsdk/rmutils.py:49-64 | the command half returns the bytes waiting when the wait stops, leaves the queue empty, and keeps later arrivals on their way |
| RmUtils.FinishPayload | aerismodsdk/rmutils.py:66-71 | the payload step when there is a payload, and no change at all otherwise |
| RmUtils.SendPayload | aerismodsdk/rmutils.py:69-71 | pause one second, write the payload, pause one second |
| RmUtils.Write | aerismodsdk/rmutils.py:46-73 | for a codec that decodes no bytes to `""`: the result decodes exactly the captured bytes, and is `""` when nothing is captured; the trace is the whole exchange; the clock is the wait's end plus two seconds with a payload; arrivals after the wait stay queued or on their way |
| RmUtils.ExchangeWrites | aerismodsdk/rmutils.py:50-70 | one write without a payload (the framed command), two with one (the command, then the payload) |
| RmUtils.ExchangeReads | aerismodsdk/rmutils.py:63-65 | the bytes read in an exchange are exactly those captured |
| RmUtils.ExchangeSleeps | aerismodsdk/rmutils.py:55-71 | the time slept is the delay, 50 ms per poll, and two seconds around a payload |
| RmUtils.ExchangeOrder | aerismodsdk/rmutils.py:49-71 | the command is written first; the settle sleep follows it exactly when the delay is positive; every byte is read before the payload is written |
| RmUtils.PayloadSteps | aerismodsdk/rmutils.py:69-71 | the payload step writes the payload once, reads nothing and sleeps two seconds |

## Left out

- Opening the serial port (`open_serial`), USB and port discovery
  (`find_modem`, `find_serial`), `init`, `init_modem`, `interactive` and
  `create_packet_session` (which sends `AT+QIACT` commands and only
  branches on the length of the reply) are not part of this model.
  Neither are the quectel.py commands that chain `write` calls and print:
  `check_modem`, `http_get` (which also resends `AT+QISTATE` once when
  the reply does not mention "TCP"), `icmp_ping`, `dns_lookup`,
  `psm_enable`, `psm_now` and `edrx_enable`.
  `wait_urc` and `get_http_packet`, which they call, are not part of this
  model either.
- `print` calls (the echoes `>> cmd`, `<< out`, "Elapsed time" and the
  reports of `psm_info` and `edrx_info`) are output only.
- `psm_info` and `edrx_info` are modelled from their decode steps on. A
  failing decode is a `None` or `DecodeFailed` result rather than an
  exception, without the lines printed before it.
- `psm_info` as written never reaches its decode steps. At
  aerismodsdk/quectel.py:97-98 it passes `verbose=` to `init_modem` and
  `write`, which take no such argument, so Python raises `TypeError`
  first. `DecodeQpsmcfg` and `DecodeCpsms` model the decode steps as the
  function would run once those calls succeed. (`dns_lookup` likewise
  passes `timeout=` to `write` at line 50.)
- The `+QPSMS` and `+QCFG` queries in `psm_info` only print fields of the
  parsed values, so beyond `ParseResponse` they are not modelled.
- Bits.ParseDecimal, Bits.ParseBinary: Python `int()` also accepts
  surrounding whitespace, a sign and underscores; `int(s, 2)` also accepts
  a `0b` prefix, and base-10 `int(s)` also accepts non-ASCII decimal
  digits. The model accepts plain ASCII digit strings only.
- RmUtils.Write: `delay` is whole milliseconds rather than float seconds.
  Elapsed time is the clock difference, exactly 50 ms per poll, with no
  drift from real time.
- RmUtils.Write: the UTF-8 encoding and decoding are an abstract `Codec`
  passed in. A decoding failure (Python's `UnicodeDecodeError`) is `None`,
  and the payload is then not written. The codec is required to decode no
  bytes to `""`, as UTF-8 does.
- RmUtils.Port: the modem's replies are a schedule fixed in advance. Bytes
  reach the port only while the caller sleeps. The serial driver's own
  one-second read timeout never comes into play, because `read()` is only
  called when a byte is waiting.
