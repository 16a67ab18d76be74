/**
 Decoders for the answers a Quectel modem gives to AT queries: splitting a
 reply into its comma-separated values after a known prefix, the PSM timer
 bitfields of the +CPSMS answer (3GPP TS 24.008, sections 10.5.7.4a and
 10.5.7.4), the access-technology, PSM-mode, eDRX-cycle and paging-time tables
 (3GPP TS 24.008, section 10.5.5.32; 3GPP TS 27.007, sections 7.38, 7.40 and
 7.41), and the decode steps of the PSM and eDRX status queries.

 The tables are kept as the module defines them, including where they depart
 from TS 24.008: the GPRS Timer 3 unit table has no entry for 0b101 (one
 minute there), maps 0b110 to "1 min" (320 hours there), and labels 0b111
 "invalid" (deactivated there); the GPRS Timer 2 active-time table has no
 entry for 0b011 to 0b110 (multiples of one minute there); the eDRX table
 gives pattern 0b1111 as "10485.88 sec" where section 10.5.5.32 gives
 10485.76 seconds (2048 times 5.12 seconds).
 */
module Quectel {
  import opened Wrappers
  import opened Strings
  import opened Bits

  /** The characters `parse_response` strips from the end of a reply:
      the letters of "OK" and the line terminators, in any order. */
  const AckChars: set<char> := {'O', 'K', '\r', '\n'}

  /** The default of every lookup table. */
  const InvalidValue := "Invalid value"

  /** The reply with its trailing acknowledgement characters removed. */
  function Stripped(response: string): string
  {
    StripTrailing(response, AckChars)
  }

  // ---------------------------------------------------------------------------
  // parse_response

  /** The values that follow the last occurrence of `prefix` in the reply.
      When `prefix` does not occur, `rfind` gives -1 and the values are read
      from index `|prefix| - 1`: no error is raised. */
  function ParseResponse(response: string, prefix: string): (vals: seq<string>)
    ensures |vals| >= 1
    ensures forall k :: 0 <= k < |vals| ==> ',' !in vals[k]
  {
    var stripped := Stripped(response);
    var start := LastIndexOf(stripped, prefix) + |prefix|;
    Split(SliceFrom(stripped, start), ',')
  }

  /** When the prefix occurs, the values are the text after its last
      occurrence, cut at every comma. */
  lemma ParseResponseFound(response: string, prefix: string, i: nat)
    requires OccursAt(Stripped(response), prefix, i)
    requires forall j :: i < j ==> !OccursAt(Stripped(response), prefix, j)
    ensures Join(ParseResponse(response, prefix), ',') == Stripped(response)[i + |prefix|..]
    ensures |ParseResponse(response, prefix)| == Count(Stripped(response)[i + |prefix|..], ',') + 1
  {
  }

  /** When the prefix is absent, the values are read from index
      `|prefix| - 1` onward (nothing at all if the reply is shorter). */
  lemma ParseResponseAbsent(response: string, prefix: string)
    requires forall j :: !OccursAt(Stripped(response), prefix, j)
    ensures |prefix| > 0
    ensures Join(ParseResponse(response, prefix), ',') == SliceFrom(Stripped(response), |prefix| - 1)
  {
    if |prefix| == 0 {
      assert OccursAt(Stripped(response), prefix, 0);
    }
  }

  /** A reply made of any leading text, the prefix, comma-separated values and
      a trailing "OK" with line terminators parses back to those values,
      provided the prefix's first character cannot start a later match. */
  lemma ParseResponseRoundTrip(head: string, prefix: string, fields: seq<string>, tail: string)
    requires |prefix| > 0 && prefix[0] != ',' && prefix[0] !in prefix[1..]
    requires |fields| >= 1
    requires forall k :: 0 <= k < |fields| ==> ',' !in fields[k] && prefix[0] !in fields[k]
    requires forall k :: 0 <= k < |tail| ==> tail[k] in AckChars
    requires (head + prefix + Join(fields, ','))[|head + prefix + Join(fields, ',')| - 1] !in AckChars
    ensures ParseResponse(head + prefix + Join(fields, ',') + tail, prefix) == fields
  {
    var values := Join(fields, ',');
    var body := head + prefix + values;
    StripTrailingOf(body, tail, AckChars);
    assert Stripped(head + prefix + values + tail) == body;
    NotInJoin(fields, ',', prefix[0]);
    assert OccursAt(body, prefix, |head|) by {
      assert body[|head|..|head| + |prefix|] == prefix;
    }
    forall j | |head| < j
      ensures !OccursAt(body, prefix, j)
    {
      if j + |prefix| <= |body| {
        if j < |head| + |prefix| {
          assert body[j] == prefix[1..][j - |head| - 1];
        } else {
          assert body[j] == values[j - |head| - |prefix|];
        }
        assert body[j..j + |prefix|][0] == body[j] != prefix[0];
      }
    }
    var r := LastIndexOf(body, prefix);
    assert r == |head|;
    assert SliceFrom(body, r + |prefix|) == values;
    SplitJoin(fields, ',');
  }

  // ---------------------------------------------------------------------------
  // Timer bitfields

  /** `timer_units`: the unit bits 8 to 6 of a GPRS timer octet, in place. */
  function TimerUnits(value: nat): (units: nat)
    ensures units == 32 * ((value / 32) % 8)
  {
    BitAndHighThree(value);
    BitAnd(value, 0xE0)
  }

  /** The timer value bits 5 to 1 (`value & 0b00011111`). */
  function Magnitude(value: nat): (m: nat)
    ensures m == value % 32
  {
    BitAndLowMask(value, 5);
    BitAnd(value, 0x1F)
  }

  /** Units and value split an octet without loss and without overlap, and
      taking the units is idempotent. */
  lemma TimerOctetSplit(v: nat)
    ensures TimerUnits(v) + Magnitude(v) == v % 256
    ensures Magnitude(TimerUnits(v)) == 0
    ensures TimerUnits(TimerUnits(v)) == TimerUnits(v)
    ensures v < 256 ==> TimerUnits(v) + Magnitude(v) == v
  {
    var k := (v / 32) % 8;
    ModProduct(v, 32, 8);
    assert TimerUnits(v) == 32 * k;
    DivModUnique(32 * k, 32, k, 0);
    DivModUnique(k, 8, 0, k);
    if v < 256 {
      DivModUnique(v, 256, 0, v);
    }
  }

  /** The octet built from a unit pattern and a value gives both back:
      the value does not depend on the units. */
  lemma TimerOctetCompose(units: nat, value: nat)
    requires units % 32 == 0 && units < 256 && value < 32
    ensures TimerUnits(units + value) == units
    ensures Magnitude(units + value) == value
  {
    var q := units / 32;
    assert units == 32 * q;
    DivModUnique(units + value, 32, q, value);
    DivModUnique(q, 8, 0, q);
  }

  /** `tau_units`: the periodic tracking-area-update unit label. */
  function TauUnits(i: int): (text: string)
    ensures text != InvalidValue <==> i in {0x00, 0x20, 0x40, 0x60, 0x80, 0xC0, 0xE0}
    ensures text == "invalid" <==> i == 0xE0
  {
    match i
    case 0x00 => "10 min"
    case 0x20 => "1 hr"
    case 0x40 => "10 hrs"
    case 0x60 => "2 sec"
    case 0x80 => "30 secs"
    case 0xC0 => "1 min"
    case 0xE0 => "invalid"
    case _ => InvalidValue
  }

  /** `at_units`: the active-time unit label. */
  function AtUnits(i: int): (text: string)
    ensures text != InvalidValue <==> i in {0x00, 0x20, 0x40, 0xE0}
  {
    match i
    case 0x00 => "2 sec"
    case 0x20 => "1 min"
    case 0x40 => "decihour (6 min)"
    case 0xE0 => "deactivated"
    case _ => InvalidValue
  }

  /** Of the eight unit patterns of a TAU octet, only 0b101 has no label, and
      0b111 has the label "invalid". */
  lemma TauUnitsOfOctet(v: nat)
    ensures TauUnits(TimerUnits(v)) == InvalidValue <==> (v / 32) % 8 == 5
    ensures TauUnits(TimerUnits(v)) == "invalid" <==> (v / 32) % 8 == 7
  {
  }

  /** Of the eight unit patterns of an active-time octet, 0b011 to 0b110 have
      no label. */
  lemma AtUnitsOfOctet(v: nat)
    ensures AtUnits(TimerUnits(v)) == InvalidValue <==> 3 <= (v / 32) % 8 <= 6
  {
  }

  // ---------------------------------------------------------------------------
  // Enumerations

  /** `psm_mode`: the PSM mode reported by +QPSMCFG. */
  function PsmMode(i: int): (text: string)
    ensures text != InvalidValue <==> i in {1, 2, 4, 8}
  {
    match i
    case 0x1 => "PSM without network coordination"
    case 0x2 => "Rel 12 PSM without context retention"
    case 0x4 => "Rel 12 PSM with context retention"
    case 0x8 => "PSM in between eDRX cycles"
    case _ => InvalidValue
  }

  /** `act_type`: the access technology; `None` for 0 (Python's `None`). */
  function ActType(i: int): (t: Option<string>)
    ensures t == None <==> i == 0
    ensures t == Some(InvalidValue) <==> i !in {0, 2, 3, 4, 5}
  {
    match i
    case 0 => None
    case 2 => Some("GSM")
    case 3 => Some("UTRAN")
    case 4 => Some("LTE CAT M1")
    case 5 => Some("LTE CAT NB1")
    case _ => Some(InvalidValue)
  }

  /** `edrx_time`: the eDRX cycle length of a 4-bit pattern, as written
      (0b1111 reads "10485.88 sec", not the standard's 10485.76). */
  function EdrxTime(i: int): (text: string)
    ensures text != InvalidValue <==> 0 <= i <= 15
  {
    match i
    case 0x0 => "5.12 sec"
    case 0x1 => "10.24 sec"
    case 0x2 => "20.48 sec"
    case 0x3 => "40.96 sec"
    case 0x4 => "61.44 sec"
    case 0x5 => "81.92 sec"
    case 0x6 => "102.4 sec"
    case 0x7 => "122.88 sec"
    case 0x8 => "143.36 sec"
    case 0x9 => "163.84 sec"
    case 0xA => "327.68 sec (5.5 min)"
    case 0xB => "655.36 sec (10.9 min)"
    case 0xC => "1310.72 sec (21 min)"
    case 0xD => "2621.44 sec (43 min)"
    case 0xE => "5242.88 sec (87 min)"
    case 0xF => "10485.88 sec (174 min)"
    case _ => InvalidValue
  }

  /** `paging_time`: the paging time window of a 4-bit pattern. */
  function PagingTime(i: int): (text: string)
    ensures text != InvalidValue <==> 0 <= i <= 15
  {
    match i
    case 0x0 => "1.28 sec"
    case 0x1 => "2.56 sec"
    case 0x2 => "3.84 sec"
    case 0x3 => "5.12 sec"
    case 0x4 => "6.4 sec"
    case 0x5 => "7.68 sec"
    case 0x6 => "8.96 sec"
    case 0x7 => "10.24 sec"
    case 0x8 => "11.52 sec"
    case 0x9 => "12.8 sec"
    case 0xA => "14.08 sec"
    case 0xB => "15.36 sec"
    case 0xC => "16.64 sec"
    case 0xD => "17.92 sec"
    case 0xE => "19.20 sec"
    case 0xF => "20.48 sec"
    case _ => InvalidValue
  }

  // ---------------------------------------------------------------------------
  // Decode steps of the PSM and eDRX status queries

  const QuoteChars: set<char> := {'"'}

  /** A field between double quotes, as the modem reports bit strings. */
  function Quoted(s: string): string
  {
    ['"'] + s + ['"']
  }

  /** `int(field.strip('"'), 2)`: `None` where Python raises `ValueError`.
      A field decodes exactly when what is left once the quotes are
      stripped is a non-empty string of binary digits, and a field of `n`
      characters never reads as more than `n` bits. */
  function BinaryField(field: string): (r: Option<nat>)
    ensures r.Some? <==> Strip(field, QuoteChars) != [] && IsBinary(Strip(field, QuoteChars))
    ensures r.Some? ==> r.value < Pow2(|field|)
  {
    var digits := Strip(field, QuoteChars);
    Pow2Monotone(|digits|, |field|);
    ParseBinary(digits)
  }

  /** A field made only of quotes, such as the empty quoted timer `""`,
      strips to nothing and does not decode. */
  lemma QuotesOnlyRejected(field: string)
    requires forall k :: 0 <= k < |field| ==> field[k] == '"'
    ensures Strip(field, QuoteChars) == []
    ensures BinaryField(field) == None
  {
    assert AllIn(field, QuoteChars);
  }

  /** A quoted string of binary digits reads back as the number it spells. */
  lemma QuotedBinaryRoundTrip(n: nat, width: nat)
    requires 0 < width && n < Pow2(width)
    ensures BinaryField(Quoted(ToBinary(n, width))) == Some(n)
  {
    var digits := ToBinary(n, width);
    StripOf(['"'], digits, ['"'], QuoteChars);
    BinaryRoundTrip(n, width);
  }

  /** The four-bit case, as in the eDRX patterns. */
  lemma QuotedNibbleRoundTrip(n: nat)
    requires n < 16
    ensures BinaryField(Quoted(ToBinary(n, 4))) == Some(n)
  {
    assert Pow2(4) == 16;
    QuotedBinaryRoundTrip(n, 4);
  }

  /** The eight-bit case, as in the PSM timer octets. */
  lemma QuotedOctetRoundTrip(n: nat)
    requires n < 256
    ensures BinaryField(Quoted(ToBinary(n, 8))) == Some(n)
  {
    assert Pow2(8) == 256;
    QuotedBinaryRoundTrip(n, 8);
  }

  /** `int(field.strip('"'))` reads a number written in decimal back. */
  lemma DecimalFieldRoundTrip(n: nat)
    ensures ParseDecimal(Strip(ToDecimal(n), QuoteChars)) == Some(n)
  {
    var digits := ToDecimal(n);
    assert [] + digits + [] == digits;
    StripOf([], digits, [], QuoteChars);
    DecimalRoundTrip(n);
  }

  /** A quoted bit string holds neither a comma nor a plus sign. */
  lemma QuotedBinaryChars(digits: string)
    requires IsBinary(digits)
    ensures ',' !in Quoted(digits) && '+' !in Quoted(digits)
  {
    assert forall k :: 0 <= k < |Quoted(digits)| ==> Quoted(digits)[k] in {'"', '0', '1'} by {
      forall k | 0 <= k < |Quoted(digits)|
        ensures Quoted(digits)[k] in {'"', '0', '1'}
      {
        if 0 < k < |digits| + 1 {
          assert Quoted(digits)[k] == digits[k - 1];
        }
      }
    }
  }

  /** A string of decimal digits holds neither a comma nor a plus sign, and
      does not end in a character `parse_response` strips. */
  lemma DecimalChars(digits: string)
    requires digits != [] && IsDecimal(digits)
    ensures ',' !in digits && '+' !in digits && digits[|digits| - 1] !in AckChars
  {
  }

  /** What the +QPSMCFG query yields in `psm_info`: the minimum time before
      entering PSM (the first value, undecoded) and the PSM mode label. */
  datatype PsmConfig = PsmConfig(threshold: string, mode: string)

  const QpsmcfgPrefix := "+QPSMCFG:"

  /** The decode step of the +QPSMCFG query in `psm_info`: `None` where the
      source raises (fewer than two values, or a mode that is not a number). */
  function DecodeQpsmcfg(response: string): (r: Option<PsmConfig>)
    ensures r.Some? ==> |ParseResponse(response, QpsmcfgPrefix)| >= 2
    ensures r.Some? ==> ParseDecimal(ParseResponse(response, QpsmcfgPrefix)[1]).Some?
  {
    var vals := ParseResponse(response, QpsmcfgPrefix);
    if |vals| < 2 then None
    else match ParseDecimal(vals[1])
      case None => None
      case Some(mode) => Some(PsmConfig(vals[0], PsmMode(mode)))
  }

  /** A +QPSMCFG answer after any earlier text `head`: the threshold text and
      the mode number. */
  function QpsmcfgReply(head: string, threshold: string, mode: nat): string
  {
    head + QpsmcfgPrefix + Join([" " + threshold, ToDecimal(mode)], ',') + "\r\n\r\nOK\r\n"
  }

  /** Decoding a +QPSMCFG answer gives back its threshold text (with the
      blank after the colon) and the label of its mode. */
  lemma QpsmcfgRoundTrip(head: string, threshold: string, mode: nat)
    requires ',' !in threshold && '+' !in threshold
    ensures DecodeQpsmcfg(QpsmcfgReply(head, threshold, mode))
      == Some(PsmConfig(" " + threshold, PsmMode(mode)))
  {
    var digits := ToDecimal(mode);
    var fields := [" " + threshold, digits];
    DecimalChars(digits);
    assert ',' !in " " + threshold && '+' !in " " + threshold;
    assert forall k :: 0 <= k < |fields| ==> ',' !in fields[k] && '+' !in fields[k];
    JoinEndsWithLast(fields, ',');
    var body := head + QpsmcfgPrefix + Join(fields, ',');
    assert body[|body| - 1] == digits[|digits| - 1];
    ParseResponseRoundTrip(head, QpsmcfgPrefix, fields, "\r\n\r\nOK\r\n");
    DecimalRoundTrip(mode);
  }

  /** What the +CPSMS query yields: whether PSM is enabled (the first value,
      undecoded), and the unit label and value of the requested TAU timer
      (GPRS Timer 3) and active time (GPRS Timer 2). */
  datatype PsmTimers = PsmTimers(
    enabled: string,
    tauUnits: string, tauValue: nat,
    activeUnits: string, activeValue: nat)

  const CpsmsPrefix := "+CPSMS:"

  /** The decode step of the +CPSMS query in `psm_info`: `None` where the
      source raises (too few values, or a timer field that is not a quoted
      bit string). */
  function DecodeCpsms(response: string): (r: Option<PsmTimers>)
    ensures r.Some? ==> |ParseResponse(response, CpsmsPrefix)| >= 5
    ensures r.Some? ==> r.value.tauValue < 32 && r.value.activeValue < 32
  {
    var vals := ParseResponse(response, CpsmsPrefix);
    if |vals| < 5 then None
    else
      var tau := BinaryField(vals[3]);
      var active := BinaryField(vals[4]);
      if tau.None? || active.None? then None
      else Some(PsmTimers(
        vals[0],
        TauUnits(TimerUnits(tau.value)), Magnitude(tau.value),
        AtUnits(TimerUnits(active.value)), Magnitude(active.value)))
  }

  /** A +CPSMS answer after any earlier text `head`: the mode, the requested
      periodic-RAU and GPRS-READY timers (any text), and the requested
      periodic-TAU and active-time octets. */
  function CpsmsReply(head: string, mode: string, rau: string, ready: string, tau: nat, active: nat): string
  {
    head + CpsmsPrefix
    + Join([" " + mode, rau, ready, Quoted(ToBinary(tau, 8)), Quoted(ToBinary(active, 8))], ',')
    + "\r\n\r\nOK\r\n"
  }

  /** Decoding a +CPSMS answer gives back the units and values of the two
      timer octets it carries, whatever the RAU and READY timers hold. */
  lemma CpsmsRoundTrip(head: string, mode: string, rau: string, ready: string, tau: nat, active: nat)
    requires tau < 256 && active < 256
    requires ',' !in mode && '+' !in mode
    requires ',' !in rau && '+' !in rau && ',' !in ready && '+' !in ready
    ensures DecodeCpsms(CpsmsReply(head, mode, rau, ready, tau, active)) == Some(PsmTimers(
      " " + mode,
      TauUnits(TimerUnits(tau)), tau % 32,
      AtUnits(TimerUnits(active)), active % 32))
  {
    CpsmsValues(head, mode, rau, ready, tau, active);
    QuotedOctetRoundTrip(tau);
    QuotedOctetRoundTrip(active);
  }

  /** The values such an answer is cut into. */
  lemma CpsmsValues(head: string, mode: string, rau: string, ready: string, tau: nat, active: nat)
    requires ',' !in mode && '+' !in mode
    requires ',' !in rau && '+' !in rau && ',' !in ready && '+' !in ready
    ensures ParseResponse(CpsmsReply(head, mode, rau, ready, tau, active), CpsmsPrefix)
      == [" " + mode, rau, ready, Quoted(ToBinary(tau, 8)), Quoted(ToBinary(active, 8))]
  {
    var t, a := ToBinary(tau, 8), ToBinary(active, 8);
    var fields := [" " + mode, rau, ready, Quoted(t), Quoted(a)];
    QuotedBinaryChars(t);
    QuotedBinaryChars(a);
    assert ',' !in " " + mode && '+' !in " " + mode;
    assert forall k :: 0 <= k < |fields| ==> ',' !in fields[k] && '+' !in fields[k];
    JoinEndsWithLast(fields, ',');
    var body := head + CpsmsPrefix + Join(fields, ',');
    assert body[|body| - 1] == Quoted(a)[|Quoted(a)| - 1] == '"';
    ParseResponseRoundTrip(head, CpsmsPrefix, fields, "\r\n\r\nOK\r\n");
  }

  /** What the +CEDRXRDP query yields in `edrx_info`. */
  datatype EdrxReport =
    | DecodeFailed     // the source raises: a value is missing or not a number
    | NoTechnology     // access technology 0: nothing further is decoded
    | Edrx(technology: string, requestedCycle: string, networkCycle: string, pagingTime: string)

  const EdrxRdpPrefix := "+CEDRXRDP: "

  /** The decode step of the +CEDRXRDP query in `edrx_info`. */
  function DecodeEdrxRdp(response: string): (r: EdrxReport)
    ensures r.Edrx? ==> |ParseResponse(response, EdrxRdpPrefix)| >= 4
  {
    DecodeEdrxValues(ParseResponse(response, EdrxRdpPrefix))
  }

  /** The same, once the answer has been cut into its values. */
  function DecodeEdrxValues(vals: seq<string>): (r: EdrxReport)
    requires |vals| >= 1
    ensures r.Edrx? ==> |vals| >= 4
  {
    var act := ParseDecimal(Strip(vals[0], QuoteChars));
    if act.None? then DecodeFailed
    else match ActType(act.value)
      case None => NoTechnology
      case Some(technology) =>
        if |vals| < 4 then DecodeFailed
        else DecodePatterns(technology, vals[1], vals[2], vals[3])
  }

  /** The three bit-pattern values, once the access technology is known. */
  function DecodePatterns(technology: string, requested: string, network: string, paging: string)
    : (r: EdrxReport)
    ensures r != NoTechnology
    ensures r.Edrx? <==> BinaryField(requested).Some? && BinaryField(network).Some? && BinaryField(paging).Some?
  {
    var r := BinaryField(requested);
    var n := BinaryField(network);
    var p := BinaryField(paging);
    if r.None? || n.None? || p.None? then DecodeFailed
    else Edrx(technology, EdrxTime(r.value), EdrxTime(n.value), PagingTime(p.value))
  }

  /** A +CEDRXRDP answer after any earlier text `head`: the access technology
      (a decimal number), the requested and network-provided eDRX cycle
      patterns and the paging time pattern, four bits each. */
  function EdrxRdpReply(head: string, act: nat, requested: nat, network: nat, paging: nat): string
  {
    head + EdrxRdpPrefix
    + Join([ToDecimal(act), Quoted(ToBinary(requested, 4)), Quoted(ToBinary(network, 4)),
            Quoted(ToBinary(paging, 4))], ',')
    + "\r\nOK\r\n"
  }

  /** Decoding a +CEDRXRDP answer gives back the labels of the patterns it
      carries; access technology 0 stops the decoding, and any number other
      than 0, 2, 3, 4 and 5 is reported as "Invalid value" while the rest is
      still decoded. */
  lemma EdrxRdpRoundTrip(head: string, act: nat, requested: nat, network: nat, paging: nat)
    requires requested < 16 && network < 16 && paging < 16
    ensures DecodeEdrxRdp(EdrxRdpReply(head, act, requested, network, paging))
      == if act == 0 then NoTechnology
         else Edrx(ActType(act).value, EdrxTime(requested), EdrxTime(network), PagingTime(paging))
  {
    var q, n, p := ToBinary(requested, 4), ToBinary(network, 4), ToBinary(paging, 4);
    var digits := ToDecimal(act);
    var fields := [digits, Quoted(q), Quoted(n), Quoted(p)];
    DecimalChars(digits);
    QuotedBinaryChars(q);
    QuotedBinaryChars(n);
    QuotedBinaryChars(p);
    assert forall k :: 0 <= k < |fields| ==> ',' !in fields[k] && '+' !in fields[k];
    JoinEndsWithLast(fields, ',');
    var body := head + EdrxRdpPrefix + Join(fields, ',');
    assert body[|body| - 1] == Quoted(p)[|Quoted(p)| - 1] == '"';
    ParseResponseRoundTrip(head, EdrxRdpPrefix, fields, "\r\nOK\r\n");
    DecodeEdrxRdpOfValues(act, requested, network, paging);
  }

  /** Decoding four values that each parse. */
  lemma DecodeEdrxFields(digits: string, requested: string, network: string, paging: string,
                         act: nat, r: nat, n: nat, p: nat)
    requires ParseDecimal(Strip(digits, QuoteChars)) == Some(act)
    requires BinaryField(requested) == Some(r) && BinaryField(network) == Some(n)
    requires BinaryField(paging) == Some(p)
    ensures DecodeEdrxValues([digits, requested, network, paging])
      == if act == 0 then NoTechnology
         else Edrx(ActType(act).value, EdrxTime(r), EdrxTime(n), PagingTime(p))
  {
    if act == 0 {
      NoTechnologyOfFields(digits, [requested, network, paging]);
    } else {
      TechnologyOfFields(digits, requested, network, paging, act);
      PatternsOfFields(ActType(act).value, requested, network, paging, r, n, p);
    }
  }

  /** Access technology 0 stops the decoding, whatever follows it. */
  lemma NoTechnologyOfFields(digits: string, rest: seq<string>)
    requires ParseDecimal(Strip(digits, QuoteChars)) == Some(0)
    ensures DecodeEdrxValues([digits] + rest) == NoTechnology
  {
    assert ([digits] + rest)[0] == digits;
  }

  /** Any other access technology goes on to the three patterns. */
  lemma TechnologyOfFields(digits: string, requested: string, network: string, paging: string,
                           act: nat)
    requires ParseDecimal(Strip(digits, QuoteChars)) == Some(act) && act != 0
    ensures DecodeEdrxValues([digits, requested, network, paging])
      == DecodePatterns(ActType(act).value, requested, network, paging)
  {
    var vals := [digits, requested, network, paging];
    assert vals[0] == digits && vals[1] == requested && vals[2] == network && vals[3] == paging;
    assert ActType(act) == Some(ActType(act).value);
  }

  /** Three pattern values that each parse give the full report. */
  lemma PatternsOfFields(technology: string, requested: string, network: string, paging: string,
                         r: nat, n: nat, p: nat)
    requires BinaryField(requested) == Some(r) && BinaryField(network) == Some(n)
    requires BinaryField(paging) == Some(p)
    ensures DecodePatterns(technology, requested, network, paging)
      == Edrx(technology, EdrxTime(r), EdrxTime(n), PagingTime(p))
  {
  }

  /** Decoding the four values of such an answer. */
  lemma DecodeEdrxRdpOfValues(act: nat, requested: nat, network: nat, paging: nat)
    requires requested < 16 && network < 16 && paging < 16
    ensures DecodeEdrxValues([ToDecimal(act), Quoted(ToBinary(requested, 4)), Quoted(ToBinary(network, 4)),
                              Quoted(ToBinary(paging, 4))])
      == if act == 0 then NoTechnology
         else Edrx(ActType(act).value, EdrxTime(requested), EdrxTime(network), PagingTime(paging))
  {
    DecimalFieldRoundTrip(act);
    QuotedNibbleRoundTrip(requested);
    QuotedNibbleRoundTrip(network);
    QuotedNibbleRoundTrip(paging);
    DecodeEdrxFields(ToDecimal(act), Quoted(ToBinary(requested, 4)), Quoted(ToBinary(network, 4)),
                     Quoted(ToBinary(paging, 4)), act, requested, network, paging);
  }
}
