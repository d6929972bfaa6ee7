/**
 * What findk4.py does with one received datagram: the `k4` prefix test,
 * the UTF-8 decode, the split into four colon-separated fields and the
 * report line with the zero-padded serial number.
 */
module K4Reply {
  import opened Wrappers
  import opened Utf8
  import opened PyText

  /** `K4_RETURN_START = b'k4'`: every K4 reply begins with these bytes. */
  const K4ReturnStart: seq<byte> := [0x6B, 0x34]
  /** `RETURN_DELIMITER`: the separator between the reply's fields. */
  const ReturnDelimiter: char := ':'
  /** The width the serial number is zero-padded to in the host name. */
  const SerialWidth: nat := 5
  /** The number of fields a reply unpacks into: type, index, IP and serial. */
  const FieldCount: nat := 4

  /** The sender of a datagram, as `recvfrom` reports it. */
  datatype Address = Address(host: string, port: nat)

  /** What one `recvfrom` call on the receive socket yields. */
  datatype Event = Datagram(addr: Address, data: seq<byte>) | Timeout

  /** The four fields of a K4 reply, exactly as the split produced them. */
  datatype Radio = Radio(rigType: string, rigIndex: string, rigIP: string, rigSN: string)

  /** The exception a malformed `k4` reply raises: the decode fails, or the
      split does not give the four values the tuple unpacking expects. */
  datatype Failure = UnicodeDecodeError | UnpackError(got: nat)

  /** How the receive loop treats one datagram. */
  datatype Classified = Unexpected | Malformed(failure: Failure) | Accepted(radio: Radio)

  /** A line the program prints: one per radio found, one per unexpected
      datagram, and the closing summary. */
  datatype Line =
    | FoundRadio(serial: string, ip: string, paddedSerial: string)
    | UnexpectedData(addr: Address, data: seq<byte>)
    | Summary(count: nat)

  /** `data.startswith(prefix)` on bytes: the prefix matches the data
      byte for byte. */
  predicate StartsWith(data: seq<byte>, prefix: seq<byte>)
    ensures StartsWith(data, prefix) <==>
              |prefix| <= |data| && forall i :: 0 <= i < |prefix| ==> data[i] == prefix[i]
  {
    |prefix| <= |data| && data[..|prefix|] == prefix
  }

  /** The reply text a radio sends for the given fields. */
  function ReplyText(r: Radio): string
  {
    PyText.Join([r.rigType, r.rigIndex, r.rigIP, r.rigSN], ReturnDelimiter)
  }

  /** The receive loop's decision on one datagram: anything not starting
      with `k4` is unexpected; a `k4` datagram is decoded and split, and
      unpacked into a radio when the split gives four fields. */
  function Classify(data: seq<byte>): (c: Classified)
    ensures c.Unexpected? <==> !(|data| >= 2 && data[0] == 0x6B && data[1] == 0x34)
    ensures c.Malformed? && c.failure.UnicodeDecodeError? <==> !c.Unexpected? && Decode(data).None?
    ensures c.Malformed? && c.failure.UnpackError? ==> c.failure.got != FieldCount
  {
    if StartsWith(data, K4ReturnStart) then
      match Decode(data)
      case None => Malformed(UnicodeDecodeError)
      case Some(sData) =>
        var fields := Split(sData, ReturnDelimiter);
        if |fields| != FieldCount then Malformed(UnpackError(|fields|))
        else Accepted(Radio(fields[0], fields[1], fields[2], fields[3]))
    else
      Unexpected
  }

  /** The line printed for an accepted reply: the raw serial and IP, and the
      serial zero-padded for the host name. */
  function FoundLine(r: Radio): (line: Line)
    ensures line.FoundRadio? && line.serial == r.rigSN && line.ip == r.rigIP
    ensures |line.paddedSerial| == if |r.rigSN| >= SerialWidth then |r.rigSN| else SerialWidth
    ensures |r.rigSN| >= SerialWidth ==> line.paddedSerial == r.rigSN
    ensures |r.rigSN| < SerialWidth ==>
              line.paddedSerial == r.rigSN[..SignLength(r.rigSN)] + Zeros(SerialWidth - |r.rigSN|)
                                     + r.rigSN[SignLength(r.rigSN)..]
    ensures IsDigits(r.rigSN) ==>
              IsDigits(line.paddedSerial) && DigitsValue(line.paddedSerial) == DigitsValue(r.rigSN)
  {
    var line := FoundRadio(r.rigSN, r.rigIP, ZFill(r.rigSN, SerialWidth));
    if |r.rigSN| < SerialWidth then
      ZFillInsertsZeros(r.rigSN, SerialWidth);
      if IsDigits(r.rigSN) then ZFillKeepsValue(r.rigSN, SerialWidth); line else line
    else
      if IsDigits(r.rigSN) then ZFillKeepsValue(r.rigSN, SerialWidth); line else line
  }

  /** The text of a per-radio line: the fixed lead and the raw serial, then
      " at IP address " and the raw IP, then " (K4-SN" and the padded serial,
      and the closing ".local)". */
  function FoundText(serial: string, ip: string, paddedSerial: string): (text: string)
    ensures |text| == |serial| + |ip| + |paddedSerial| + 52
    ensures text[..23] == "Found K4 serial number " && text[23..23 + |serial|] == serial
    ensures text[23 + |serial|..38 + |serial|] == " at IP address " && text[38 + |serial|..38 + |serial| + |ip|] == ip
    ensures text[38 + |serial| + |ip|..45 + |serial| + |ip|] == " (K4-SN"
    ensures text[|text| - 7 - |paddedSerial|..|text| - 7] == paddedSerial && text[|text| - 7..] == ".local)"
  {
    var lead := "Found K4 serial number " + serial;
    var withIP := lead + " at IP address " + ip;
    var body := withIP + " (K4-SN";
    var text := body + paddedSerial + ".local)";
    assert text[..|lead|] == lead;
    assert text[|lead|..|withIP|] == " at IP address " + ip;
    assert text[|withIP|..|body|] == " (K4-SN";
    assert text[|body|..|body| + |paddedSerial|] == paddedSerial;
    text
  }

  /** The end of a summary for a positive count: "radio" for exactly one,
      "radios" for more. */
  function SummaryTail(count: nat): string
  {
    " K4 " + (if count == 1 then "radio" else "radios") + " accessible to this computer"
  }

  /** The text of the closing summary for a final count: for a positive
      count, "Found ", its numeral and the tail. */
  function SummaryText(count: nat): (text: string)
    ensures |text| > 0 && text[0] == if count > 0 then 'F' else 'N'
    ensures count > 0 ==> |text| >= 6 && text[6..] == Decimal(count) + SummaryTail(count)
  {
    if count > 0 then
      "Found " + Decimal(count) + SummaryTail(count)
    else
      "No K4 radios found"
  }

  /** The text printed for a per-radio line or the summary; the "Unexpected
      data" line is printed through Python's `repr` and is not rendered here. */
  function LineText(line: Line): string
    requires !line.UnexpectedData?
  {
    match line
    case FoundRadio(serial, ip, padded) => FoundText(serial, ip, padded)
    case Summary(count) => SummaryText(count)
  }

  /** The reply text is the wire format `<type>:<index>:<ip>:<serial>`. */
  lemma ReplyFormat(r: Radio)
    ensures ReplyText(r) == r.rigType + ":" + r.rigIndex + ":" + r.rigIP + ":" + r.rigSN
  {
    var fields := [r.rigType, r.rigIndex, r.rigIP, r.rigSN];
    assert fields[1..] == [r.rigIndex, r.rigIP, r.rigSN];
    assert fields[1..][1..] == [r.rigIP, r.rigSN];
    assert fields[1..][1..][1..] == [r.rigSN];
    var tail := r.rigIP + ":" + r.rigSN;
    assert Join(fields[1..][1..], ReturnDelimiter) == tail;
    assert Join(fields[1..], ReturnDelimiter) == r.rigIndex + ":" + tail;
    assert Join(fields, ReturnDelimiter) == r.rigType + ":" + (r.rigIndex + ":" + tail);
  }

  /** An accepted reply is the decoded datagram split into its four fields:
      joining them back gives the decoded text, no field holds a colon, and
      the type field begins with `k4`. */
  lemma ClassifyAccepted(data: seq<byte>)
    requires Classify(data).Accepted?
    ensures Decode(data) == Some(ReplyText(Classify(data).radio))
    ensures var r := Classify(data).radio;
      ReturnDelimiter !in r.rigType && ReturnDelimiter !in r.rigIndex &&
      ReturnDelimiter !in r.rigIP && ReturnDelimiter !in r.rigSN
    ensures |Classify(data).radio.rigType| >= 2 && Classify(data).radio.rigType[..2] == "k4"
  {
    var text := Decode(data).value;
    var fields := Split(text, ReturnDelimiter);
    assert fields == [fields[0], fields[1], fields[2], fields[3]];
    assert forall i :: 0 <= i < 4 ==> ReturnDelimiter !in fields[i];
    DecodeKeepsAsciiPrefix(data, 2);
    assert text == "k4" + text[2..];
    SplitKeepsPrefix("k4", text[2..], ReturnDelimiter);
  }

  /** A decodable `k4` datagram is accepted exactly when its text holds three
      colons; otherwise the unpacking fails with the number of fields found. */
  lemma ClassifyFieldCount(data: seq<byte>)
    requires StartsWith(data, K4ReturnStart) && Decode(data).Some?
    ensures var colons := Occurrences(Decode(data).value, ReturnDelimiter);
      (Classify(data).Accepted? <==> colons == 3) &&
      (!Classify(data).Accepted? ==> Classify(data) == Malformed(UnpackError(colons + 1)))
  {
    SplitFieldCount(Decode(data).value, ReturnDelimiter);
  }

  /** Any colon-free fields whose first begins with `k4`, joined with `:`
      and sent as ASCII bytes, are accepted with exactly those fields when
      there are four of them, and otherwise make the unpacking fail with
      the number of fields. */
  lemma ClassifyJoin(fields: seq<string>)
    requires |fields| >= 1 && forall i :: 0 <= i < |fields| ==> ReturnDelimiter !in fields[i]
    requires |fields[0]| >= 2 && fields[0][..2] == "k4"
    requires IsAscii(Join(fields, ReturnDelimiter))
    ensures Classify(AsciiBytes(Join(fields, ReturnDelimiter)))
              == if |fields| == FieldCount then Accepted(Radio(fields[0], fields[1], fields[2], fields[3]))
                 else Malformed(UnpackError(|fields|))
  {
    var text := Join(fields, ReturnDelimiter);
    var data := AsciiBytes(text);
    assert text[..|fields[0]|] == fields[0];
    assert text[0] == 'k' && text[1] == '4';
    assert data[..2] == K4ReturnStart;
    DecodeAscii(text);
    SplitJoin(fields, ReturnDelimiter);
  }

  /** The reply a radio sends is parsed back into exactly the fields it was
      built from, provided they hold no colon and the type starts with `k4`. */
  lemma ClassifyReply(r: Radio)
    requires ReturnDelimiter !in r.rigType && ReturnDelimiter !in r.rigIndex
    requires ReturnDelimiter !in r.rigIP && ReturnDelimiter !in r.rigSN
    requires |r.rigType| >= 2 && r.rigType[..2] == "k4"
    requires IsAscii(ReplyText(r))
    ensures Classify(AsciiBytes(ReplyText(r))) == Accepted(r)
  {
    var fields := [r.rigType, r.rigIndex, r.rigIP, r.rigSN];
    var text := ReplyText(r);
    var data := AsciiBytes(text);
    DecodeAscii(text);
    SplitJoin(fields, ReturnDelimiter);
    assert text[0] == r.rigType[0] && text[1] == r.rigType[1];
    assert data[..2] == K4ReturnStart;
  }

  /** The opening words of the summary: "No K4 radios found" for zero,
      otherwise "Found " followed by the numeral. */
  lemma SummaryWording(count: nat)
    ensures count == 0 ==> SummaryText(count) == "No K4 radios found"
    ensures count > 0 ==> SummaryText(count)[..6] == "Found "
  {
    if count > 0 {
      assert SummaryText(count) == "Found " + (Decimal(count) + SummaryTail(count));
    }
  }

  /** The noun of the summary: "radio" for exactly one, "radios" for every
      count above one. */
  lemma SummaryNoun(count: nat)
    ensures count == 1 ==> SummaryTail(count) == " K4 radio accessible to this computer"
    ensures count > 1 ==> SummaryTail(count) == " K4 radios accessible to this computer"
  {
    if count > 1 {
      PluralTail(count);
    }
  }

  /** The plural tail, spelt out. */
  lemma PluralTail(count: nat)
    requires count > 1
    ensures SummaryTail(count) == " K4 radios accessible to this computer"
  {
    assert SummaryTail(count) == " K4 " + "radios" + " accessible to this computer";
  }

  /** The summary line names the count it was printed for: different counts
      never share a summary. */
  lemma SummaryDeterminesCount(m: nat, n: nat)
    requires SummaryText(m) == SummaryText(n)
    ensures m == n
  {
    if m > 0 && n > 0 {
      assert SummaryTail(m)[0] == ' ' && SummaryTail(n)[0] == ' ';
      DigitPrefixUnique(Decimal(m), SummaryTail(m), Decimal(n), SummaryTail(n));
      DecimalValue(m);
      DecimalValue(n);
    }
  }
}
