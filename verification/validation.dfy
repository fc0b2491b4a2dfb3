/** Checking the answer a device left in its buffer before it becomes a
    share: a nonzero integer result, an integer time, an alphanumeric
    device id and, with the checksum setting "y", a fourth field equal to
    the CRC-8 of everything up to and including the buffer's last comma. */
module Validation {
  import opened Wrappers
  import opened PyText
  import opened PyInt
  import Crc8
  import opened Framing

  /** A validated result: the nonce found, the device's hashing time in
      microseconds, and its id. */
  datatype Share = Share(nonce: int, micros: int, deviceId: string)

  datatype Rejection =
    | MissingField                             // IndexError: too few fields
    | NoData                                   // field 0 or 1 empty: "No data received"
    | NotAnInteger                             // ValueError from int()
    | ZeroNonce                                // "Invalid result"
    | BadDeviceId                              // "Corrupted DUCOID"
    | CrcMismatch(expected: nat, received: int)  // "crc8 checksum failed"

  datatype Verdict = Accepted(share: Share) | Rejected(reason: Rejection)

  /** The checksum a buffer must carry: CRC-8 of its UTF-8 text up to and
      including the last comma. */
  function ExpectedCrc(buffer: string): (c: nat)
    ensures c < 256
  {
    Crc8.TextCrc(RPartitionHead(buffer, FieldSep) + [FieldSep])
  }

  /** The checks of a completed read, in the order the miner makes them. */
  function Validate(buffer: string, crcFlag: string): (v: Verdict)
    ensures v.Accepted? ==>
      var f := Split(buffer, FieldSep);
      && |f| >= 3
      && ParseInt(f[0], 10) == Some(v.share.nonce) && v.share.nonce != 0
      && ParseInt(f[1], 10) == Some(v.share.micros)
      && v.share.deviceId == f[2] && IsAlnum(f[2])
      && (crcFlag == "y" ==> |f| >= 4 && ParseInt(f[3], 10) == Some(ExpectedCrc(buffer)))
    ensures
      var f := Split(buffer, FieldSep);
      (&& |f| >= 3
       && ParseInt(f[0], 10).Some? && ParseInt(f[0], 10).value != 0
       && ParseInt(f[1], 10).Some?
       && IsAlnum(f[2])
       && (crcFlag == "y" ==> |f| >= 4 && ParseInt(f[3], 10) == Some(ExpectedCrc(buffer))))
      ==> v.Accepted?
    ensures v.Rejected? && v.reason.CrcMismatch? ==>
      var f := Split(buffer, FieldSep);
      && crcFlag == "y" && |f| >= 4
      && v.reason.expected == ExpectedCrc(buffer)
      && ParseInt(f[3], 10) == Some(v.reason.received)
      && v.reason.received != v.reason.expected
  {
    var f := Split(buffer, FieldSep);
    if f[0] == "" then Rejected(NoData)
    else if |f| < 2 then Rejected(MissingField)
    else if f[1] == "" then Rejected(NoData)
    else match ParseInt(f[0], 10)
      case None => Rejected(NotAnInteger)
      case Some(nonce) =>
        if nonce == 0 then Rejected(ZeroNonce)
        else match ParseInt(f[1], 10)
          case None => Rejected(NotAnInteger)
          case Some(micros) =>
            if |f| < 3 then Rejected(MissingField)
            else if !IsAlnum(f[2]) then Rejected(BadDeviceId)
            else if crcFlag == "y" then
              var expected := ExpectedCrc(buffer);
              if |f| < 4 then Rejected(MissingField)
              else match ParseInt(f[3], 10)
                case None => Rejected(NotAnInteger)
                case Some(received) =>
                  if received != expected then Rejected(CrcMismatch(expected, received))
                  else Accepted(Share(nonce, micros, f[2]))
            else Accepted(Share(nonce, micros, f[2]))
  }

  /** The first three fields of a device answer. */
  function ShareFields(s: Share): seq<string>
  {
    [Decimal(s.nonce), Decimal(s.micros), s.deviceId]
  }

  /** The answer a correct device sends for a share: nonce, time and id
      joined by commas, then with the checksum on a comma and the decimal
      CRC-8 of everything before it. */
  function DeviceFrame(s: Share, crcOn: bool): string
  {
    var body := Join(ShareFields(s), FieldSep);
    if crcOn then body + [FieldSep] + Decimal(Crc8.TextCrc(body + [FieldSep]))
    else body
  }

  lemma ShareFieldsClean(s: Share)
    requires IsAlnum(s.deviceId)
    ensures forall i :: 0 <= i < |ShareFields(s)| ==> FieldSep !in ShareFields(s)[i]
  {
    DecimalAlphabet(s.nonce);
    DecimalAlphabet(s.micros);
    assert IsAlnumChar(FieldSep) == false;
  }

  /** Splitting the fields followed by a comma and a comma-free checksum
      text gives back the fields and that text, and `rpartition` finds the
      fields' part again. */
  lemma CheckedFrame(s: Share, d: string)
    requires IsAlnum(s.deviceId) && FieldSep !in d
    ensures var front := Join(ShareFields(s), FieldSep) + [FieldSep];
            && Split(front + d, FieldSep) == ShareFields(s) + [d]
            && RPartitionHead(front + d, FieldSep) + [FieldSep] == front
  {
    var fs := ShareFields(s);
    var front := Join(fs, FieldSep) + [FieldSep];
    ShareFieldsClean(s);
    JoinSnoc(fs, d, FieldSep);
    SplitJoin(fs + [d], FieldSep);
    RPartitionTail(front, d, FieldSep);
  }

  /** Round trip: the answer a correct device sends for a share with a
      nonzero nonce and an alphanumeric id is accepted as exactly that
      share, whatever the checksum setting, provided the device adds the
      checksum exactly when the setting is "y". */
  lemma FrameAccepted(s: Share, crcFlag: string)
    requires s.nonce != 0 && IsAlnum(s.deviceId)
    ensures Validate(DeviceFrame(s, crcFlag == "y"), crcFlag) == Accepted(s)
  {
    if crcFlag == "y" {
      CheckedFrameAccepted(s);
    } else {
      PlainFrameAccepted(s, crcFlag);
    }
  }

  lemma CheckedFrameAccepted(s: Share)
    requires s.nonce != 0 && IsAlnum(s.deviceId)
    ensures Validate(DeviceFrame(s, true), "y") == Accepted(s)
  {
    var front := Join(ShareFields(s), FieldSep) + [FieldSep];
    RightChecksumAccepted(s, front + Decimal(Crc8.TextCrc(front)));
  }

  lemma RightChecksumAccepted(s: Share, frame: string)
    requires s.nonce != 0 && IsAlnum(s.deviceId)
    requires var front := Join(ShareFields(s), FieldSep) + [FieldSep];
             frame == front + Decimal(Crc8.TextCrc(front))
    ensures Validate(frame, "y") == Accepted(s)
  {
    var front := Join(ShareFields(s), FieldSep) + [FieldSep];
    var c := Crc8.TextCrc(front);
    FourFields(s, c);
    ValidateFour(frame, "y");
  }

  /** A frame carrying the share's fields and checksum text `Decimal(c)`
      splits into those four fields, each parsing back to its value, and
      its expected checksum is the CRC of its part up to the last comma. */
  lemma FourFields(s: Share, c: int)
    requires IsAlnum(s.deviceId)
    ensures var front := Join(ShareFields(s), FieldSep) + [FieldSep];
            var f := Split(front + Decimal(c), FieldSep);
            && |f| == 4
            && ParseInt(f[0], 10) == Some(s.nonce)
            && ParseInt(f[1], 10) == Some(s.micros)
            && f[2] == s.deviceId
            && ParseInt(f[3], 10) == Some(c)
            && ExpectedCrc(front + Decimal(c)) == Crc8.TextCrc(front)
  {
    var front := Join(ShareFields(s), FieldSep) + [FieldSep];
    assert FieldSep !in Decimal(c) by { DecimalAlphabet(c); }
    CheckedFrame(s, Decimal(c));
    DecimalRoundTrip(s.nonce);
    DecimalRoundTrip(s.micros);
    DecimalRoundTrip(c);
  }

  /** Validation of a checked four-field answer whose first two fields are
      integers and whose third is alphanumeric: it comes down to comparing
      the received checksum with the expected one, when the nonce is not
      zero. */
  lemma ValidateFour(buffer: string, crcFlag: string)
    requires var f := Split(buffer, FieldSep);
             && |f| == 4
             && ParseInt(f[0], 10).Some? && ParseInt(f[1], 10).Some?
             && IsAlnum(f[2]) && ParseInt(f[3], 10).Some?
    ensures var f := Split(buffer, FieldSep);
            var nonce := ParseInt(f[0], 10).value;
            var received := ParseInt(f[3], 10).value;
            Validate(buffer, crcFlag) ==
              if nonce == 0 then Rejected(ZeroNonce)
              else if crcFlag == "y" && received != ExpectedCrc(buffer)
              then Rejected(CrcMismatch(ExpectedCrc(buffer), received))
              else Accepted(Share(nonce, ParseInt(f[1], 10).value, f[2]))
  {
    var f := Split(buffer, FieldSep);
    assert f[0] != "" && f[1] != "" by {
      if f[0] == "" { EmptyNotInteger(); }
      if f[1] == "" { EmptyNotInteger(); }
    }
  }

  lemma EmptyNotInteger()
    ensures ParseInt("", 10) == None
  {
    assert Trim("", IntWhitespace) == "";
  }

  lemma PlainFrameAccepted(s: Share, crcFlag: string)
    requires s.nonce != 0 && IsAlnum(s.deviceId) && crcFlag != "y"
    ensures Validate(DeviceFrame(s, false), crcFlag) == Accepted(s)
  {
    ShareFieldsClean(s);
    SplitJoin(ShareFields(s), FieldSep);
    DecimalRoundTrip(s.nonce);
    DecimalRoundTrip(s.micros);
  }

  /** A frame whose checksum field carries any other value than the CRC of
      its prefix is rejected as a checksum failure with both values. */
  lemma WrongChecksumRejected(s: Share, c: int)
    requires s.nonce != 0 && IsAlnum(s.deviceId)
    requires c != Crc8.TextCrc(Join(ShareFields(s), FieldSep) + [FieldSep])
    ensures var front := Join(ShareFields(s), FieldSep) + [FieldSep];
            Validate(front + Decimal(c), "y") == Rejected(CrcMismatch(Crc8.TextCrc(front), c))
  {
    var front := Join(ShareFields(s), FieldSep) + [FieldSep];
    FourFields(s, c);
    ValidateFour(front + Decimal(c), "y");
  }

  /** A zero nonce is refused whatever else the answer holds. */
  lemma ZeroNonceRejected(s: Share, crcFlag: string)
    requires s.nonce == 0 && IsAlnum(s.deviceId)
    ensures Validate(DeviceFrame(s, crcFlag == "y"), crcFlag) == Rejected(ZeroNonce)
  {
    if crcFlag == "y" {
      CheckedZeroRejected(s);
    } else {
      PlainZeroRejected(s, crcFlag);
    }
  }

  lemma CheckedZeroRejected(s: Share)
    requires s.nonce == 0 && IsAlnum(s.deviceId)
    ensures Validate(DeviceFrame(s, true), "y") == Rejected(ZeroNonce)
  {
    var front := Join(ShareFields(s), FieldSep) + [FieldSep];
    var c := Crc8.TextCrc(front);
    assert DeviceFrame(s, true) == front + Decimal(c);
    FourFields(s, c);
    ValidateFour(front + Decimal(c), "y");
  }

  lemma PlainZeroRejected(s: Share, crcFlag: string)
    requires s.nonce == 0 && IsAlnum(s.deviceId) && crcFlag != "y"
    ensures Validate(DeviceFrame(s, false), crcFlag) == Rejected(ZeroNonce)
  {
    var fs := ShareFields(s);
    assert Split(DeviceFrame(s, false), FieldSep) == fs by {
      ShareFieldsClean(s);
      SplitJoin(fs, FieldSep);
    }
    DecimalRoundTrip(0);
    assert fs[1] != "";
    ValidateZero(DeviceFrame(s, false), crcFlag);
  }

  /** An answer whose first field is the integer 0 and whose second field
      is not empty is refused for its zero nonce. */
  lemma ValidateZero(buffer: string, crcFlag: string)
    requires var f := Split(buffer, FieldSep);
             |f| >= 2 && ParseInt(f[0], 10) == Some(0) && f[1] != ""
    ensures Validate(buffer, crcFlag) == Rejected(ZeroNonce)
  {
    var f := Split(buffer, FieldSep);
    assert f[0] != "" by {
      if f[0] == "" { EmptyNotInteger(); }
    }
  }

  /** A nonce followed by one of the separators `\x1c` to `\x1f` is not an
      integer to `int`, whatever the checksum setting, although `strip()`
      left it in the buffer. */
  lemma SeparatorNonceRejected(s: Share, c: char, crcFlag: string)
    requires IsAlnum(s.deviceId) && c in Whitespace - IntWhitespace
    ensures Validate(Join([Decimal(s.nonce) + [c], Decimal(s.micros), s.deviceId], FieldSep), crcFlag)
            == Rejected(NotAnInteger)
  {
    var fs := [Decimal(s.nonce) + [c], Decimal(s.micros), s.deviceId];
    var f := Split(Join(fs, FieldSep), FieldSep);
    assert f == fs by {
      DecimalAlphabet(s.nonce);
      DecimalAlphabet(s.micros);
      assert IsAlnumChar(FieldSep) == false;
      SplitJoin(fs, FieldSep);
    }
    assert ParseInt(f[0], 10) == None by {
      TrailingSeparator(Decimal(s.nonce), c, 10);
    }
    assert f[1] != "" by {
      DecimalRoundTrip(s.micros);
      EmptyNotInteger();
    }
  }
}
