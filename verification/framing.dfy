/** The text the miner puts on the shared serial link to the I2C gateway,
    and the way it reads the gateway's replies: write, read and flush
    commands, the job line handed to a device, and the three spellings of
    a device address. */
module Framing {
  import opened Wrappers
  import opened PyText
  import opened PyInt
  import Crc8

  /** Separator between pool and device fields (`Settings.SEPARATOR`). */
  const FieldSep: char := ','
  /** Separator inside a gateway command (`Settings.USBI2C_SEPARATOR`). */
  const BusSep: char := ':'
  /** End of a gateway command (`Settings.USBI2C_EOL`). */
  const BusEol: char := '$'

  /** A configured device: the address string as configured and the
      number `int(com, 16)` it denotes. */
  datatype Worker = Worker(com: string, address: int)

  /** `int(com, 16)` when the worker starts; `None` is the ValueError that
      ends the worker. */
  function MakeWorker(com: string): (w: Option<Worker>)
    ensures w.Some? <==> ParseInt(com, 16).Some?
    ensures w.Some? ==> w.value.com == com && Some(w.value.address) == ParseInt(com, 16)
  {
    match ParseInt(com, 16)
    case None => None
    case Some(a) => Some(Worker(com, a))
  }

  /** The address written in write and read commands: `str(int(com, 16))`,
      i.e. decimal. */
  function BusAddress(w: Worker): string
  {
    Decimal(w.address)
  }

  /** The key of the worker's reply buffer: `hex(int(com, 16))` without
      `0x`, i.e. lower-case hexadecimal. */
  function BufferKey(w: Worker): string
  {
    HexKey(w.address)
  }

  /** The buffer key a gateway reply is filed under: `hex(int(field, 16))`
      without `0x`; `None` is the ValueError of a malformed address. */
  function ReplyKey(field: string): Option<string>
  {
    match ParseInt(field, 16)
    case None => None
    case Some(a) => Some(HexKey(a))
  }

  /** A reply is filed under a worker's buffer exactly when its address
      field denotes the worker's address. */
  lemma ReplyKeyOfWorker(field: string, w: Worker)
    ensures ReplyKey(field) == Some(BufferKey(w)) <==> ParseInt(field, 16) == Some(w.address)
  {
    match ParseInt(field, 16)
    case None =>
    case Some(a) => HexKeyInjective(a, w.address);
  }

  /** A reply that carries a worker's own buffer key goes to that worker. */
  lemma KeyEcho(w: Worker)
    ensures ReplyKey(BufferKey(w)) == Some(BufferKey(w))
  {
    HexKeyRoundTrip(w.address);
  }

  /** The buffers of configured workers: a reply carrying a worker's
      configured address string is filed under that worker's buffer, and
      two workers share a buffer exactly when their address strings denote
      the same number (so "0a" and "A" collide). */
  lemma WorkerKeys(c1: string, c2: string)
    requires MakeWorker(c1).Some? && MakeWorker(c2).Some?
    ensures ReplyKey(c1) == Some(BufferKey(MakeWorker(c1).value))
    ensures BufferKey(MakeWorker(c1).value) == BufferKey(MakeWorker(c2).value) <==> ParseInt(c1, 16) == ParseInt(c2, 16)
  {
    HexKeyInjective(MakeWorker(c1).value.address, MakeWorker(c2).value.address);
  }

  /** The decimal bus address and the hexadecimal buffer key coincide for
      addresses below ten, and differ from ten on (address 16 is sent as
      "16" but filed as "10"). */
  lemma AddressSpellings()
    ensures forall a :: 0 <= a < 10 ==> Decimal(a) == HexKey(a)
    ensures Decimal(16) == "16" && HexKey(16) == "10"
    ensures forall a :: a >= 10 ==> Decimal(a) != HexKey(a)
  {
    assert NatDigits(1, 10) == "1" && NatDigits(1, 16) == "1";
    forall a | a >= 10
      ensures Decimal(a) != HexKey(a)
    {
      SpellingsDiffer(a);
    }
  }

  /** From ten on the two spellings differ: the decimal digits of `a`,
      read in hexadecimal, are worth more than `a`. */
  lemma SpellingsDiffer(a: nat)
    requires a >= 10
    ensures Decimal(a) != HexKey(a)
  {
    var s := NatDigits(a, 10);
    var p := NatDigits(a / 10, 10);
    assert s == p + [DigitChar(a % 10)];
    assert s[..|s| - 1] == p;
    HexValueAtLeast(s);
    HexValueAtLeast(p);
    DigitsRoundTrip(a / 10, 10);
    assert DigitsValue(s, 16) == DigitsValue(p, 16) * 16 + a % 10;
    assert DigitsValue(s, 16) > a;
    DigitsRoundTrip(a, 16);
  }

  /** `usbi2c_write(ser, com, data)`: `com ":" "w" ":" data "$"`. */
  function WriteFrame(addr: string, data: string): string
  {
    addr + [BusSep] + "w" + [BusSep] + data + [BusEol]
  }

  /** The request half of `usbi2c_read(ser, com)`: `com ":" "r" "$"`. */
  function ReadFrame(addr: string): string
  {
    addr + [BusSep] + "r" + [BusEol]
  }

  /** `flush_i2c(ser, com)`: a write to the pseudo-address "fl" whose data
      is the worker's address string as configured. */
  function FlushFrame(com: string): string
  {
    WriteFrame("fl", com)
  }

  datatype Command = Write(addr: string, data: string) | Read(addr: string)

  /** The command grammar the frames follow: a body ended by `$`, whose
      `:`-separated fields are `addr, "w", data` or `addr, "r"`. */
  function ParseCommand(frame: string): Option<Command>
  {
    if |frame| == 0 || frame[|frame| - 1] != BusEol then None
    else
      var f := Split(frame[..|frame| - 1], BusSep);
      if |f| == 3 && f[1] == "w" then Some(Write(f[0], f[2]))
      else if |f| == 2 && f[1] == "r" then Some(Read(f[0]))
      else None
  }

  /** A write frame carries its address and data, when neither contains `:`. */
  lemma WriteFrameRoundTrip(addr: string, data: string)
    requires BusSep !in addr && BusSep !in data
    ensures ParseCommand(WriteFrame(addr, data)) == Some(Write(addr, data))
  {
    var frame := WriteFrame(addr, data);
    var fields := [addr, "w", data];
    assert fields[1..][1..] == [data];
    assert Join(fields[1..], BusSep) == "w" + [BusSep] + data;
    assert frame[..|frame| - 1] == Join(fields, BusSep);
    SplitJoin(fields, BusSep);
  }

  /** A read frame carries its address, when it contains no `:`. */
  lemma ReadFrameRoundTrip(addr: string)
    requires BusSep !in addr
    ensures ParseCommand(ReadFrame(addr)) == Some(Read(addr))
  {
    var frame := ReadFrame(addr);
    var fields := [addr, "r"];
    assert frame[..|frame| - 1] == Join(fields, BusSep);
    SplitJoin(fields, BusSep);
  }

  /** A flush is a write to "fl" carrying the worker's address string. */
  lemma FlushFrameRoundTrip(com: string)
    requires BusSep !in com
    ensures ParseCommand(FlushFrame(com)) == Some(Write("fl", com))
  {
    WriteFrameRoundTrip("fl", com);
  }

  /** The reply half of `usbi2c_read`: the text read up to `$`, with `$`
      stripped from both ends and split on `:`. */
  function DecodeReply(raw: string): (fields: seq<string>)
    ensures |fields| >= 1
  {
    Split(Trim(raw, {BusEol}), BusSep)
  }

  /** A gateway reply `addr ":" token "$"` decodes to `[addr, token]`. */
  lemma DecodeReplyRoundTrip(addr: string, token: string)
    requires BusSep !in addr && BusSep !in token
    requires BusEol !in addr && BusEol !in token
    ensures DecodeReply(addr + [BusSep] + token + [BusEol]) == [addr, token]
  {
    var body := addr + [BusSep] + token;
    var fs := [addr, token];
    assert Split(body, BusSep) == fs by {
      assert fs[1..] == [token];
      assert Join(fs, BusSep) == body;
      SplitJoin(fs, BusSep);
    }
    assert DecodeReply(body + [BusEol]) == Split(body, BusSep) by {
      ReplyTrimmed(addr, token);
    }
  }

  /** Stripping the end-of-reply marks off a reply leaves its body. */
  lemma ReplyTrimmed(addr: string, token: string)
    requires BusEol !in addr && BusEol !in token
    ensures Trim(addr + [BusSep] + token + [BusEol], {BusEol}) == addr + [BusSep] + token
  {
    var body := addr + [BusSep] + token;
    var raw := body + [BusEol];
    assert TrimLeft(raw, {BusEol}) == raw by {
      assert raw[0] == (if |addr| > 0 then addr[0] else BusSep);
    }
    assert raw[..|raw| - 1] == body;
    assert body[|body| - 1] == (if |token| > 0 then token[|token| - 1] else BusSep);
  }

  /** `job[0] + "," + job[1] + "," + job[2] + ","`. */
  function JobPrefix(puzzle: string, target: string, diff: string): string
  {
    puzzle + [FieldSep] + target + [FieldSep] + diff + [FieldSep]
  }

  /** The line a job becomes on its way to the device: the prefix, then
      with the checksum setting "y" the decimal checksum of the prefix's
      UTF-8 bytes, then a newline. Any other setting inserts nothing. */
  function JobPayload(puzzle: string, target: string, diff: string, crcFlag: string): (line: string)
    ensures |line| > |JobPrefix(puzzle, target, diff)| && line[|line| - 1] == '\n'
    ensures line[..|JobPrefix(puzzle, target, diff)|] == JobPrefix(puzzle, target, diff)
    ensures crcFlag == "y" ==>
      var body := line[..|line| - 1];
      var head := RPartitionHead(body, FieldSep);
      && head + [FieldSep] == JobPrefix(puzzle, target, diff)
      && ParseInt(body[|head| + 1..], 10) == Some(Crc8.TextCrc(head + [FieldSep]))
    ensures crcFlag != "y" ==> line == JobPrefix(puzzle, target, diff) + "\n"
  {
    var prefix := JobPrefix(puzzle, target, diff);
    if crcFlag == "y" then
      var digits := Decimal(Crc8.TextCrc(prefix));
      var line := prefix + digits + "\n";
      DecimalAlphabet(Crc8.TextCrc(prefix));
      DecimalRoundTrip(Crc8.TextCrc(prefix));
      assert line[..|line| - 1] == prefix + digits;
      RPartitionTail(prefix, digits, FieldSep);
      line
    else prefix + "\n"
  }

  /** The job as the pool sent it, split on `,`; fewer than three fields is
      the IndexError that makes the attempt fail. */
  function BuildJob(job: seq<string>, crcFlag: string): Option<string>
  {
    if |job| < 3 then None else Some(JobPayload(job[0], job[1], job[2], crcFlag))
  }

  /** The three job fields come back out of the prefix when none contains
      a comma. */
  lemma JobPrefixFields(puzzle: string, target: string, diff: string)
    requires FieldSep !in puzzle && FieldSep !in target && FieldSep !in diff
    ensures Split(JobPrefix(puzzle, target, diff), FieldSep) == [puzzle, target, diff, ""]
  {
    var fields := [puzzle, target, diff, ""];
    assert fields[1..][1..][1..] == [""];
    assert fields[1..][1..] == [diff, ""];
    assert Join(fields[1..][1..], FieldSep) == diff + [FieldSep];
    assert Join(fields[1..], FieldSep) == target + [FieldSep] + diff + [FieldSep];
    assert JobPrefix(puzzle, target, diff) == Join(fields, FieldSep);
    SplitJoin(fields, FieldSep);
  }

  /** The job line is written one character per write command, all to the
      worker's decimal bus address. */
  function JobWrites(w: Worker, line: string): (frames: seq<string>)
    ensures |frames| == |line|
  {
    if |line| == 0 then [] else [WriteFrame(BusAddress(w), [line[0]])] + JobWrites(w, line[1..])
  }

  /** The data a sequence of frames writes to `addr`, in order. */
  function WrittenData(frames: seq<string>, addr: string): string
  {
    if |frames| == 0 then ""
    else
      var d := match ParseCommand(frames[0])
        case Some(Write(a, data)) => if a == addr then data else ""
        case _ => "";
      d + WrittenData(frames[1..], addr)
  }

  /** The frames of a job deliver exactly the job line to the worker's bus
      address, when the line contains no `:`. */
  lemma {:induction false} JobWritesDeliver(w: Worker, line: string)
    requires BusSep !in line
    ensures WrittenData(JobWrites(w, line), BusAddress(w)) == line
  {
    if |line| > 0 {
      DecimalAlphabet(w.address);
      WriteFrameRoundTrip(BusAddress(w), [line[0]]);
      assert BusSep !in line[1..];
      JobWritesDeliver(w, line[1..]);
      assert JobWrites(w, line)[1..] == JobWrites(w, line[1..]);
      assert line == [line[0]] + line[1..];
    }
  }
}
