/**
 * The EFI loader's serial consoles ttya-ttyd: the "<tty>-mode" string
 * (baud,databits,parity,stopbits,handshake) parsed into and printed from a
 * port's settings, the environment hooks that change a port, the defaults a
 * port is probed with, and the console flags comc_setup derives from the
 * firmware's answers.  The Serial I/O protocol calls (Reset,
 * SetAttributes, OpenProtocol) are given as their success or failure.
 */
module ComConsole {
  import opened Mb2
  import opened Wrappers

  /** EFI_PARITY_TYPE. */
  datatype Parity = DefaultParity | NoParity | EvenParity | OddParity | MarkParity | SpaceParity
  /** EFI_STOP_BITS_TYPE. */
  datatype StopBits = DefaultStopBits | OneStopBit | OneFiveStopBits | TwoStopBits

  /** CMD_OK / CMD_ERROR. */
  datatype CmdStatus = CmdOk | CmdError

  /** The four settings the mode string carries. */
  datatype Mode = Mode(baud: u64, databits: byte, parity: Parity, stopbits: StopBits)

  /** COMSPEED. */
  const COMSPEED: nat := 9600
  const INT_MAX: int := 0x7fff_ffff
  const LONG_MAX: int := 0x7fff_ffff_ffff_ffff
  const LONG_MIN: int := -0x8000_0000_0000_0000

  /** *p for a C string: the NUL terminator past the last character. */
  function At(s: string, i: nat): char
  {
    if i < |s| then s[i] else '\0'
  }

  // ------------------------------------------------------------------
  // strtol(s, &ep, 0), per the C standard's description

  predicate IsSpace(c: char)
  {
    c == ' ' || c == '\t' || c == '\n' || c == '\U{000b}' || c == '\U{000c}' || c == '\r'
  }

  /** The value of a digit or letter in bases up to 36; 36 for anything else. */
  function DigitValue(c: char): (d: nat)
    ensures d <= 36
  {
    if '0' <= c <= '9' then c as int - '0' as int
    else if 'a' <= c <= 'z' then c as int - 'a' as int + 10
    else if 'A' <= c <= 'Z' then c as int - 'A' as int + 10
    else 36
  }

  /** The end of the run of base-b digits from j. */
  function RunEnd(s: string, j: nat, base: nat): (r: nat)
    requires j <= |s|
    ensures j <= r <= |s| && forall k :: j <= k < r ==> DigitValue(s[k]) < base
    ensures r < |s| ==> DigitValue(s[r]) >= base
    decreases |s| - j
  {
    if j < |s| && DigitValue(s[j]) < base then RunEnd(s, j + 1, base) else j
  }

  /** The number a digit string denotes in base b. */
  function Value(ds: string, base: nat): nat
    decreases |ds|
  {
    if |ds| == 0 then 0 else Value(ds[..|ds| - 1], base) * base + DigitValue(ds[|ds| - 1])
  }

  function Clamp(v: int): (r: int)
    ensures LONG_MIN <= r <= LONG_MAX
  {
    if v > LONG_MAX then LONG_MAX else if v < LONG_MIN then LONG_MIN else v
  }

  /**
   * strtol with base 0 from index i: white space, a sign, then a "0x"
   * hexadecimal, "0" octal or decimal number, saturated to the range of a
   * long.  Without a digit, 0 and the end pointer left at i.
   */
  function StrToL(s: string, i: nat): (r: (int, nat))
    requires i <= |s|
    ensures LONG_MIN <= r.0 <= LONG_MAX
    ensures r.1 == i || i < r.1 <= |s|
  {
    Scan(s, i, i, 0, false)
  }

  /** strtol's scan from j, begun at i: stage 0 skips white space, stage 1 takes a sign, stage 2 the number. */
  function Scan(s: string, i: nat, j: nat, stage: nat, neg: bool): (r: (int, nat))
    requires i <= j <= |s| && stage <= 2
    ensures LONG_MIN <= r.0 <= LONG_MAX
    ensures r.1 == i || i < r.1 <= |s|
    decreases |s| - j, 2 - stage
  {
    if stage == 0 then
      if j < |s| && IsSpace(s[j]) then Scan(s, i, j + 1, 0, false) else Scan(s, i, j, 1, false)
    else if stage == 1 then
      if At(s, j) == '-' || At(s, j) == '+' then Scan(s, i, j + 1, 2, At(s, j) == '-') else Scan(s, i, j, 2, false)
    else
      var hex := At(s, j) == '0' && (At(s, j + 1) == 'x' || At(s, j + 1) == 'X') && DigitValue(At(s, j + 2)) < 16;
      var base := if hex then 16 else if At(s, j) == '0' then 8 else 10;
      var d := if hex then j + 2 else j;
      var e := RunEnd(s, d, base);
      if e == d then (0, i)
      else
        var v: int := Value(s[d..e], base);
        (Clamp(if neg then -v else v), e)
  }

  /** The conversion of a long to a 32-bit int: its low 32 bits, read as two's complement. */
  function ToInt32(x: int): (r: int)
    ensures -0x8000_0000 <= r <= INT_MAX
    ensures -0x8000_0000 <= x <= INT_MAX ==> r == x
  {
    var w := x % 0x1_0000_0000;
    if w > INT_MAX then w - 0x1_0000_0000 else w
  }

  // ------------------------------------------------------------------
  // comc_print_mode and comc_parse_mode

  /** %llu / %d of a non-negative number. */
  function Decimal(n: nat): (s: string)
    ensures |s| > 0 && forall k :: 0 <= k < |s| ==> '0' <= s[k] <= '9'
    decreases n
  {
    var c := (n % 10 + '0' as int) as char;
    if n < 10 then [c] else Decimal(n / 10) + [c]
  }

  /** A number below ten prints as its one digit. */
  lemma OneDigit(d: nat)
    requires d < 10
    ensures Decimal(d) == [(d + '0' as int) as char]
  {
  }

  function ParityChar(p: Parity): char
  {
    match p
    case EvenParity => 'e'
    case OddParity => 'o'
    case _ => 'n'
  }

  function StopNumber(s: StopBits): nat
  {
    if s == TwoStopBits then 2 else 1
  }

  /** comc_print_mode: "baud,databits,parity,stop,-"; other parities print as n and other stop bits as 1. */
  function PrintMode(m: Mode): string
  {
    Decimal(m.baud) + "," + Decimal(m.databits) + "," + [ParityChar(m.parity)] + "," +
    Decimal(StopNumber(m.stopbits)) + ",-"
  }

  function ParityOf(c: char): Option<Parity>
  {
    if c == 'n' then Some(NoParity) else if c == 'e' then Some(EvenParity)
    else if c == 'o' then Some(OddParity) else None
  }

  function StopBitsOf(c: char): Option<StopBits>
  {
    if c == '1' then Some(OneStopBit) else if c == '2' then Some(TwoStopBits) else None
  }

  predicate IsHandshake(c: char)
  {
    c == '-' || c == 'h' || c == 's'
  }

  /**
   * What comc_parse_mode accepts: a positive baud rate (as an int), a comma,
   * 7 or 8, a comma, n/e/o, a comma, 1 or 2, a comma, one of -/h/s, and the
   * end of the string.
   */
  function ModeOf(v: string): (r: Option<Mode>)
    ensures r.Some? ==> 0 < r.value.baud <= INT_MAX && (r.value.databits == 7 || r.value.databits == 8)
    ensures r.Some? ==> r.value.parity in {NoParity, EvenParity, OddParity}
    ensures r.Some? ==> r.value.stopbits in {OneStopBit, TwoStopBits}
  {
    var t := StrToL(v, 0);
    var n1 := ToInt32(t.0);
    if n1 <= 0 || At(v, t.1) != ',' then None
    else DataBitsOn(v, t.1 + 1, n1)
  }

  /** From the data bits on, with the baud rate read. */
  function DataBitsOn(v: string, i: nat, baud: u64): (r: Option<Mode>)
    requires i <= |v| && 0 < baud <= INT_MAX
    ensures r.Some? ==> r.value.baud == baud && (r.value.databits == 7 || r.value.databits == 8)
    ensures r.Some? ==> r.value.parity in {NoParity, EvenParity, OddParity}
    ensures r.Some? ==> r.value.stopbits in {OneStopBit, TwoStopBits}
  {
    var t := StrToL(v, i);
    var n2 := ToInt32(t.0);
    if (n2 != 7 && n2 != 8) || At(v, t.1) != ',' then None
    else FlagsOn(v, t.1 + 1, baud, n2)
  }

  /** From the parity character on: ",p,s,h" and the end of the string. */
  function FlagsOn(v: string, j: nat, baud: u64, bits: byte): (r: Option<Mode>)
    ensures r.Some? ==> r.value.baud == baud && r.value.databits == bits
    ensures r.Some? ==> r.value.parity in {NoParity, EvenParity, OddParity}
    ensures r.Some? ==> r.value.stopbits in {OneStopBit, TwoStopBits}
  {
    if ParityOf(At(v, j)).None? || At(v, j + 1) != ',' then None
    else if StopBitsOf(At(v, j + 2)).None? || At(v, j + 3) != ',' then None
    else if !IsHandshake(At(v, j + 4)) || At(v, j + 5) != '\0' then None
    else Some(Mode(baud, bits, ParityOf(At(v, j)).value, StopBitsOf(At(v, j + 2)).value))
  }

  // ------------------------------------------------------------------
  // The round trip

  lemma {:induction false} DecimalValue(n: nat)
    ensures Value(Decimal(n), 10) == n
    decreases n
  {
    var s := Decimal(n);
    if n >= 10 {
      DecimalValue(n / 10);
      assert s[..|s| - 1] == Decimal(n / 10);
    }
  }

  lemma {:induction false} DecimalHead(n: nat)
    requires n > 0
    ensures Decimal(n)[0] != '0'
    decreases n
  {
    if n >= 10 {
      DecimalHead(n / 10);
    }
  }

  /** A run of digits ended by a non-digit: RunEnd finds its end. */
  lemma {:induction false} RunEndAt(s: string, j: nat, e: nat, base: nat)
    requires j <= e <= |s| && forall k :: j <= k < e ==> DigitValue(s[k]) < base
    requires DigitValue(At(s, e)) >= base
    ensures RunEnd(s, j, base) == e
    decreases e - j
  {
    if j < e {
      RunEndAt(s, j + 1, e, base);
    }
  }

  /** strtol reads back a positive decimal number written at i and stops at the non-digit after it. */
  lemma ReadDecimal(s: string, i: nat, n: nat)
    requires 0 < n <= LONG_MAX
    requires i + |Decimal(n)| <= |s| && s[i..i + |Decimal(n)|] == Decimal(n)
    requires DigitValue(At(s, i + |Decimal(n)|)) >= 10
    ensures StrToL(s, i) == (n, i + |Decimal(n)|)
  {
    var d := Decimal(n);
    var e := i + |d|;
    assert s[i] == d[0];
    DecimalHead(n);
    assert '0' <= s[i] <= '9';
    assert StrToL(s, i) == Scan(s, i, i, 1, false) == Scan(s, i, i, 2, false);
    forall k | i <= k < e ensures DigitValue(s[k]) < 10 {
      assert s[k] == d[k - i];
    }
    RunEndAt(s, i, e, 10);
    DecimalValue(n);
  }

  /** A mode the printer can write faithfully. */
  predicate Printable(m: Mode)
  {
    0 < m.baud <= INT_MAX && (m.databits == 7 || m.databits == 8) &&
    m.parity in {NoParity, EvenParity, OddParity} && m.stopbits in {OneStopBit, TwoStopBits}
  }

  /** The fields of a printed mode string, character by character, parse back. */
  lemma ParseFields(v: string, n: nat, bits: byte, pc: char, sc: char, h: char)
    requires 0 < n <= INT_MAX && (bits == 7 || bits == 8)
    requires ParityOf(pc).Some? && StopBitsOf(sc).Some? && IsHandshake(h)
    requires var L := |Decimal(n)|;
             |v| == L + 8 && v[..L] == Decimal(n) && v[L] == ',' && v[L + 1] == (bits + '0' as int) as char &&
             v[L + 2] == ',' && v[L + 3] == pc && v[L + 4] == ',' && v[L + 5] == sc && v[L + 6] == ',' && v[L + 7] == h
    ensures ModeOf(v) == Some(Mode(n, bits, ParityOf(pc).value, StopBitsOf(sc).value))
  {
    var L := |Decimal(n)|;
    BaudRead(v, n);
    BitsRead(v, L + 1, n, bits);
    assert At(v, L + 3) == pc && At(v, L + 5) == sc && At(v, L + 7) == h && At(v, L + 8) == '\0';
  }

  /** The baud rate's digits and the comma after them read back; the data bits come next. */
  lemma BaudRead(v: string, n: nat)
    requires 0 < n <= INT_MAX && |Decimal(n)| < |v| && v[..|Decimal(n)|] == Decimal(n) && v[|Decimal(n)|] == ','
    ensures ModeOf(v) == DataBitsOn(v, |Decimal(n)| + 1, n)
  {
    ReadDecimal(v, 0, n);
    var t := StrToL(v, 0);
    assert t == (n as int, |Decimal(n)|);
    assert ToInt32(t.0) == n;
  }

  /** The data bits' digit at i and the comma after it read back; the parity comes next. */
  lemma BitsRead(v: string, i: nat, baud: u64, bits: byte)
    requires 0 < baud <= INT_MAX && (bits == 7 || bits == 8)
    requires i + 1 < |v| && v[i] == (bits + '0' as int) as char && v[i + 1] == ','
    ensures DataBitsOn(v, i, baud) == FlagsOn(v, i + 2, baud, bits)
  {
    OneDigit(bits);
    assert v[i..i + 1] == Decimal(bits);
    ReadDecimal(v, i, bits);
    assert ToInt32(bits as int) == bits as int;
  }

  /** comc_print_mode's output, character by character, after the baud rate's digits. */
  lemma PrintedLayout(m: Mode)
    requires Printable(m)
    ensures var v := PrintMode(m);
            var L := |Decimal(m.baud)|;
            |v| == L + 8 && v[..L] == Decimal(m.baud) &&
            v[L] == ',' && v[L + 1] == (m.databits + '0' as int) as char && v[L + 2] == ',' &&
            v[L + 3] == ParityChar(m.parity) && v[L + 4] == ',' &&
            v[L + 5] == (StopNumber(m.stopbits) + '0' as int) as char && v[L + 6] == ',' && v[L + 7] == '-'
  {
    var v := PrintMode(m);
    var b := Decimal(m.baud);
    var sc := (StopNumber(m.stopbits) + '0' as int) as char;
    var tail := [',', (m.databits + '0' as int) as char, ',', ParityChar(m.parity), ',', sc, ',', '-'];
    OneDigit(m.databits);
    OneDigit(StopNumber(m.stopbits));
    Joined(b, (m.databits + '0' as int) as char, ParityChar(m.parity), sc);
    EightAfter(b, tail, v);
  }

  /** The pieces comc_print_mode joins, once each number is one digit. */
  lemma Joined(b: string, d: char, p: char, s: char)
    ensures b + "," + [d] + "," + [p] + "," + [s] + ",-" == b + [',', d, ',', p, ',', s, ',', '-']
  {
  }

  /** The characters of v = b + tail past b are tail's. */
  lemma EightAfter(b: string, tail: string, v: string)
    requires v == b + tail && |tail| == 8
    ensures |v| == |b| + 8 && v[..|b|] == b
    ensures v[|b|] == tail[0] && v[|b| + 1] == tail[1] && v[|b| + 2] == tail[2] && v[|b| + 3] == tail[3]
    ensures v[|b| + 4] == tail[4] && v[|b| + 5] == tail[5] && v[|b| + 6] == tail[6] && v[|b| + 7] == tail[7]
  {
    assert v[..|b|] == b;
  }

  /** Parsing what comc_print_mode wrote restores the baud rate, data bits, parity and stop bits. */
  lemma PrintParse(m: Mode)
    requires Printable(m)
    ensures ModeOf(PrintMode(m)) == Some(m)
  {
    PrintedLayout(m);
    ParseFields(PrintMode(m), m.baud, m.databits, ParityChar(m.parity), (StopNumber(m.stopbits) + '0' as int) as char, '-');
  }

  /**
   * An accepted mode string ends, after the numbers, with ",p,s,h": the
   * parsed parity's and stop bits' characters and a handshake character,
   * and nothing follows.
   */
  lemma ModeShape(v: string)
    requires ModeOf(v).Some?
    ensures var m := ModeOf(v).value;
            exists p :: 6 <= p <= |v| && At(v, p) == '\0' && v[p - 6] == ',' && v[p - 5] == ParityChar(m.parity) &&
                        v[p - 4] == ',' && v[p - 3] == (StopNumber(m.stopbits) + '0' as int) as char &&
                        v[p - 2] == ',' && IsHandshake(v[p - 1])
  {
    var e1 := StrToL(v, 0).1;
    var e2 := StrToL(v, e1 + 1).1;
    var p := e2 + 6;
    assert At(v, p) == '\0';
  }

  // ------------------------------------------------------------------
  // The port and console state

  /** struct serial: a port's settings, its handle index and whether its protocol was opened. */
  class Serial {
    var baudrate: u64
    var databits: byte
    var parity: Parity
    var stopbits: StopBits
    var ignoreCd: bool
    var rtsdtrOff: bool
    var ioaddr: int
    var sio: bool

    function Settings(): Mode
      reads this
    {
      Mode(baudrate, databits, parity, stopbits)
    }

    /** comc_probe's initialisation, for the console at index: 8,n,1 at COMSPEED, ignore cd, rts-dtr on. */
    constructor(index: nat, nhandles: int, openOk: bool)
      ensures Settings() == Mode(COMSPEED, 8, NoParity, OneStopBit)
      ensures ignoreCd && !rtsdtrOff
      ensures ioaddr == (if index < nhandles && openOk then index else -1)
      ensures sio <==> ioaddr != -1
    {
      baudrate := COMSPEED;
      var addr: int := index;
      if addr >= nhandles {
        addr := -1;
      }
      databits := 8;
      parity := NoParity;
      stopbits := OneStopBit;
      ignoreCd := true;
      rtsdtrOff := false;
      sio := false;
      if addr != -1 {
        sio := openOk;
        if !openOk {
          addr := -1;
        }
      }
      ioaddr := addr;
    }

    /** comc_parse_mode: all or nothing. */
    method ParseMode(value: string) returns (r: CmdStatus)
      modifies this
      ensures r == CmdOk <==> ModeOf(value).Some?
      ensures r == CmdOk ==> Settings() == ModeOf(value).value
      ensures r == CmdError ==> Settings() == old(Settings())
      ensures ignoreCd == old(ignoreCd) && rtsdtrOff == old(rtsdtrOff)
      ensures ioaddr == old(ioaddr) && sio == old(sio)
    {
      var t := StrToL(value, 0);
      var n := ToInt32(t.0);
      var ep := t.1;
      ghost var spec := ModeOf(value);
      var baud: u64;
      if n > 0 {
        baud := n;
      } else {
        return CmdError;
      }
      if At(value, ep) == ',' {
        ep := ep + 1;
      } else {
        return CmdError;
      }
      assert spec == DataBitsOn(value, ep, baud);
      ghost var i := ep;
      t := StrToL(value, ep);
      n := ToInt32(t.0);
      ep := t.1;
      var bits: byte;
      if n == 7 {
        bits := 7;
      } else if n == 8 {
        bits := 8;
      } else {
        return CmdError;
      }
      if At(value, ep) == ',' {
        ep := ep + 1;
      } else {
        return CmdError;
      }
      assert DataBitsOn(value, i, baud) == FlagsOn(value, ep, baud, bits);
      var c := At(value, ep);
      ep := ep + 1;
      var par: Parity;
      if c == 'n' {
        par := NoParity;
      } else if c == 'e' {
        par := EvenParity;
      } else if c == 'o' {
        par := OddParity;
      } else {
        return CmdError;
      }
      if At(value, ep) == ',' {
        ep := ep + 1;
      } else {
        return CmdError;
      }
      c := At(value, ep);
      ep := ep + 1;
      var stop: StopBits;
      if c == '1' {
        stop := OneStopBit;
      } else if c == '2' {
        stop := TwoStopBits;
      } else {
        return CmdError;
      }
      if At(value, ep) == ',' {
        ep := ep + 1;
      } else {
        return CmdError;
      }
      c := At(value, ep);
      ep := ep + 1;
      if !(c == '-' || c == 'h' || c == 's') {
        return CmdError;
      }
      if At(value, ep) != '\0' {
        return CmdError;
      }
      baudrate := baud;
      databits := bits;
      parity := par;
      stopbits := stop;
      return CmdOk;
    }

    /**
     * The environment half of comc_probe: the mode string, if set, parsed
     * over the settings, then ignore-cd and rts-dtr-off taken from "true"
     * or "false" and kept otherwise.  Returns the values published back.
     */
    method ApplyEnv(modeEnv: Option<string>, cdEnv: Option<string>, rtsEnv: Option<string>)
      returns (modeVar: string, cdVar: string, rtsVar: string)
      modifies this
      ensures Settings() == (if modeEnv.Some? && ModeOf(modeEnv.value).Some? then ModeOf(modeEnv.value).value
                             else old(Settings()))
      ensures ignoreCd == (if cdEnv.Some? && BoolValue(cdEnv.value).Some? then BoolValue(cdEnv.value).value
                           else old(ignoreCd))
      ensures rtsdtrOff == (if rtsEnv.Some? && BoolValue(rtsEnv.value).Some? then BoolValue(rtsEnv.value).value
                            else old(rtsdtrOff))
      ensures ioaddr == old(ioaddr) && sio == old(sio)
      ensures modeVar == PrintMode(Settings()) && cdVar == BoolString(ignoreCd) && rtsVar == BoolString(rtsdtrOff)
    {
      if modeEnv.Some? {
        var _ := ParseMode(modeEnv.value);
      }
      modeVar := PrintMode(Settings());
      if cdEnv.Some? {
        if BoolValue(cdEnv.value) == Some(true) {
          ignoreCd := true;
        } else if BoolValue(cdEnv.value) == Some(false) {
          ignoreCd := false;
        }
      }
      cdVar := BoolString(ignoreCd);
      if rtsEnv.Some? {
        if BoolValue(rtsEnv.value) == Some(true) {
          rtsdtrOff := true;
        } else if BoolValue(rtsEnv.value) == Some(false) {
          rtsdtrOff := false;
        }
      }
      rtsVar := BoolString(rtsdtrOff);
    }
  }

  /** "true" and "false", the only values the ignore-cd and rts-dtr-off variables take. */
  function BoolValue(s: string): Option<bool>
  {
    if s == "true" then Some(true) else if s == "false" then Some(false) else None
  }

  function BoolString(b: bool): string
  {
    if b then "true" else "false"
  }

  lemma BoolRoundTrip(b: bool, s: string)
    ensures BoolValue(BoolString(b)) == Some(b)
    ensures BoolValue(s) == Some(b) ==> s == BoolString(b)
  {
  }

  /** struct console for one of ttya-ttyd: its c_flags bits and its private port. */
  class Console {
    /** 0 for ttya, ..., 3 for ttyd. */
    const index: nat
    var activeIn: bool
    var activeOut: bool
    var presentIn: bool
    var presentOut: bool
    var port: Serial?

    constructor(i: nat)
      requires i < 4
      ensures index == i && port == null
      ensures !activeIn && !activeOut && !presentIn && !presentOut
    {
      index := i;
      activeIn, activeOut, presentIn, presentOut := false, false, false, false;
      port := null;
    }

    /**
     * comc_setup: nothing for a console not active in either direction;
     * otherwise present exactly when the port was opened and both Reset and
     * SetAttributes succeed.
     */
    method Setup(resetOk: bool, attrsOk: bool)
      requires (activeIn || activeOut) ==> port != null
      modifies this
      ensures port == old(port) && activeIn == old(activeIn) && activeOut == old(activeOut)
      ensures !(activeIn || activeOut) ==> presentIn == old(presentIn) && presentOut == old(presentOut)
      ensures (activeIn || activeOut) ==>
                presentIn == presentOut == (port.sio && resetOk && attrsOk)
    {
      if !(activeIn || activeOut) {
        return;
      }
      if !port.sio {
        presentIn, presentOut := false, false;
        return;
      }
      presentIn, presentOut := true, true;
      if !resetOk {
        presentIn, presentOut := false, false;
      }
      if !attrsOk {
        presentIn, presentOut := false, false;
      }
    }

    /**
     * comc_probe: once only, a fresh port with the defaults, the
     * environment's mode string and flags applied over them, then
     * comc_setup.  Returns the values published for the three variables.
     */
    method Probe(nhandles: int, openOk: bool, modeEnv: Option<string>, cdEnv: Option<string>,
                 rtsEnv: Option<string>, resetOk: bool, attrsOk: bool)
      returns (modeVar: string, cdVar: string, rtsVar: string)
      modifies this
      ensures old(port) != null ==> port == old(port) && unchanged(this)
      ensures old(port) == null ==> fresh(port) && port.ioaddr == (if index < nhandles && openOk then index else -1)
      ensures old(port) == null ==>
                var m := if modeEnv.Some? && ModeOf(modeEnv.value).Some? then ModeOf(modeEnv.value).value
                         else Mode(COMSPEED, 8, NoParity, OneStopBit);
                port.Settings() == m && modeVar == PrintMode(m) &&
                port.ignoreCd == (if cdEnv.Some? && BoolValue(cdEnv.value).Some? then BoolValue(cdEnv.value).value else true) &&
                port.rtsdtrOff == (if rtsEnv.Some? && BoolValue(rtsEnv.value).Some? then BoolValue(rtsEnv.value).value else false) &&
                cdVar == BoolString(port.ignoreCd) && rtsVar == BoolString(port.rtsdtrOff)
      ensures old(port) == null && (activeIn || activeOut) ==> presentIn == presentOut == (port.sio && resetOk && attrsOk)
    {
      if port != null {
        modeVar, cdVar, rtsVar := "", "", "";
        return;
      }
      var p := new Serial(index, nhandles, openOk);
      port := p;
      modeVar, cdVar, rtsVar := p.ApplyEnv(modeEnv, cdEnv, rtsEnv);
      Setup(resetOk, attrsOk);
    }
  }

  /** get_console: by the fourth character of the variable's name, ttya-ttyd or none. */
  function GetConsole(name: string): (r: Option<nat>)
    ensures r.Some? ==> r.value < 4 && At(name, 3) == "abcd"[r.value]
    ensures r.None? <==> At(name, 3) !in "abcd"
  {
    var c := At(name, 3);
    if c == 'a' then Some(0) else if c == 'b' then Some(1)
    else if c == 'c' then Some(2) else if c == 'd' then Some(3) else None
  }

  /** The four consoles, each at its own index, probed and with distinct ports. */
  ghost predicate Consoles(ttys: seq<Console>)
    reads set i | 0 <= i < |ttys| :: ttys[i]
  {
    |ttys| == 4 &&
    (forall i :: 0 <= i < 4 ==> ttys[i].index == i && ttys[i].port != null)
  }

  /** The console and port a variable's hook changes. */
  ghost function Target(ttys: seq<Console>, name: string): set<object>
    requires Consoles(ttys)
    reads set i | 0 <= i < |ttys| :: ttys[i]
  {
    match GetConsole(name)
    case None => {}
    case Some(i) => {ttys[i] as object, ttys[i].port as object}
  }

  /**
   * What comc_setup leaves in a console's present flags after a hook: on
   * CMD_OK it ran, so an active console is present exactly when its port
   * is usable; otherwise, or when the console is inactive, they are kept.
   */
  twostate predicate PresentAfter(cp: Console, ok: bool, resetOk: bool, attrsOk: bool)
    requires cp.port != null
    reads cp, cp.port
  {
    cp.activeIn == old(cp.activeIn) && cp.activeOut == old(cp.activeOut) &&
    if ok && (cp.activeIn || cp.activeOut) then
      cp.presentIn == cp.presentOut == (cp.port.sio && resetOk && attrsOk)
    else
      cp.presentIn == old(cp.presentIn) && cp.presentOut == old(cp.presentOut)
  }

  /** The env_setenv(ev_name, EV_NOHOOK, value) a hook makes on CMD_OK: the variable and the value it stores. */
  function SetVar(r: CmdStatus, name: string, value: Option<string>): (v: Option<(string, string)>)
    ensures v.Some? <==> r == CmdOk && value.Some?
    ensures v.Some? ==> v.value == (name, value.value)
  {
    if r == CmdOk && value.Some? then Some((name, value.value)) else None
  }

  /**
   * comc_mode_set: CMD_ERROR for a missing value, an unknown console or a
   * string comc_parse_mode refuses, with the port unchanged; otherwise the
   * port takes the new mode, comc_setup runs and the variable is stored.
   */
  method ModeSet(ttys: seq<Console>, name: string, value: Option<string>, resetOk: bool, attrsOk: bool)
    returns (r: CmdStatus, setVar: Option<(string, string)>)
    requires Consoles(ttys)
    modifies Target(ttys, name)
    ensures Consoles(ttys)
    ensures r == CmdOk <==> value.Some? && GetConsole(name).Some? && ModeOf(value.value).Some?
    ensures setVar == SetVar(r, name, value)
    ensures r == CmdOk ==> ttys[GetConsole(name).value].port.Settings() == ModeOf(value.value).value
    ensures r == CmdError && GetConsole(name).Some? ==>
              ttys[GetConsole(name).value].port.Settings() == old(ttys[GetConsole(name).value].port.Settings())
    ensures GetConsole(name).Some? ==>
              var i := GetConsole(name).value;
              var sp := ttys[i].port;
              sp == old(ttys[i].port) && sp.sio == old(sp.sio) &&
              sp.ignoreCd == old(sp.ignoreCd) && sp.rtsdtrOff == old(sp.rtsdtrOff) &&
              PresentAfter(ttys[i], r == CmdOk, resetOk, attrsOk)
  {
    if value.None? {
      return CmdError, None;
    }
    var i := GetConsole(name);
    if i.None? {
      return CmdError, None;
    }
    var cp := ttys[i.value];
    var sp := cp.port;
    r := sp.ParseMode(value.value);
    if r == CmdError {
      return r, None;
    }
    cp.Setup(resetOk, attrsOk);
    setVar := Some((name, value.value));
  }

  /**
   * comc_cd_set and comc_rtsdtr_set: CMD_ERROR for a missing value, an
   * unknown console or anything but "true"/"false", with the flag
   * unchanged; otherwise the flag takes the value, comc_setup runs and the
   * variable is stored.
   */
  method FlagSet(ttys: seq<Console>, name: string, value: Option<string>, rtsdtr: bool, resetOk: bool, attrsOk: bool)
    returns (r: CmdStatus, setVar: Option<(string, string)>)
    requires Consoles(ttys)
    modifies Target(ttys, name)
    ensures Consoles(ttys)
    ensures r == CmdOk <==> value.Some? && GetConsole(name).Some? && BoolValue(value.value).Some?
    ensures setVar == SetVar(r, name, value)
    ensures GetConsole(name).Some? ==>
              var i := GetConsole(name).value;
              ttys[i].port.sio == old(ttys[i].port.sio) && PresentAfter(ttys[i], r == CmdOk, resetOk, attrsOk)
    ensures GetConsole(name).Some? ==>
              ttys[GetConsole(name).value].port == old(ttys[GetConsole(name).value].port)
    ensures GetConsole(name).Some? ==>
              var i := GetConsole(name).value;
              var sp := ttys[i].port;
              var flag := if rtsdtr then sp.rtsdtrOff else sp.ignoreCd;
              var was := if rtsdtr then old(ttys[i].port.rtsdtrOff) else old(ttys[i].port.ignoreCd);
              (r == CmdOk ==> flag == BoolValue(value.value).value) && (r == CmdError ==> flag == was) &&
              sp.Settings() == old(ttys[i].port.Settings()) &&
              (if rtsdtr then sp.ignoreCd == old(ttys[i].port.ignoreCd) else sp.rtsdtrOff == old(ttys[i].port.rtsdtrOff))
  {
    if value.None? {
      return CmdError, None;
    }
    var i := GetConsole(name);
    if i.None? {
      return CmdError, None;
    }
    var cp := ttys[i.value];
    var sp := cp.port;
    var b: bool;
    if value.value == "true" {
      b := true;
    } else if value.value == "false" {
      b := false;
    } else {
      return CmdError, None;
    }
    if rtsdtr {
      sp.rtsdtrOff := b;
    } else {
      sp.ignoreCd := b;
    }
    cp.Setup(resetOk, attrsOk);
    return CmdOk, Some((name, value.value));
  }
}
