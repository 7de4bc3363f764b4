/** The USB command line of cli_control.c: received characters are echoed and collected
    into a 64-byte line buffer, and each completed line is interpreted as a HELP, RGB or
    HSV command.

    The USB transport is replaced by values: the characters of one RX_DONE event are an
    input sequence, everything written back to the host is a sequence of strings in
    order, and the colour setters the interpreter calls are a sequence of Setter values. */
module Cli {
  import opened CInt

  /** MAX_CMD_SIZE: the capacity of the line buffer, terminator included. */
  const MaxCmdSize: nat := 64

  // ---------------------------------------------------------------- C strings and strtok

  /** The characters of `s` before its first NUL: what the C string functions see. */
  function CString(s: seq<char>): (r: seq<char>)
    ensures r <= s && '\0' !in r
    ensures |r| < |s| ==> s[|r|] == '\0'
  {
    if s == [] || s[0] == '\0' then [] else [s[0]] + CString(s[1..])
  }

  /** The length of the run of non-space characters that starts `s`. */
  function TokenLength(s: seq<char>): (n: nat)
    ensures n <= |s| && (forall i :: 0 <= i < n ==> s[i] != ' ')
    ensures n < |s| ==> s[n] == ' '
  {
    if s == [] || s[0] == ' ' then 0 else 1 + TokenLength(s[1..])
  }

  /** The tokens successive strtok(…, " ") calls return: the maximal runs of non-space characters, in order. */
  function Tokens(s: seq<char>): (r: seq<seq<char>>)
    ensures forall i :: 0 <= i < |r| ==> |r[i]| > 0 && ' ' !in r[i]
    decreases |s|
  {
    if s == [] then []
    else if s[0] == ' ' then Tokens(s[1..])
    else
      var n := TokenLength(s);
      [s[..n]] + Tokens(s[n..])
  }

  /** There are no tokens exactly when the line is all spaces. */
  lemma {:induction false} TokensShape(s: seq<char>)
    ensures |Tokens(s)| == 0 <==> forall i :: 0 <= i < |s| ==> s[i] == ' '
    decreases |s|
  {
    if s != [] && s[0] == ' ' {
      TokensShape(s[1..]);
      assert forall i :: 0 < i < |s| ==> s[i] == s[1..][i - 1];
    }
  }

  /** A token run is not changed by what follows a separating space. */
  lemma {:induction false} TokenLengthBeforeSpace(a: seq<char>, b: seq<char>)
    ensures TokenLength(a + [' '] + b) == TokenLength(a)
  {
    if a != [] && a[0] != ' ' {
      assert (a + [' '] + b)[1..] == a[1..] + [' '] + b;
      TokenLengthBeforeSpace(a[1..], b);
    }
  }

  /** Splitting at a space splits the tokens: the tokens of `a b` are those of `a` followed by those of `b`. */
  lemma {:induction false} TokensOfJoin(a: seq<char>, b: seq<char>)
    ensures Tokens(a + [' '] + b) == Tokens(a) + Tokens(b)
    decreases |a|, 1
  {
    var s := a + [' '] + b;
    if a == [] {
      assert s[1..] == b;
    } else if a[0] == ' ' {
      assert s[1..] == a[1..] + [' '] + b;
      TokensOfJoin(a[1..], b);
    } else {
      TokensOfJoinWord(a, b);
    }
  }

  /** TokensOfJoin when `a` starts with a token: that token is cut before the separating space. */
  lemma {:induction false} TokensOfJoinWord(a: seq<char>, b: seq<char>)
    requires a != [] && a[0] != ' '
    ensures Tokens(a + [' '] + b) == Tokens(a) + Tokens(b)
    decreases |a|, 0
  {
    var s := a + [' '] + b;
    var n := TokenLength(a);
    TokenLengthBeforeSpace(a, b);
    assert s[..n] == a[..n];
    assert s[n..] == a[n..] + [' '] + b;
    assert Tokens(s) == [a[..n]] + Tokens(s[n..]) by { assert s[0] == a[0]; }
    TokensOfJoin(a[n..], b);
  }

  // ---------------------------------------------------------------- toupper

  /** toupper in the C locale: only 'a' to 'z' change. */
  function UpperChar(c: char): (r: char)
    ensures 'a' <= c <= 'z' ==> r as int == c as int - 32
    ensures !('a' <= c <= 'z') ==> r == c
  {
    if 'a' <= c <= 'z' then (c as int - 32) as char else c
  }

  function Upper(s: seq<char>): (r: seq<char>)
    ensures |r| == |s| && forall i :: 0 <= i < |s| ==> r[i] == UpperChar(s[i])
  {
    if s == [] then [] else [UpperChar(s[0])] + Upper(s[1..])
  }

  /** The command word as compared: the first token, cut to 63 characters by the strncpy, upper-cased. */
  function CommandWord(token: seq<char>): (r: seq<char>)
    ensures |token| < MaxCmdSize ==> r == Upper(token)
    ensures |r| <= MaxCmdSize - 1
  {
    Upper(if |token| < MaxCmdSize then token else token[..MaxCmdSize - 1])
  }

  // ---------------------------------------------------------------- atoi and decimal output

  predicate IsDigit(c: char) {
    '0' <= c <= '9'
  }

  /** isspace in the C locale. */
  predicate IsSpace(c: char) {
    c == ' ' || c == '\t' || c == '\n' || c == '\U{0B}' || c == '\U{0C}' || c == '\r'
  }

  /** The length of the run of digits that starts `s`. */
  function DigitRun(s: seq<char>): (n: nat)
    ensures n <= |s| && (forall i :: 0 <= i < n ==> IsDigit(s[i]))
    ensures n < |s| ==> !IsDigit(s[n])
  {
    if s == [] || !IsDigit(s[0]) then 0 else 1 + DigitRun(s[1..])
  }

  /** The value of one decimal digit. */
  function DigitValue(c: char): (d: nat)
    requires IsDigit(c)
    ensures d < 10
  {
    c as int - '0' as int
  }

  /** The value of a string of decimal digits. */
  function ValueOf(digits: seq<char>): nat
    requires forall i :: 0 <= i < |digits| ==> IsDigit(digits[i])
  {
    if digits == [] then 0
    else 10 * ValueOf(digits[..|digits| - 1]) + DigitValue(digits[|digits| - 1])
  }

  /** The value of the leading digits of `s`, 0 if there are none. */
  function Number(s: seq<char>): nat {
    ValueOf(s[..DigitRun(s)])
  }

  /** atoi, as a mathematical integer: white space, then an optional sign, then the leading digits. */
  function Atoi(s: seq<char>): (r: int)
    ensures (forall k :: 0 <= k < |s| ==> !IsDigit(s[k])) ==> r == 0
    decreases |s|
  {
    if |s| > 0 && IsSpace(s[0]) then Atoi(s[1..])
    else if |s| > 0 && s[0] == '-' then -(Number(s[1..]) as int)
    else if |s| > 0 && s[0] == '+' then Number(s[1..])
    else Number(s)
  }

  /** atoi has a defined result only when the value fits an `int`; it always does on fewer than ten characters. */
  predicate AtoiDefined(s: seq<char>)
    ensures |s| < 10 ==> AtoiDefined(s)
  {
    ShortAtoiFits(s);
    -0x8000_0000 <= Atoi(s) < 0x8000_0000
  }

  function Pow10(n: nat): (r: nat)
    ensures r > 0
  {
    if n == 0 then 1 else 10 * Pow10(n - 1)
  }

  lemma {:induction false} Pow10Monotone(m: nat, n: nat)
    requires m <= n
    ensures Pow10(m) <= Pow10(n)
    decreases n
  {
    if m < n {
      Pow10Monotone(m, n - 1);
    }
  }

  /** atoi of fewer than ten characters fits an `int`. */
  lemma ShortAtoiFits(s: seq<char>)
    ensures |s| < 10 ==> -0x8000_0000 <= Atoi(s) < 0x8000_0000
  {
    if |s| < 10 {
      AtoiBound(s);
      Pow10Monotone(|s|, 9);
      assert Pow10(9) == 1_000_000_000;
    }
  }

  /** A string of d digits has a value below 10^d. */
  lemma {:induction false} ValueOfBound(digits: seq<char>)
    requires forall i :: 0 <= i < |digits| ==> IsDigit(digits[i])
    ensures ValueOf(digits) < Pow10(|digits|)
    decreases |digits|
  {
    if digits != [] {
      ValueOfBound(digits[..|digits| - 1]);
    }
  }

  /** atoi of n characters lies strictly between -10^n and 10^n. */
  lemma {:induction false} AtoiBound(s: seq<char>)
    ensures -(Pow10(|s|) as int) < Atoi(s) < Pow10(|s|)
    decreases |s|
  {
    if |s| > 0 && IsSpace(s[0]) {
      AtoiBound(s[1..]);
      Pow10Monotone(|s| - 1, |s|);
    } else if |s| > 0 && (s[0] == '-' || s[0] == '+') {
      var t := s[1..];
      ValueOfBound(t[..DigitRun(t)]);
      Pow10Monotone(DigitRun(t), |s|);
    } else {
      ValueOfBound(s[..DigitRun(s)]);
      Pow10Monotone(DigitRun(s), |s|);
    }
  }

  function DigitChar(d: nat): (c: char)
    requires d < 10
    ensures IsDigit(c) && DigitValue(c) == d
  {
    ('0' as int + d) as char
  }

  /** The decimal representation printf's %d gives a non-negative value. */
  function Decimal(n: nat): (r: seq<char>)
    ensures |r| > 0 && forall i :: 0 <= i < |r| ==> IsDigit(r[i])
    ensures |r| > 1 ==> r[0] != '0'
    decreases n
  {
    if n < 10 then [DigitChar(n)] else Decimal(n / 10) + [DigitChar(n % 10)]
  }

  /** Reading back a printed value gives the value. */
  lemma {:induction false} ValueOfDecimal(n: nat)
    ensures ValueOf(Decimal(n)) == n
    decreases n
  {
    if n >= 10 {
      ValueOfDecimal(n / 10);
      var d := Decimal(n);
      assert d[..|d| - 1] == Decimal(n / 10);
    }
  }

  /** atoi inverts %d: on the decimal form of n it returns n, and on "-" and that form it returns -n. */
  lemma AtoiOfDecimal(n: nat)
    ensures Atoi(Decimal(n)) == n && Atoi(['-'] + Decimal(n)) == -(n as int)
  {
    var d := Decimal(n);
    assert d[..DigitRun(d)] == d;
    assert (['-'] + d)[1..] == d;
    ValueOfDecimal(n);
  }

  /** atoi skips leading white space. */
  lemma AtoiSkipsSpace(c: char, s: seq<char>)
    requires IsSpace(c)
    ensures Atoi([c] + s) == Atoi(s)
  {
    assert ([c] + s)[1..] == s;
  }

  /** atoi stops at the first character that is not a digit. */
  lemma AtoiStopsAtNonDigit(digits: seq<char>, rest: seq<char>)
    requires |digits| > 0 && forall i :: 0 <= i < |digits| ==> IsDigit(digits[i])
    requires rest == [] || !IsDigit(rest[0])
    ensures Atoi(digits + rest) == ValueOf(digits)
  {
    var s := digits + rest;
    DigitRunOfPrefix(digits, rest);
    assert s[..|digits|] == digits;
  }

  lemma {:induction false} DigitRunOfPrefix(digits: seq<char>, rest: seq<char>)
    requires forall i :: 0 <= i < |digits| ==> IsDigit(digits[i])
    requires rest == [] || !IsDigit(rest[0])
    ensures DigitRun(digits + rest) == |digits|
  {
    if digits != [] {
      assert (digits + rest)[1..] == digits[1..] + rest;
      DigitRunOfPrefix(digits[1..], rest);
    }
  }

  /** Without digits after the optional white space and sign, atoi returns 0. */
  lemma AtoiWithoutDigits(s: seq<char>)
    requires |s| > 0 && !IsSpace(s[0])
    requires DigitRun(if s[0] == '-' || s[0] == '+' then s[1..] else s) == 0
    ensures Atoi(s) == 0
  {
  }

  // ---------------------------------------------------------------- process_command

  /** A call of led_set_rgb_color or led_set_hsv_color. */
  datatype Setter = SetRgb(red: uint8, green: uint8, blue: uint8) | SetHsv(hue: uint32, saturation: uint32, value: uint32)

  /** What process_command sends back and the colour setter it calls, if any. */
  datatype Reply = Reply(response: seq<char>, call: Option<Setter>)

  const HelpText: seq<char> :=
    "\r\nCommands:\r\n" +
    "RGB <r> <g> <b> - r - red [0..255], g - green [0..255], b - blue [0..255]\r\n" +
    "HSV <h> <s> <v> - h - hue [0..360], s - saturation [0..100], v - value/brightness [0..100]\r\n" +
    "help - show this message\r\n"
  const BlankLine: seq<char> := "\r\nUnknown command\r\n"
  const BadRgbFormat: seq<char> := "\r\nInvalid RGB command format\r\n"
  const BadRgbValues: seq<char> := "\r\nInvalid RGB values (each should be 0-255)\r\n"
  const BadHsvFormat: seq<char> := "\r\nInvalid HSV command format\r\n"
  const BadHsvValues: seq<char> := "\r\nInvalid HSV values (H:0-360, S/V:0-100)\r\n"

  function UnknownCommand(token: seq<char>): seq<char> {
    "\r\nUnknown command: " + token + "\r\n"
  }

  function RgbSet(r: nat, g: nat, b: nat): seq<char> {
    "\r\nColor set to R=" + Decimal(r) + " G=" + Decimal(g) + " B=" + Decimal(b) + "\r\n"
  }

  function HsvSet(h: nat, s: nat, v: nat): seq<char> {
    "\r\nColor set to H=" + Decimal(h) + " S=" + Decimal(s) + " V=" + Decimal(v) + "\r\n"
  }

  /** atoi is defined on the three arguments of every RGB or HSV command that has them. */
  predicate ArgumentsDefined(line: seq<char>) {
    var ts := Tokens(line);
    |ts| >= 4 && (CommandWord(ts[0]) == "RGB" || CommandWord(ts[0]) == "HSV") ==>
      AtoiDefined(ts[1]) && AtoiDefined(ts[2]) && AtoiDefined(ts[3])
  }

  /** process_command on the command line `line`. */
  function Interpret(line: seq<char>): (r: Reply)
    requires ArgumentsDefined(line)
    ensures r.call.Some? ==> |Tokens(line)| >= 4
    ensures r.call.Some? && r.call.value.SetRgb? ==> CommandWord(Tokens(line)[0]) == "RGB"
    ensures r.call.Some? && r.call.value.SetHsv? ==>
      CommandWord(Tokens(line)[0]) == "HSV" &&
      r.call.value.hue <= 360 && r.call.value.saturation <= 100 && r.call.value.value <= 100
  {
    var ts := Tokens(line);
    if |ts| == 0 then Reply(BlankLine, None)
    else
      var cmd := CommandWord(ts[0]);
      if cmd == "HELP" then Reply(HelpText, None)
      else if cmd == "RGB" then
        if |ts| >= 4 then
          var r, g, b := Atoi(ts[1]), Atoi(ts[2]), Atoi(ts[3]);
          if 0 <= r <= 255 && 0 <= g <= 255 && 0 <= b <= 255 then Reply(RgbSet(r, g, b), Some(SetRgb(r, g, b)))
          else Reply(BadRgbValues, None)
        else Reply(BadRgbFormat, None)
      else if cmd == "HSV" then
        if |ts| >= 4 then
          var h, s, v := Wrap32(Atoi(ts[1])), Wrap32(Atoi(ts[2])), Wrap32(Atoi(ts[3]));
          if h <= 360 && s <= 100 && v <= 100 then Reply(HsvSet(h, s, v), Some(SetHsv(h, s, v)))
          else Reply(BadHsvValues, None)
        else Reply(BadHsvFormat, None)
      else Reply(UnknownCommand(ts[0]), None)
  }

  /** The RGB colour is set exactly when there are three arguments and each reads as 0 to 255,
      and then to those three values; otherwise the reply names the format or the range error. */
  lemma RgbAppliedIff(line: seq<char>)
    requires ArgumentsDefined(line)
    requires |Tokens(line)| > 0 && CommandWord(Tokens(line)[0]) == "RGB"
    ensures var ts, r := Tokens(line), Interpret(line);
      && (r.call.Some? <==>
            |ts| >= 4 && 0 <= Atoi(ts[1]) <= 255 && 0 <= Atoi(ts[2]) <= 255 && 0 <= Atoi(ts[3]) <= 255)
      && (r.call.Some? ==>
            r.call.value == SetRgb(Atoi(ts[1]), Atoi(ts[2]), Atoi(ts[3])) &&
            r.response == RgbSet(Atoi(ts[1]), Atoi(ts[2]), Atoi(ts[3])))
      && (|ts| < 4 ==> r.response == BadRgbFormat)
      && (|ts| >= 4 && r.call.None? ==> r.response == BadRgbValues)
  {
  }

  /** The (uint32_t) conversion of an `int`: non-negative values are kept, negative ones become 2^32 more,
      which is at least 2^31. */
  lemma UnsignedView(x: int)
    requires -0x8000_0000 <= x < 0x8000_0000
    ensures 0 <= x ==> Wrap32(x) == x
    ensures x < 0 ==> Wrap32(x) == x + 0x1_0000_0000 && Wrap32(x) >= 0x8000_0000
  {
  }

  /** HSV is applied exactly when there are three arguments with 0 <= h <= 360, 0 <= s <= 100 and
      0 <= v <= 100, and then with those values: a negative argument turns into a large unsigned value and
      is rejected by the range check. */
  lemma HsvAppliedIff(line: seq<char>)
    requires ArgumentsDefined(line)
    requires |Tokens(line)| > 0 && CommandWord(Tokens(line)[0]) == "HSV"
    ensures var ts, r := Tokens(line), Interpret(line);
      && (r.call.Some? <==>
            |ts| >= 4 && 0 <= Atoi(ts[1]) <= 360 && 0 <= Atoi(ts[2]) <= 100 && 0 <= Atoi(ts[3]) <= 100)
      && (r.call.Some? ==>
            r.call.value == SetHsv(Atoi(ts[1]), Atoi(ts[2]), Atoi(ts[3])) &&
            r.response == HsvSet(Atoi(ts[1]), Atoi(ts[2]), Atoi(ts[3])))
      && (|ts| < 4 ==> r.response == BadHsvFormat)
      && (|ts| >= 4 && r.call.None? ==> r.response == BadHsvValues)
  {
    var ts := Tokens(line);
    if |ts| >= 4 {
      UnsignedView(Atoi(ts[1]));
      UnsignedView(Atoi(ts[2]));
      UnsignedView(Atoi(ts[3]));
    }
  }

  /** HELP, RGB and HSV are recognised in any letter case: two lines whose command words agree
      after upper-casing and whose arguments are the same get the same reply. */
  lemma CommandCaseIgnored(a: seq<char>, b: seq<char>)
    requires ArgumentsDefined(a) && ArgumentsDefined(b)
    requires |Tokens(a)| > 0 && |Tokens(b)| > 0 && Tokens(a)[1..] == Tokens(b)[1..]
    requires Upper(Tokens(a)[0]) == Upper(Tokens(b)[0])
    requires Upper(Tokens(a)[0]) in {"HELP", "RGB", "HSV"}
    ensures Interpret(a) == Interpret(b)
  {
    var ta, tb := Tokens(a), Tokens(b);
    assert |ta| == |tb| by {
      assert |ta[1..]| == |tb[1..]|;
    }
    if |ta| >= 4 {
      assert ta[1] == ta[1..][0] == tb[1..][0] == tb[1];
      assert ta[2] == ta[1..][1] == tb[1..][1] == tb[2];
      assert ta[3] == ta[1..][2] == tb[1..][2] == tb[3];
    }
  }

  /** A first token that is not a command gets "Unknown command: " and the token as typed; a line of
      spaces only gets "Unknown command". No setter is called. */
  lemma UnknownCommandReply(line: seq<char>)
    requires ArgumentsDefined(line)
    requires |Tokens(line)| > 0 ==> CommandWord(Tokens(line)[0]) !in {"HELP", "RGB", "HSV"}
    ensures (forall i :: 0 <= i < |line| ==> line[i] == ' ') ==> Interpret(line) == Reply(BlankLine, None)
    ensures |Tokens(line)| > 0 ==> Interpret(line) == Reply(UnknownCommand(Tokens(line)[0]), None)
  {
    TokensShape(line);
  }

  /** Tokens after the third argument are ignored: appending more words to a line of four or more tokens
      leaves the reply and the setter call unchanged. */
  lemma ExtraTokensIgnored(line: seq<char>, extra: seq<char>)
    requires ArgumentsDefined(line) && |Tokens(line)| >= 4
    ensures ArgumentsDefined(line + [' '] + extra)
    ensures Interpret(line + [' '] + extra) == Interpret(line)
  {
    var longer := line + [' '] + extra;
    assert Tokens(longer)[..4] == Tokens(line)[..4] by {
      TokensOfJoin(line, extra);
    }
    SameFirstFourTokens(line, longer);
  }

  /** process_command reads no token past the fourth: two lines whose first four tokens agree get the same
      reply and the same setter call. */
  lemma SameFirstFourTokens(a: seq<char>, b: seq<char>)
    requires |Tokens(a)| >= 4 && |Tokens(b)| >= 4 && Tokens(a)[..4] == Tokens(b)[..4]
    ensures ArgumentsDefined(a) <==> ArgumentsDefined(b)
    ensures ArgumentsDefined(a) ==> Interpret(a) == Interpret(b)
  {
    var ta, tb := Tokens(a), Tokens(b);
    forall i | 0 <= i < 4
      ensures ta[i] == tb[i]
    {
      assert ta[i] == ta[..4][i] && tb[i] == tb[..4][i];
    }
  }

  /** The upper-casing loop of process_command: strncpy into a 64-byte buffer with a forced terminator,
      then toupper on each character up to the terminator. */
  method UpperCommand(cmd: seq<char>) returns (upper: seq<char>)
    requires '\0' !in cmd
    ensures upper == CommandWord(cmd)
  {
    var buffer := new char[MaxCmdSize](_ => '\0');
    var n := if |cmd| < MaxCmdSize then |cmd| else MaxCmdSize - 1;
    forall k | 0 <= k < n {
      buffer[k] := cmd[k];
    }
    buffer[MaxCmdSize - 1] := '\0';
    var i := 0;
    while buffer[i] != '\0'
      invariant 0 <= i <= n && buffer.Length == MaxCmdSize && buffer[n] == '\0'
      invariant forall k :: 0 <= k < i ==> buffer[k] == UpperChar(cmd[k])
      invariant forall k :: i <= k < n ==> buffer[k] == cmd[k]
      decreases n - i
    {
      buffer[i] := UpperChar(buffer[i]);
      i := i + 1;
    }
    upper := buffer[..i];
    assert upper == Upper(cmd[..n]);
  }

  // ---------------------------------------------------------------- the RX_DONE line accumulator

  /** One thing sent back to the host: the echo of a character, the reply of process_command to a
      completed line, or the "\r\n" that ends every line. */
  datatype Output = Echo(c: char) | Response(line: seq<char>) | LineEnd

  /** The pending line after some characters, and what was sent back meanwhile, in order. */
  datatype Effect = Effect(pending: seq<char>, outputs: seq<Output>)

  predicate IsTerminator(c: char) {
    c == '\r' || c == '\n'
  }

  /** One received character. A terminator processes a non-empty pending line (up to its first NUL,
      where strtok stops) and then ends the line. Any other character is stored and echoed while fewer
      than 63 are pending; at 63 the line is discarded and the character dropped without echo. */
  function Accept(pending: seq<char>, c: char): (r: Effect)
    ensures |pending| < MaxCmdSize ==> |r.pending| < MaxCmdSize
    ensures IsTerminator(c) && |pending| > 0 ==> r == Effect([], [Response(CString(pending)), LineEnd])
    ensures IsTerminator(c) && |pending| == 0 ==> r == Effect([], [LineEnd])
    ensures !IsTerminator(c) && |pending| < MaxCmdSize - 1 ==> r == Effect(pending + [c], [Echo(c)])
    ensures !IsTerminator(c) && |pending| >= MaxCmdSize - 1 ==> r == Effect([], [])
  {
    if IsTerminator(c) then
      if |pending| > 0 then Effect([], [Response(CString(pending)), LineEnd]) else Effect([], [LineEnd])
    else if |pending| < MaxCmdSize - 1 then Effect(pending + [c], [Echo(c)])
    else Effect([], [])
  }

  /** The characters of `input` received one after the other, starting with `pending`. */
  function Feed(pending: seq<char>, input: seq<char>): (r: Effect)
    ensures |pending| < MaxCmdSize ==> |r.pending| < MaxCmdSize
    decreases |input|
  {
    if input == [] then Effect(pending, [])
    else
      var before := Feed(pending, input[..|input| - 1]);
      var last := Accept(before.pending, input[|input| - 1]);
      Effect(last.pending, before.outputs + last.outputs)
  }

  /** The outputs of a prefix of the input are a prefix of the outputs. */
  lemma {:induction false} FeedPrefix(pending: seq<char>, input: seq<char>, k: nat)
    requires k <= |input|
    ensures Feed(pending, input[..k]).outputs <= Feed(pending, input).outputs
    decreases |input|
  {
    if k < |input| {
      assert input[..|input| - 1][..k] == input[..k];
      FeedPrefix(pending, input[..|input| - 1], k);
    } else {
      assert input[..k] == input;
    }
  }

  /** Every completed line is one the interpreter is defined on. */
  ghost predicate Answerable(outputs: seq<Output>, interpret: seq<char> --> Reply) {
    forall i :: 0 <= i < |outputs| && outputs[i].Response? ==> interpret.requires(outputs[i].line)
  }

  /** The string written for one output, with `interpret` answering a completed line. */
  function Written(o: Output, interpret: seq<char> --> Reply): seq<char>
    requires o.Response? ==> interpret.requires(o.line)
  {
    match o
    case Echo(c) => [c]
    case Response(line) => interpret(line).response
    case LineEnd => "\r\n"
  }

  /** The setters called for one output: those of the reply to a completed line, none otherwise. */
  function Called(o: Output, interpret: seq<char> --> Reply): seq<Setter>
    requires o.Response? ==> interpret.requires(o.line)
  {
    if o.Response? then CallList(interpret(o.line).call) else []
  }

  /** The strings written to the host, with `interpret` answering each completed line. */
  function Writes(outputs: seq<Output>, interpret: seq<char> --> Reply): (r: seq<seq<char>>)
    requires Answerable(outputs, interpret)
    ensures |r| == |outputs|
  {
    if outputs == [] then []
    else
      AnswerableTail(outputs, interpret);
      [Written(outputs[0], interpret)] + Writes(outputs[1..], interpret)
  }

  /** The colour setters called, in order, with `interpret` answering each completed line. */
  function Calls(outputs: seq<Output>, interpret: seq<char> --> Reply): (r: seq<Setter>)
    requires Answerable(outputs, interpret)
    ensures |r| <= |outputs|
  {
    if outputs == [] then []
    else
      AnswerableTail(outputs, interpret);
      Called(outputs[0], interpret) + Calls(outputs[1..], interpret)
  }

  /** The outputs after the first are answerable when all are. */
  lemma AnswerableTail(outputs: seq<Output>, interpret: seq<char> --> Reply)
    requires outputs != [] && Answerable(outputs, interpret)
    ensures Answerable(outputs[1..], interpret)
  {
    forall i | 0 <= i < |outputs| - 1 && outputs[1..][i].Response?
      ensures interpret.requires(outputs[1..][i].line)
    {
      assert outputs[1..][i] == outputs[i + 1];
    }
  }

  /** Consecutive outputs are answerable exactly when both parts are. */
  lemma AnswerableAppend(a: seq<Output>, b: seq<Output>, interpret: seq<char> --> Reply)
    ensures Answerable(a + b, interpret) <==> Answerable(a, interpret) && Answerable(b, interpret)
  {
    var ab := a + b;
    if Answerable(ab, interpret) {
      forall i | 0 <= i < |a| && a[i].Response?
        ensures interpret.requires(a[i].line)
      {
        assert ab[i] == a[i];
      }
      forall i | 0 <= i < |b| && b[i].Response?
        ensures interpret.requires(b[i].line)
      {
        assert ab[|a| + i] == b[i];
      }
    }
    if Answerable(a, interpret) && Answerable(b, interpret) {
      forall i | 0 <= i < |ab| && ab[i].Response?
        ensures interpret.requires(ab[i].line)
      {
        if i >= |a| {
          assert ab[i] == b[i - |a|];
        } else {
          assert ab[i] == a[i];
        }
      }
    }
  }

  /** Writes of consecutive outputs are consecutive. */
  lemma {:induction false} WritesAppend(a: seq<Output>, b: seq<Output>, interpret: seq<char> --> Reply)
    requires Answerable(a, interpret) && Answerable(b, interpret)
    ensures Answerable(a + b, interpret)
    ensures Writes(a + b, interpret) == Writes(a, interpret) + Writes(b, interpret)
    decreases |a|
  {
    AnswerableAppend(a, b, interpret);
    if a == [] {
      assert a + b == b;
    } else {
      AnswerableTail(a, interpret);
      var ab := a + b;
      assert ab[0] == a[0] && ab[1..] == a[1..] + b;
      WritesAppend(a[1..], b, interpret);
      assert Writes(ab, interpret) == [Written(a[0], interpret)] + Writes(a[1..] + b, interpret);
    }
  }

  /** Calls of consecutive outputs are consecutive. */
  lemma {:induction false} CallsAppend(a: seq<Output>, b: seq<Output>, interpret: seq<char> --> Reply)
    requires Answerable(a, interpret) && Answerable(b, interpret)
    ensures Answerable(a + b, interpret)
    ensures Calls(a + b, interpret) == Calls(a, interpret) + Calls(b, interpret)
    decreases |a|
  {
    AnswerableAppend(a, b, interpret);
    if a == [] {
      assert a + b == b;
    } else {
      AnswerableTail(a, interpret);
      var ab := a + b;
      assert ab[0] == a[0] && ab[1..] == a[1..] + b;
      CallsAppend(a[1..], b, interpret);
      assert Calls(ab, interpret) == Called(a[0], interpret) + Calls(a[1..] + b, interpret);
    }
  }

  /** Writes and Calls of consecutive outputs are consecutive. */
  lemma RenderAppend(a: seq<Output>, b: seq<Output>, interpret: seq<char> --> Reply)
    requires Answerable(a, interpret) && Answerable(b, interpret)
    ensures Answerable(a + b, interpret)
    ensures Writes(a + b, interpret) == Writes(a, interpret) + Writes(b, interpret)
    ensures Calls(a + b, interpret) == Calls(a, interpret) + Calls(b, interpret)
  {
    WritesAppend(a, b, interpret);
    CallsAppend(a, b, interpret);
  }

  /** The echo of each character. */
  function Echoes(s: seq<char>): (r: seq<Output>)
    ensures |r| == |s| && forall i :: 0 <= i < |s| ==> r[i] == Echo(s[i])
  {
    if s == [] then [] else Echoes(s[..|s| - 1]) + [Echo(s[|s| - 1])]
  }

  /** Characters that fit the buffer are collected and echoed one by one, nothing else happens. */
  lemma {:induction false} FeedCollects(pending: seq<char>, s: seq<char>)
    requires forall i :: 0 <= i < |s| ==> !IsTerminator(s[i])
    requires |pending| + |s| < MaxCmdSize
    ensures Feed(pending, s) == Effect(pending + s, Echoes(s))
    decreases |s|
  {
    if s != [] {
      var init := s[..|s| - 1];
      FeedCollects(pending, init);
      assert pending + init + [s[|s| - 1]] == pending + s;
    }
  }

  /** A line typed and then terminated: every character is echoed, then the reply to the line is sent,
      then "\r\n", and the buffer is empty again. */
  lemma TypedLine(line: seq<char>, terminator: char)
    requires forall i :: 0 <= i < |line| ==> !IsTerminator(line[i])
    requires 0 < |line| < MaxCmdSize && IsTerminator(terminator)
    ensures Feed([], line + [terminator]) == Effect([], Echoes(line) + [Response(CString(line)), LineEnd])
  {
    var input := line + [terminator];
    assert input[..|input| - 1] == line;
    FeedCollects([], line);
    assert [] + line == line;
  }

  /** What the host sees for a typed line: the echo of each character, the reply, "\r\n"; the setter the
      interpreter chose is called, and nothing else. */
  lemma TypedLineRendered(line: seq<char>, terminator: char, interpret: seq<char> --> Reply)
    requires forall i :: 0 <= i < |line| ==> !IsTerminator(line[i])
    requires 0 < |line| < MaxCmdSize && IsTerminator(terminator)
    requires interpret.requires(CString(line))
    ensures var outputs := Feed([], line + [terminator]).outputs;
      Answerable(outputs, interpret) &&
      Writes(outputs, interpret) == Writes(Echoes(line), interpret) + [interpret(CString(line)).response, "\r\n"] &&
      Calls(outputs, interpret) == CallList(interpret(CString(line)).call)
  {
    var tail := [Response(CString(line)), LineEnd];
    assert Feed([], line + [terminator]).outputs == Echoes(line) + tail by {
      TypedLine(line, terminator);
    }
    EchoesCallNothing(Echoes(line), interpret);
    ReplyRendered(CString(line), interpret);
    RenderAppend(Echoes(line), tail, interpret);
  }

  /** The reply to a line followed by the line end: the response, "\r\n", and the setter call. */
  lemma ReplyRendered(line: seq<char>, interpret: seq<char> --> Reply)
    requires interpret.requires(line)
    ensures Answerable([Response(line), LineEnd], interpret)
    ensures Writes([Response(line), LineEnd], interpret) == [interpret(line).response, "\r\n"]
    ensures Calls([Response(line), LineEnd], interpret) == CallList(interpret(line).call)
  {
    var tail := [Response(line), LineEnd];
    assert tail[1..] == [LineEnd];
    assert [LineEnd][1..] == [];
  }

  /** Echoes call no setter. */
  lemma {:induction false} EchoesCallNothing(outputs: seq<Output>, interpret: seq<char> --> Reply)
    requires forall i :: 0 <= i < |outputs| ==> outputs[i].Echo?
    ensures Answerable(outputs, interpret) && Calls(outputs, interpret) == []
  {
    if outputs != [] {
      EchoesCallNothing(outputs[1..], interpret);
    }
  }

  function CallList(call: Option<Setter>): seq<Setter> {
    if call.Some? then [call.value] else []
  }

  /** A 64th character is dropped: a full buffer is discarded and nothing is echoed. */
  lemma OverflowDiscards(pending: seq<char>, c: char)
    requires |pending| == MaxCmdSize - 1 && !IsTerminator(c)
    ensures Accept(pending, c) == Effect([], [])
  {
  }

  /** What one received character makes the host see and which setters it calls; `line` is the pending
      line up to its first NUL, the text a terminator hands to the interpreter. */
  lemma AcceptRendered(pending: seq<char>, c: char, line: seq<char>, interpret: seq<char> --> Reply)
    requires line == CString(pending) && Answerable(Accept(pending, c).outputs, interpret)
    ensures IsTerminator(c) && |pending| > 0 ==>
      interpret.requires(line) &&
      Writes(Accept(pending, c).outputs, interpret) == [interpret(line).response, "\r\n"] &&
      Calls(Accept(pending, c).outputs, interpret) == CallList(interpret(line).call)
    ensures IsTerminator(c) && |pending| == 0 ==>
      Writes(Accept(pending, c).outputs, interpret) == ["\r\n"] && Calls(Accept(pending, c).outputs, interpret) == []
    ensures !IsTerminator(c) && |pending| < MaxCmdSize - 1 ==>
      Writes(Accept(pending, c).outputs, interpret) == [[c]] && Calls(Accept(pending, c).outputs, interpret) == []
    ensures !IsTerminator(c) && |pending| >= MaxCmdSize - 1 ==>
      Writes(Accept(pending, c).outputs, interpret) == [] && Calls(Accept(pending, c).outputs, interpret) == []
  {
    if IsTerminator(c) && |pending| > 0 {
      LineRendered(Accept(pending, c).outputs, line, interpret);
    } else if IsTerminator(c) {
      LineEndRendered(interpret);
    } else if |pending| < MaxCmdSize - 1 {
      EchoRendered(c, interpret);
    }
  }

  /** A completed line and its line end: the interpreter is defined on the line, and its response and
      setter call are all that is rendered. */
  lemma LineRendered(outputs: seq<Output>, line: seq<char>, interpret: seq<char> --> Reply)
    requires outputs == [Response(line), LineEnd] && Answerable(outputs, interpret)
    ensures interpret.requires(line)
    ensures Writes(outputs, interpret) == [interpret(line).response, "\r\n"]
    ensures Calls(outputs, interpret) == CallList(interpret(line).call)
  {
    assert outputs[0].Response?;
    ReplyRendered(line, interpret);
  }

  /** A line end alone writes "\r\n" and calls nothing. */
  lemma LineEndRendered(interpret: seq<char> --> Reply)
    ensures Answerable([LineEnd], interpret)
    ensures Writes([LineEnd], interpret) == ["\r\n"] && Calls([LineEnd], interpret) == []
  {
    assert [LineEnd][1..] == [];
  }

  /** An echo writes the character and calls nothing. */
  lemma EchoRendered(c: char, interpret: seq<char> --> Reply)
    ensures Answerable([Echo(c)], interpret)
    ensures Writes([Echo(c)], interpret) == [[c]] && Calls([Echo(c)], interpret) == []
  {
    assert [Echo(c)][1..] == [];
  }

  /** A prefix of answerable outputs is answerable. */
  lemma AnswerablePrefix(prefix: seq<Output>, outputs: seq<Output>, interpret: seq<char> --> Reply)
    requires prefix <= outputs && Answerable(outputs, interpret)
    ensures Answerable(prefix, interpret)
  {
    forall i | 0 <= i < |prefix| && prefix[i].Response?
      ensures interpret.requires(prefix[i].line)
    {
      assert prefix[i] == outputs[i];
    }
  }

  /** One more received character: what is written and called for the longer input is what was written
      and called before, followed by what the character adds. */
  lemma FeedStep(start: seq<char>, input: seq<char>, i: nat, interpret: seq<char> --> Reply)
    requires i < |input| && Answerable(Feed(start, input).outputs, interpret)
    ensures var before := Feed(start, input[..i]);
      var step := Accept(before.pending, input[i]);
      var after := Feed(start, input[..i + 1]);
      && Answerable(before.outputs, interpret) && Answerable(step.outputs, interpret)
      && Answerable(after.outputs, interpret) && after.pending == step.pending
      && Writes(after.outputs, interpret) == Writes(before.outputs, interpret) + Writes(step.outputs, interpret)
      && Calls(after.outputs, interpret) == Calls(before.outputs, interpret) + Calls(step.outputs, interpret)
  {
    var before := Feed(start, input[..i]);
    var step := Accept(before.pending, input[i]);
    assert input[..i + 1][..i] == input[..i];
    assert Feed(start, input[..i + 1]) == Effect(step.pending, before.outputs + step.outputs);
    FeedPrefix(start, input, i + 1);
    AnswerablePrefix(before.outputs + step.outputs, Feed(start, input).outputs, interpret);
    AnswerableAppend(before.outputs, step.outputs, interpret);
    RenderAppend(before.outputs, step.outputs, interpret);
  }

  /** m_cmd_buffer and m_cmd_pos, updated in place as characters arrive. */
  class CommandLine {
    const cmdBuffer: array<char>
    var cmdPos: nat

    /** m_cmd_pos never exceeds MAX_CMD_SIZE - 1, so the terminator written at m_cmd_pos is in bounds. */
    ghost predicate Valid()
      reads this
    {
      cmdBuffer.Length == MaxCmdSize && cmdPos < MaxCmdSize
    }

    /** The characters received since the last line ended. */
    ghost function Pending(): seq<char>
      reads this, cmdBuffer
      requires Valid()
    {
      cmdBuffer[..cmdPos]
    }

    constructor ()
      ensures Valid() && Pending() == []
    {
      cmdBuffer := new char[MaxCmdSize](_ => '\0');
      cmdPos := 0;
    }

    /** The terminator branch for a non-empty line: the line is terminated in place, processed, and the
        buffer emptied. */
    method ProcessLine() returns (reply: Reply)
      requires Valid() && cmdPos > 0 && ArgumentsDefined(CString(Pending()))
      modifies this, cmdBuffer
      ensures Valid() && Pending() == [] && reply == Interpret(CString(old(Pending())))
    {
      ghost var line := cmdBuffer[..cmdPos];
      cmdBuffer[cmdPos] := '\0';
      var text := CString(cmdBuffer[..cmdPos + 1]);
      assert text == CString(line) by {
        assert cmdBuffer[..cmdPos + 1] == line + ['\0'];
        CStringPrefix(line);
      }
      reply := Interpret(text);
      cmdPos := 0;
    }

    /** One pass of the RX_DONE loop body for the received character `c`. */
    method ReceiveChar(c: char) returns (writes: seq<seq<char>>, calls: seq<Setter>)
      requires Valid() && Answerable(Accept(Pending(), c).outputs, Interpret)
      modifies this, cmdBuffer
      ensures Valid() && Pending() == Accept(old(Pending()), c).pending
      ensures writes == Writes(Accept(old(Pending()), c).outputs, Interpret)
      ensures calls == Calls(Accept(old(Pending()), c).outputs, Interpret)
    {
      AcceptRendered(Pending(), c, CString(Pending()), Interpret);
      if c == '\r' || c == '\n' {
        writes, calls := [], [];
        if cmdPos > 0 {
          var reply := ProcessLine();
          writes, calls := [reply.response], CallList(reply.call);
        }
        writes := writes + ["\r\n"];
      } else if cmdPos < MaxCmdSize - 1 {
        ghost var before := cmdBuffer[..cmdPos];
        cmdBuffer[cmdPos] := c;
        cmdPos := cmdPos + 1;
        assert cmdBuffer[..cmdPos] == before + [c];
        writes, calls := [[c]], [];
      } else {
        cmdPos := 0;
        writes, calls := [], [];
      }
    }

    /** An RX_DONE event delivering `input`: the loop handles one character per read. */
    method OnRxDone(input: seq<char>) returns (writes: seq<seq<char>>, calls: seq<Setter>)
      requires Valid() && Answerable(Feed(Pending(), input).outputs, Interpret)
      modifies this, cmdBuffer
      ensures Valid() && Pending() == Feed(old(Pending()), input).pending
      ensures writes == Writes(Feed(old(Pending()), input).outputs, Interpret)
      ensures calls == Calls(Feed(old(Pending()), input).outputs, Interpret)
    {
      ghost var start := Pending();
      writes, calls := [], [];
      var i := 0;
      while i < |input|
        invariant 0 <= i <= |input| && Valid()
        invariant Pending() == Feed(start, input[..i]).pending
        invariant Answerable(Feed(start, input[..i]).outputs, Interpret)
        invariant writes == Writes(Feed(start, input[..i]).outputs, Interpret)
        invariant calls == Calls(Feed(start, input[..i]).outputs, Interpret)
      {
        FeedStep(start, input, i, Interpret);
        var w, k := ReceiveChar(input[i]);
        writes, calls := writes + w, calls + k;
        i := i + 1;
      }
      assert input[..i] == input;
    }
  }

  /** A line read back from the buffer after its terminator is written is the line up to its first NUL. */
  lemma {:induction false} CStringPrefix(s: seq<char>)
    ensures CString(s + ['\0']) == CString(s)
  {
    if s != [] && s[0] != '\0' {
      assert (s + ['\0'])[1..] == s[1..] + ['\0'];
      CStringPrefix(s[1..]);
    }
  }
}
