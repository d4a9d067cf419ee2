/** The console's keyboard input: the menu prompt, Java's `Integer.parseInt`
    and `getInt`. Keyboard lines are given as a sequence instead of being read. */
module Console {
  import opened Wrappers

  /** What one `readLine` call gives: a line of text, an `IOException`, or
      `null` at the end of the input. */
  datatype Line = Text(s: string) | ReadError | EndOfInput

  /** How `prompt` ends: with a chosen character after reading `consumed`
      lines; with a `NullPointerException` when a read returns `null`; or by
      running through every given line without an acceptable one (the real
      loop would keep reading). */
  datatype PromptOutcome = Chosen(choice: char, consumed: nat) | NullInput(consumed: nat) | OutOfLines

  /** A line `prompt` accepts: Java length exactly 1 (one UTF-16 unit, so a
      character outside the Basic Multilingual Plane, which takes two, is
      refused) and contained in the action string. */
  predicate Accepts(line: Line, actions: string)
  {
    line.Text? && |line.s| == 1 && (line.s[0] as int) < 0x1_0000 && line.s[0] in actions
  }

  /** A line after which `prompt` asks again. */
  predicate Retries(line: Line, actions: string)
  {
    line.ReadError? || (line.Text? && !Accepts(line, actions))
  }

  /** `prompt`: reads lines until one is a single character from `actions`. */
  method Prompt(lines: seq<Line>, actions: string) returns (r: PromptOutcome)
    ensures r.Chosen? ==> 0 < r.consumed <= |lines| && r.choice in actions
                          && lines[r.consumed - 1] == Text([r.choice]) && Accepts(lines[r.consumed - 1], actions)
    ensures r.NullInput? ==> 0 < r.consumed <= |lines| && lines[r.consumed - 1] == EndOfInput
    ensures r.Chosen? || r.NullInput? ==>
              forall k :: 0 <= k < r.consumed - 1 ==> Retries(lines[k], actions)
    ensures r.OutOfLines? ==> forall k :: 0 <= k < |lines| ==> Retries(lines[k], actions)
  {
    var i := 0;
    while i < |lines|
      invariant 0 <= i <= |lines|
      invariant forall k :: 0 <= k < i ==> Retries(lines[k], actions)
    {
      match lines[i] {
        case EndOfInput =>
          return NullInput(i + 1);
        case ReadError =>
        case Text(s) =>
          if |s| == 1 && (s[0] as int) < 0x1_0000 && s[0] in actions {
            assert s == [s[0]];
            return Chosen(s[0], i + 1);
          }
      }
      i := i + 1;
    }
    return OutOfLines;
  }

  // ---------------------------------------------------------------------------
  // Integer.parseInt

  const IntMin: int := -0x8000_0000
  const IntMax: int := 0x7FFF_FFFF

  predicate IsDigit(c: char)
  {
    '0' <= c <= '9'
  }

  predicate AllDigits(s: string)
  {
    forall k :: 0 <= k < |s| ==> IsDigit(s[k])
  }

  /** The number a string of decimal digits denotes. */
  function DigitsValue(s: string): (n: nat)
    requires AllDigits(s)
  {
    if |s| == 0 then 0
    else DigitsValue(s[..|s| - 1]) * 10 + (s[|s| - 1] as int - '0' as int)
  }

  /** The shortest decimal digits of `n`. */
  function Digits(n: nat): string
  {
    if n < 10 then [('0' as int + n) as char]
    else Digits(n / 10) + [('0' as int + n % 10) as char]
  }

  /** `Integer.toString`. */
  function Show(n: int): string
  {
    if n < 0 then "-" + Digits(-n) else Digits(n)
  }

  /** `Integer.parseInt`: an optional sign, then at least one decimal digit,
      nothing else, and a value within 32 bits; `None` is a
      `NumberFormatException`. */
  function ParseInt(s: string): (r: Option<int>)
    ensures r.Some? ==> IntMin <= r.value <= IntMax
    ensures r.Some? ==> 0 < |s| && IsDigit(s[|s| - 1])
    ensures r.Some? ==> (IsDigit(s[0]) || s[0] == '-' || s[0] == '+')
                        && forall k :: 0 < k < |s| ==> IsDigit(s[k])
  {
    if |s| == 0 then None
    else if s[0] == '-' || s[0] == '+' then
      if |s| == 1 || !AllDigits(s[1..]) then None
      else
        var v: int := if s[0] == '-' then 0 - DigitsValue(s[1..]) else DigitsValue(s[1..]);
        if IntMin <= v <= IntMax then Some(v) else None
    else if !AllDigits(s) then None
    else
      var v := DigitsValue(s);
      if v <= IntMax then Some(v) else None
  }

  /** `getInt` after the line has been read: the parsed number, or -1 when the
      read fails or the line is not a 32-bit integer (`parseInt(null)` also
      throws `NumberFormatException`). */
  function GetInt(line: Line): (r: int)
    ensures IntMin <= r <= IntMax
    ensures line.Text? && ParseInt(line.s).Some? ==> r == ParseInt(line.s).value
    ensures !(line.Text? && ParseInt(line.s).Some?) ==> r == -1
  {
    match line
    case Text(s) => ParseInt(s).GetOr(-1)
    case _ => -1
  }

  lemma {:induction false} DigitsRoundTrip(n: nat)
    ensures 0 < |Digits(n)| && AllDigits(Digits(n))
    ensures DigitsValue(Digits(n)) == n
  {
    if n >= 10 {
      DigitsRoundTrip(n / 10);
      var s := Digits(n);
      assert s[..|s| - 1] == Digits(n / 10);
    }
  }

  /** Every 32-bit integer parses back from its decimal text. */
  lemma ParseShow(n: int)
    requires IntMin <= n <= IntMax
    ensures ParseInt(Show(n)) == Some(n)
  {
    if n < 0 {
      DigitsRoundTrip(-n);
      assert Show(n)[1..] == Digits(-n);
    } else {
      DigitsRoundTrip(n);
    }
  }

  /** The decimal text of an integer outside 32 bits does not parse; with
      `ParseShow`, a decimal text parses exactly when its value fits. */
  lemma ShowOutOfRange(n: int)
    requires n < IntMin || IntMax < n
    ensures ParseInt(Show(n)) == None
  {
    if n < 0 {
      DigitsRoundTrip(-n);
      assert Show(n)[1..] == Digits(-n);
    } else {
      DigitsRoundTrip(n);
    }
  }

  /** `getInt` cannot tell a typed "-1" from a failure. */
  lemma GetIntMinusOneAmbiguous()
    ensures GetInt(Text("-1")) == GetInt(Text("abc")) == GetInt(ReadError) == -1
  {
    assert ParseInt("-1") == Some(-1) by {
      assert "-1"[1..] == "1";
    }
  }

  /** Blanks and a bare sign are refused; a plus sign and leading zeros are
      allowed. */
  lemma ParseIntForms()
    ensures ParseInt(" 7") == None && ParseInt("-") == None && ParseInt("") == None
    ensures ParseInt("+7") == Some(7) && ParseInt("007") == Some(7)
  {
    assert "+7"[1..] == "7";
    assert DigitsValue("007") == 7 by {
      assert "007"[..2] == "00";
      assert "00"[..1] == "0";
    }
  }
}
