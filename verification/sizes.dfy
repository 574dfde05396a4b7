/** Store sizes on the command line: `padlock_parse_size`. */
module Sizes {
  import opened Bytes

  predicate IsBlank(c: char) {
    c == ' ' || '\t' <= c <= '\r'
  }

  predicate IsDigit(c: char) {
    '0' <= c <= '9'
  }

  function DigitValue(c: char): nat
    requires IsDigit(c)
  {
    c as int - '0' as int
  }

  function Upper(c: char): char {
    if 'a' <= c <= 'z' then c - 'a' + 'A' else c
  }

  /** `strcasecmp(s, t) == 0` for an upper-case t. */
  predicate SameLetters(s: string, t: string) {
    |s| == |t| && forall i :: 0 <= i < |s| ==> Upper(s[i]) == t[i]
  }

  /** The factor a suffix stands for, if it is one. */
  function Multiplier(suffix: string): Option<nat> {
    if SameLetters(suffix, "KB") || SameLetters(suffix, "K") then Some(1024)
    else if SameLetters(suffix, "MB") || SameLetters(suffix, "M") then Some(1024 * 1024)
    else if SameLetters(suffix, "GB") || SameLetters(suffix, "G") then Some(1024 * 1024 * 1024)
    else if SameLetters(suffix, "B") || suffix == "" then Some(1)
    else None
  }

  /** The power of 1024 a unit letter stands for. */
  function UnitPower(c: char): Option<nat> {
    match Upper(c)
    case 'K' => Some(1)
    case 'M' => Some(2)
    case 'G' => Some(3)
    case _ => None
  }

  function Pow1024(n: nat): nat {
    if n == 0 then 1 else 1024 * Pow1024(n - 1)
  }

  /** A suffix is an optional unit letter followed by an optional B, in any letter case. */
  lemma SuffixGrammar(suffix: string)
    ensures var unit := if suffix != "" && Upper(suffix[|suffix| - 1]) == 'B' then suffix[..|suffix| - 1] else suffix;
            Multiplier(suffix) ==
            if unit == "" then Some(1)
            else if |unit| == 1 && UnitPower(unit[0]).Some? then Some(Pow1024(UnitPower(unit[0]).value))
            else None
  {
  }

  // ---------- what a size text means ----------

  /** The text taken apart: blanks, a sign, a numeral, and the rest, which starts with no digit. */
  datatype Text = Text(blanks: string, sign: string, digits: string, rest: string) {
    ghost predicate Valid() {
      && (forall c <- blanks :: IsBlank(c))
      && sign in {"", "+", "-"}
      && digits != "" && (forall c <- digits :: IsDigit(c))
      && (rest == "" || !IsDigit(rest[0]))
    }

    ghost function Flat(): string {
      blanks + sign + digits + rest
    }

    ghost predicate Spells(s: string) {
      Valid() && Flat() == s
    }
  }

  function Numeral(digits: string): nat
    requires forall c <- digits :: IsDigit(c)
  {
    if digits == "" then 0
    else
      assert forall c <- digits[..|digits| - 1] :: c in digits;
      10 * Numeral(digits[..|digits| - 1]) + DigitValue(digits[|digits| - 1])
  }

  /** The number of bytes a text asks for, in exact arithmetic. */
  ghost function Asked(t: Text): (r: Option<int>)
    requires t.Valid()
  {
    match Multiplier(t.rest)
    case None => None
    case Some(m) =>
      var n: int := Numeral(t.digits);
      Some((if t.sign == "-" then -n else n) * m)
  }

  /** The number `strtoull` returns for a numeral that fits 64 bits: a minus sign negates modulo 2^64. */
  ghost function Converted(t: Text): nat
    requires t.Valid() && Numeral(t.digits) < U64
  {
    if t.sign == "-" then (U64 - Numeral(t.digits)) % U64 else Numeral(t.digits)
  }

  /** What the parser makes of a text: the numeral must fit 64 bits, and so must the product. */
  ghost function Parsed(t: Text): (r: Option<nat>)
    requires t.Valid()
  {
    match Multiplier(t.rest)
    case None => None
    case Some(m) =>
      if Numeral(t.digits) >= U64 || Converted(t) > (U64 - 1) / m then None
      else Some(Converted(t) * m)
  }

  // ---------- taking a text apart ----------

  /** How many leading characters of a string satisfy p. */
  function Leading(p: char -> bool, s: string): (n: nat)
    ensures n <= |s|
  {
    if s == "" || !p(s[0]) then 0 else 1 + Leading(p, s[1..])
  }

  lemma {:induction false} LeadingStops(p: char -> bool, s: string)
    ensures var n := Leading(p, s); (forall c <- s[..n] :: p(c)) && (n == |s| || !p(s[n]))
  {
    if s != "" && p(s[0]) {
      LeadingStops(p, s[1..]);
      var n := Leading(p, s);
      assert s[..n] == [s[0]] + s[1..][..n - 1];
    }
  }

  lemma {:induction false} LeadingOf(p: char -> bool, head: string, tail: string)
    requires (forall c <- head :: p(c)) && (tail == "" || !p(tail[0]))
    ensures Leading(p, head + tail) == |head|
  {
    if head != "" {
      assert head[0] in head;
      assert (head + tail)[1..] == head[1..] + tail;
      LeadingOf(p, head[1..], tail);
    } else {
      assert head + tail == tail;
    }
  }

  function SignLength(s: string): (n: nat)
    ensures n <= |s|
  {
    if s != "" && (s[0] == '+' || s[0] == '-') then 1 else 0
  }

  lemma PartsOf(t: Text)
    ensures var s, b, d, end := t.Flat(), |t.blanks|, |t.blanks| + |t.sign|, |t.blanks| + |t.sign| + |t.digits|;
            && s[..b] == t.blanks && s[b..d] == t.sign && s[d..end] == t.digits && s[end..] == t.rest
            && s[b..] == t.sign + t.digits + t.rest && s[d..] == t.digits + t.rest
  {
  }

  lemma LeadOf(t: Text)
    requires t.Valid()
    ensures var tail := t.sign + t.digits + t.rest;
            tail != "" && !IsBlank(tail[0]) && SignLength(tail) == |t.sign|
  {
    assert t.digits[0] in t.digits;
    assert (t.sign + t.digits + t.rest)[0] == if t.sign == "" then t.digits[0] else t.sign[0];
  }

  /** Where the blanks, the sign and the digits of a string end. */
  ghost predicate Marks(s: string, b: nat, d: nat, end: nat) {
    && b == Leading(IsBlank, s)
    && d == b + SignLength(s[b..])
    && end == d + Leading(IsDigit, s[d..])
  }

  lemma MarksOf(t: Text, b: nat, d: nat, end: nat)
    requires t.Valid() && Marks(t.Flat(), b, d, end)
    ensures b == |t.blanks| && d == b + |t.sign| && end == d + |t.digits|
  {
    var tail := t.sign + t.digits + t.rest;
    LeadOf(t);
    assert t.Flat() == t.blanks + tail;
    LeadingOf(IsBlank, t.blanks, tail);
    assert b == |t.blanks| && t.Flat()[b..] == tail;
    assert d == b + |t.sign| && t.Flat()[d..] == t.digits + t.rest;
    LeadingOf(IsDigit, t.digits, t.rest);
  }

  /** Every text has its parts where the marks are: there is no second way to read it. */
  lemma TextUnique(t: Text, b: nat, d: nat, end: nat)
    requires t.Valid() && Marks(t.Flat(), b, d, end)
    ensures t == Text(t.Flat()[..b], t.Flat()[b..d], t.Flat()[d..end], t.Flat()[end..])
  {
    PartsOf(t);
    MarksOf(t, b, d, end);
  }

  lemma FourParts(s: string, b: nat, d: nat, end: nat)
    requires b <= d <= end <= |s|
    ensures s[..b] + s[b..d] + s[d..end] + s[end..] == s
  {
    assert s[..b] + s[b..d] == s[..d];
    assert s[..d] + s[d..end] == s[..end];
  }

  lemma DigitsAtMarks(s: string, d: nat, end: nat)
    requires d <= |s| && end == d + Leading(IsDigit, s[d..])
    ensures (forall c <- s[d..end] :: IsDigit(c)) && (s[end..] == "" || !IsDigit(s[end..][0]))
  {
    LeadingStops(IsDigit, s[d..]);
    assert s[d..][..end - d] == s[d..end];
    assert end < |s| ==> s[end..][0] == s[d..][end - d];
  }

  /** The parts at the marks make a text, if there are digits between them. */
  lemma TextAtMarks(s: string, b: nat, d: nat, end: nat)
    requires Marks(s, b, d, end) && d < end
    ensures Text(s[..b], s[b..d], s[d..end], s[end..]).Spells(s)
  {
    FourParts(s, b, d, end);
    LeadingStops(IsBlank, s);
    DigitsAtMarks(s, d, end);
    assert s[b..d] == if d == b then "" else [s[b]];
  }

  /** There is a digit after the blanks and the sign. */
  predicate HasNumeral(s: string) {
    var b := Leading(IsBlank, s);
    var d := b + SignLength(s[b..]);
    Leading(IsDigit, s[d..]) > 0
  }

  /** Every string with a numeral is a text... */
  lemma NumeralMakesText(s: string) returns (t: Text)
    requires HasNumeral(s)
    ensures t.Spells(s)
  {
    var b := Leading(IsBlank, s);
    var d := b + SignLength(s[b..]);
    var end := d + Leading(IsDigit, s[d..]);
    TextAtMarks(s, b, d, end);
    t := Text(s[..b], s[b..d], s[d..end], s[end..]);
  }

  /** ... and no other string is. */
  lemma TextHasNumeral(t: Text)
    requires t.Valid()
    ensures HasNumeral(t.Flat())
  {
    var s := t.Flat();
    var b := Leading(IsBlank, s);
    var d := b + SignLength(s[b..]);
    TextUnique(t, b, d, d + Leading(IsDigit, s[d..]));
  }

  // ---------- the parser ----------

  /** The digit loop of `strtoull`: it stops at the first other character and reports what does not fit. */
  method ReadDigits(s: string, from: nat) returns (end: nat, number: nat, overflow: bool)
    requires from <= |s|
    ensures end == from + Leading(IsDigit, s[from..])
    ensures forall c <- s[from..end] :: IsDigit(c)
    ensures overflow <==> Numeral(s[from..end]) >= U64
    ensures !overflow ==> number == Numeral(s[from..end])
  {
    end, number, overflow := from, 0, false;
    assert s[from..from] == "";
    while end < |s| && IsDigit(s[end])
      invariant from <= end <= |s| && (forall c <- s[from..end] :: IsDigit(c))
      invariant overflow <==> Numeral(s[from..end]) >= U64
      invariant !overflow ==> number == Numeral(s[from..end])
    {
      assert s[from..end + 1] == s[from..end] + [s[end]];
      var digit := DigitValue(s[end]);
      if overflow || number > (U64 - 1 - digit) / 10 {
        overflow := true;
      } else {
        number := 10 * number + digit;
      }
      end := end + 1;
      assert s[from..end][..end - from - 1] == s[from..end - 1];
    }
    LeadingOf(IsDigit, s[from..end], s[end..]);
    assert s[from..] == s[from..end] + s[end..];
  }

  /** Past the blanks, and past a sign. */
  method SkipLead(value: string) returns (b: nat, d: nat)
    ensures b == Leading(IsBlank, value) && d == b + SignLength(value[b..])
  {
    b := 0;
    while b < |value| && IsBlank(value[b])
      invariant b <= |value| && forall c <- value[..b] :: IsBlank(c)
    {
      b := b + 1;
    }
    LeadingOf(IsBlank, value[..b], value[b..]);
    assert value == value[..b] + value[b..];
    d := if b < |value| && (value[b] == '+' || value[b] == '-') then b + 1 else b;
  }

  /** What was read between the marks, for the text it was read from. */
  lemma ReadText(t: Text, value: string, b: nat, d: nat, end: nat)
    requires t.Spells(value) && Marks(value, b, d, end)
    ensures d < end <= |value| && value[d..end] == t.digits && value[end..] == t.rest
    ensures d > b && value[b] == '-' <==> t.sign == "-"
  {
    TextUnique(t, b, d, end);
    assert value[b..d] == t.sign;
    assert d > b ==> value[b..d][0] == value[b];
  }

  /** `strtoull` in base ten: where it stops (at the start if there is no numeral), the number, and whether
      it reports a range error. */
  method StrToUll(value: string) returns (end: nat, number: nat, range: bool)
    ensures end <= |value| && (end != 0 <==> HasNumeral(value))
    ensures forall t: Text :: t.Spells(value) ==>
              && 0 < end && value[end..] == t.rest
              && (if Numeral(t.digits) < U64 then !range && number == Converted(t) else range)
  {
    var b, d := SkipLead(value);
    end, number, range := ReadDigits(value, d);
    forall t: Text | t.Spells(value)
      ensures d < end && value[d..end] == t.digits && value[end..] == t.rest
      ensures d > b && value[b] == '-' <==> t.sign == "-"
    {
      ReadText(t, value, b, d, end);
    }
    if !range && d > b && value[b] == '-' {
      number := (U64 - number) % U64;
    }
    if end == d {
      end := 0;
    }
  }

  /** The result is what the text says, if it is a text at all, and a failure otherwise. */
  method ParseSize(value: string) returns (r: Option<nat>)
    ensures forall t: Text :: t.Spells(value) ==> r == Parsed(t)
    ensures r.Some? ==> HasNumeral(value)
  {
    var end, number, range := StrToUll(value);
    if end == 0 || range {
      return None;
    }
    var multiplier := Multiplier(value[end..]);
    if multiplier.None? || number > (U64 - 1) / multiplier.value {
      return None;
    }
    r := Some(number * multiplier.value);
  }

  // ---------- what the parser promises ----------

  /** Without a minus sign: exactly the product asked for when it fits 64 bits, and a failure otherwise. */
  lemma UnsignedExact(t: Text)
    requires t.Valid() && t.sign != "-"
    ensures Parsed(t) ==
            match Asked(t)
            case None => None
            case Some(n) => if n < U64 then Some(n) else None
  {
  }

  /** The decimal print of a number. */
  function Decimal(n: nat): string
    decreases n
  {
    if n < 10 then ["0123456789"[n]] else Decimal(n / 10) + ["0123456789"[n % 10]]
  }

  lemma DigitOf(d: nat)
    requires d < 10
    ensures IsDigit("0123456789"[d]) && DigitValue("0123456789"[d]) == d
  {
  }

  /** A printed number is a numeral that reads as that number. */
  lemma {:induction false} DecimalReads(n: nat)
    ensures Decimal(n) != "" && forall c <- Decimal(n) :: IsDigit(c)
    ensures Numeral(Decimal(n)) == n
    decreases n
  {
    DigitOf(n % 10);
    if n >= 10 {
      DecimalReads(n / 10);
      assert Decimal(n)[..|Decimal(n)| - 1] == Decimal(n / 10);
    } else {
      assert Decimal(n)[..0] == "";
    }
  }

  /** The suffixes as they are written. */
  ghost predicate Spelt(suffix: string, factor: nat) {
    || (suffix in {"", "B", "b"} && factor == 1)
    || (suffix in {"K", "k", "KB", "Kb", "kB", "kb"} && factor == 1024)
    || (suffix in {"M", "m", "MB", "Mb", "mB", "mb"} && factor == 1048576)
    || (suffix in {"G", "g", "GB", "Gb", "gB", "gb"} && factor == 1073741824)
  }

  lemma SuffixSpelt(suffix: string, factor: nat)
    ensures Multiplier(suffix) == Some(factor) <==> Spelt(suffix, factor)
  {
    assert |suffix| == 1 ==> suffix == [suffix[0]];
    assert |suffix| == 2 ==> suffix == [suffix[0], suffix[1]];
  }

  lemma SuffixStart(suffix: string, factor: nat)
    requires Spelt(suffix, factor)
    ensures suffix == "" || !IsDigit(suffix[0])
  {
  }

  lemma BlankExactly(c: char)
    ensures IsBlank(c) <==> c in {' ', '\t', '\n', '\U{0B}', '\U{0C}', '\r'}
  {
  }

  lemma PrintedText(blanks: string, sign: string, n: nat, suffix: string, factor: nat)
    requires forall c <- blanks :: c in {' ', '\t', '\n', '\U{0B}', '\U{0C}', '\r'}
    requires sign in {"", "+", "-"} && Spelt(suffix, factor)
    ensures Text(blanks, sign, Decimal(n), suffix).Valid()
  {
    forall c <- blanks
      ensures IsBlank(c)
    {
      BlankExactly(c);
    }
    DecimalReads(n);
    SuffixStart(suffix, factor);
  }

  /** White space, a plus sign or none, a printed number and a unit: the product if it fits 64 bits, and a
      failure otherwise. */
  lemma PrintedReads(blanks: string, sign: string, n: nat, suffix: string, factor: nat)
    requires forall c <- blanks :: c in {' ', '\t', '\n', '\U{0B}', '\U{0C}', '\r'}
    requires sign in {"", "+"} && Spelt(suffix, factor)
    ensures var t := Text(blanks, sign, Decimal(n), suffix);
            t.Valid() && Parsed(t) == if n * factor < U64 then Some(n * factor) else None
  {
    PrintedText(blanks, sign, n, suffix, factor);
    SuffixSpelt(suffix, factor);
    DecimalReads(n);
    UnsignedExact(Text(blanks, sign, Decimal(n), suffix));
  }

  /** With a minus sign a result can wrap around. */
  lemma MinusOneWraps()
    ensures var t := Text("", "-", "1", "");
            t.Valid() && t.Flat() == "-1" && Asked(t) == Some(-1) && Parsed(t) == Some(U64 - 1)
  {
  }

  /** With a minus sign: zero, or the product of what is missing to 2^64 if it fits 64 bits, and a failure
      otherwise. */
  lemma SignedExact(t: Text)
    requires t.Valid() && t.sign == "-"
    ensures Parsed(t) ==
            match Multiplier(t.rest)
            case None => None
            case Some(m) =>
              var n := Numeral(t.digits);
              if n == 0 then Some(0)
              else if n < U64 && (U64 - n) * m < U64 then Some((U64 - n) * m)
              else None
  {
  }

  ghost predicate Wraps(t: Text)
    requires t.Valid()
  {
    var n := Numeral(t.digits);
    t.sign == "-" && 0 < n < U64 && Multiplier(t.rest).Some? && (U64 - n) * Multiplier(t.rest).value < U64
  }

  /** A text gets the number it asks for, or a failure if that is no 64-bit number, exactly unless it is a
      negative one small enough in size to wrap. */
  lemma ExactUnlessWraps(t: Text)
    requires t.Valid()
    ensures Parsed(t) == (match Asked(t)
                          case None => None
                          case Some(n) => if 0 <= n < U64 then Some(n) else None)
            <==> !Wraps(t)
  {
  }
}
