/** Integers printed and read back (format_integer in src/lib/stdio.c, atoi in src/lib/stdlib.c). */
module Formatting {
  import opened MachineIntegers
  import opened Options
  import opened Sequences

  /** `struct integer_base`. */
  datatype Base = Base(base: nat, x: Option<byte>, upper: bool, group: nat)

  const BASE_D := Base(10, None, false, 3)
  const BASE_O := Base(8, None, false, 3)

  /** The four bases of printf. */
  predicate IsBase(b: Base) {
    b == BASE_D || b == BASE_O || b == Base(16, Some(120), false, 4) || b == Base(16, Some(88), true, 4)
  }

  /** The flags, width and precision of a conversion; a negative precision is none. */
  datatype Conversion = Conversion(minus: bool, plus: bool, space: bool, pound: bool, zero: bool, group: bool, width: nat, precision: int)

  const PLAIN := Conversion(false, false, false, false, false, false, 0, -1)

  function DigitChar(b: Base, d: nat): byte
    requires d < 16
  {
    if d < 10 then 48 + d else if b.upper then 55 + d else 87 + d
  }

  function Repeat(ch: byte, n: int): (s: seq<byte>)
    ensures |s| == if n < 0 then 0 else n
    ensures forall i :: 0 <= i < |s| ==> s[i] == ch
  {
    if n <= 0 then [] else seq(n, _ => ch)
  }

  /** The digits of VALUE, of which K have been put out, with commas between groups. */
  function Numeral(value: nat, b: Base, grouped: bool, k: nat): (s: seq<byte>)
    requires IsBase(b)
    ensures value > 0 ==> s != []
  {
    if value == 0 then []
    else
      Numeral(value / b.base, b, grouped, k + 1) + [DigitChar(b, value % b.base)] +
      if grouped && k > 0 && k % b.group == 0 then [44] else []
  }

  function Sign(signed: bool, negative: bool, c: Conversion): seq<byte> {
    if !signed then []
    else if c.plus then [if negative then 45 else 43]
    else if c.space then [if negative then 45 else 32]
    else if negative then [45]
    else []
  }

  /** DIGITS with the zeros that precision and the # flag ask for, of which 63 fit the buffer. */
  function WithZeros(digits: seq<byte>, b: Base, c: Conversion): seq<byte> {
    var precision := if c.precision < 0 then 1 else c.precision;
    var padded := Repeat(48, (if precision < 63 then precision else 63) - |digits|) + digits;
    if c.pound && b.base == 8 && (padded == [] || padded[0] != 48) then [48] + padded else padded
  }

  function Body(value: nat, b: Base, c: Conversion): seq<byte>
    requires IsBase(b)
  {
    WithZeros(Numeral(value, b, c.group, 0), b, c)
  }

  function Prefix(value: nat, b: Base, c: Conversion): seq<byte> {
    if c.pound && value != 0 && b.x.Some? then [48, b.x.value] else []
  }

  /** What format_integer puts out. */
  function Rendered(value: nat, signed: bool, negative: bool, b: Base, c: Conversion): seq<byte>
    requires IsBase(b)
  {
    var sign, prefix, body := Sign(signed, negative, c), Prefix(value, b, c), Body(value, b, c);
    var pad := c.width - |body| - |prefix| - |sign|;
    (if c.minus || c.zero then [] else Repeat(32, pad)) + sign + prefix +
    (if c.zero then Repeat(48, pad) else []) + body + (if c.minus then Repeat(32, pad) else [])
  }

  lemma ReversedSnoc(s: seq<byte>, x: byte)
    ensures Reversed(s + [x]) == [x] + Reversed(s)
  {
  }

  /** A bound on what is left of a 64-bit value after K digits. */
  function Bound(k: nat): (n: nat)
    ensures n > 0
  {
    if k == 0 then 0x1_0000_0000_0000_0000 else (Bound(k - 1) + 7) / 8
  }

  lemma BoundEnds()
    ensures Bound(22) == 1
  {
    assert Bound(8) == 0x100_0000_0000;
    assert Bound(16) == 0x1_0000;
  }

  lemma BoundStep(left: nat, k: nat, b: Base)
    requires IsBase(b) && left < Bound(k)
    ensures left / b.base < Bound(k + 1)
  {
    assert left / b.base <= left / 8;
  }

  lemma NumeralStep(left: nat, b: Base, grouped: bool, k: nat)
    requires IsBase(b) && left > 0
    ensures Numeral(left, b, grouped, k) == Numeral(left / b.base, b, grouped, k + 1) + [DigitChar(b, left % b.base)] +
      if grouped && k > 0 && k % b.group == 0 then [44] else []
  {
  }

  /** One more character in the buffer. */
  method Put(buf: array<byte>, cp: nat, ch: byte) returns (next: nat)
    requires cp < buf.Length
    modifies buf
    ensures next == cp + 1 && Reversed(buf[..next]) == [ch] + Reversed(old(buf[..cp]))
  {
    ghost var before := buf[..cp];
    buf[cp] := ch;
    assert buf[..cp + 1] == before + [ch];
    ReversedSnoc(before, ch);
    next := cp + 1;
  }

  /** The commas among K digits. */
  function Commas(k: nat, b: Base): nat
    requires IsBase(b)
  {
    if k == 0 then 0 else (k - 1) / b.group
  }

  lemma CommaStep(k: nat, b: Base)
    requires IsBase(b)
    ensures Commas(k + 1, b) >= Commas(k, b) && (k > 0 && k % b.group == 0 ==> Commas(k + 1, b) == Commas(k, b) + 1)
    ensures k <= 22 ==> Commas(k, b) <= 7
  {
  }

  /** The digits of VALUE are written to the buffer from the last on, and never overrun it. */
  method WriteDigits(value: u64, b: Base, c: Conversion, buf: array<byte>) returns (cp: nat)
    requires IsBase(b) && buf.Length == 64
    modifies buf
    ensures cp <= 29 && Reversed(buf[..cp]) == Numeral(value, b, c.group, 0)
  {
    hide Numeral, Reversed, Bound, Commas;
    var left: nat, count: nat := value, 0;
    cp := 0;
    BoundStart(value);
    BoundEnds();
    NumeralEnd(b, c.group, 0);
    assert buf[..0] == [];
    CommaStep(0, b);
    while left > 0
      invariant left < Bound(count) && count <= 22 && cp <= count + Commas(count, b) && cp <= 29
      invariant Numeral(value, b, c.group, 0) == Numeral(left, b, c.group, count) + Reversed(buf[..cp])
    {
      BoundStep(left, count, b);
      NumeralStep(left, b, c.group, count);
      CommaStep(count, b);
      CommaStep(count + 1, b);
      ghost var rest := Numeral(left / b.base, b, c.group, count + 1);
      ghost var done := Reversed(buf[..cp]);
      var digit := DigitChar(b, left % b.base);
      if c.group && count > 0 && count % b.group == 0 {
        cp := Put(buf, cp, 44);
        cp := Put(buf, cp, digit);
        assert rest + [digit] + [44] + done == rest + ([digit] + ([44] + done));
      } else {
        cp := Put(buf, cp, digit);
        assert rest + [digit] + [] + done == rest + ([digit] + done);
      }
      left := left / b.base;
      count := count + 1;
    }
    NumeralEnd(b, c.group, count);
    CommaStep(count, b);
    assert [] + Reversed(buf[..cp]) == Reversed(buf[..cp]);
  }

  lemma BoundStart(value: u64)
    ensures value < Bound(0)
  {
  }

  lemma NumeralEnd(b: Base, grouped: bool, k: nat)
    requires IsBase(b)
    ensures Numeral(0, b, grouped, k) == [] && Reversed<byte>([]) == []
  {
  }

  /** Zeros are added until the buffer has WANT characters. */
  method FillZeros(buf: array<byte>, start: nat, want: nat) returns (cp: nat)
    requires buf.Length == 64 && start <= 29 && want <= 63
    modifies buf
    ensures cp == (if start < want then want else start)
    ensures Reversed(buf[..cp]) == Repeat(48, want - start) + Reversed(old(buf[..start]))
  {
    hide Reversed, Repeat;
    ghost var digits := Reversed(buf[..start]);
    cp := start;
    RepeatNone(48);
    assert [] + digits == digits;
    while cp < want
      invariant start <= cp && (cp > start ==> cp <= want)
      invariant Reversed(buf[..cp]) == Repeat(48, cp - start) + digits
    {
      RepeatMore(48, cp - start);
      assert [48] + (Repeat(48, cp - start) + digits) == [48] + Repeat(48, cp - start) + digits;
      cp := Put(buf, cp, 48);
    }
    RepeatClip(48, want - start, cp - start);
  }

  /** The zeros in front: precision fills the buffer up to 63 characters at most, so that the one more the
      # flag may ask for still fits. */
  method WriteZeros(buf: array<byte>, start: nat, b: Base, c: Conversion) returns (cp: nat)
    requires buf.Length == 64 && start <= 29
    modifies buf
    ensures cp <= 64
    ensures Reversed(buf[..cp]) == WithZeros(Reversed(old(buf[..start])), b, c)
  {
    hide Reversed, Repeat;
    ghost var digits := Reversed(buf[..start]);
    LastIsFirst(buf[..start]);
    var precision := if c.precision < 0 then 1 else c.precision;
    cp := FillZeros(buf, start, if precision < 63 then precision else 63);
    LastIsFirst(buf[..cp]);
    if c.pound && b.base == 8 && (cp == 0 || buf[cp - 1] != 48) {
      cp := Put(buf, cp, 48);
    }
  }

  /** The output loop takes the characters from the end of the buffer. */
  method Emit(buf: array<byte>, cp: nat) returns (out: seq<byte>)
    requires cp <= buf.Length
    ensures out == Reversed(buf[..cp])
  {
    out := [];
    var i := cp;
    while i > 0
      invariant 0 <= i <= cp && |out| == cp - i && forall j :: 0 <= j < |out| ==> out[j] == buf[cp - 1 - j]
    {
      i := i - 1;
      out := out + [buf[i]];
    }
  }

  lemma RepeatNone(ch: byte)
    ensures Repeat(ch, 0) == []
  {
  }

  lemma RepeatMore(ch: byte, n: nat)
    ensures [ch] + Repeat(ch, n) == Repeat(ch, n + 1)
  {
  }

  lemma RepeatClip(ch: byte, n: int, m: nat)
    requires m == if n < 0 then 0 else n
    ensures Repeat(ch, n) == Repeat(ch, m)
  {
  }

  lemma LastIsFirst(s: seq<byte>)
    ensures |Reversed(s)| == |s| && (s != [] ==> Reversed(s)[0] == s[|s| - 1])
  {
  }

  /** format_integer: 64 characters are enough for every value, base, grouping and precision. */
  method FormatInteger(value: u64, signed: bool, negative: bool, b: Base, c: Conversion) returns (out: seq<byte>)
    requires IsBase(b)
    ensures out == Rendered(value, signed, negative, b, c)
  {
    hide Numeral, Reversed, Repeat, WithZeros, Sign, Prefix;
    var sign := Sign(signed, negative, c);
    var prefix := Prefix(value, b, c);
    var buf := new byte[64];
    var cp := WriteDigits(value, b, c, buf);
    cp := WriteZeros(buf, cp, b, c);
    LastIsFirst(buf[..cp]);
    var pad := c.width - cp - |prefix| - |sign|;
    if pad < 0 {
      pad := 0;
    }
    RepeatClip(32, c.width - cp - |prefix| - |sign|, pad);
    RepeatClip(48, c.width - cp - |prefix| - |sign|, pad);
    var body := Emit(buf, cp);
    out := (if c.minus || c.zero then [] else Repeat(32, pad)) + sign + prefix +
           (if c.zero then Repeat(48, pad) else []) + body + (if c.minus then Repeat(32, pad) else []);
  }

  // ----- reading numerals back -------------------------------------------------------------------------------------

  /** A digit of a base, in the case of letter that the base asks for. */
  predicate IsDigitOf(ch: byte, b: Base) {
    (48 <= ch < 58 && ch < 48 + b.base) || (b.base == 16 && if b.upper then 65 <= ch <= 70 else 97 <= ch <= 102)
  }

  function DigitValue(ch: byte): int {
    if ch < 58 then ch - 48 else if ch < 97 then ch - 55 else ch - 87
  }

  predicate Digits(s: seq<byte>, b: Base) {
    forall i :: 0 <= i < |s| ==> s[i] == 44 || IsDigitOf(s[i], b)
  }

  /** The value of digits with commas among them. */
  function Reading(s: seq<byte>, b: Base): int {
    if s == [] then 0
    else if s[|s| - 1] == 44 then Reading(s[..|s| - 1], b)
    else b.base * Reading(s[..|s| - 1], b) + DigitValue(s[|s| - 1])
  }

  /** One more digit at the end, and a comma after it. */
  lemma ReadingMore(s: seq<byte>, d: byte, comma: bool, b: Base)
    requires Digits(s, b) && IsDigitOf(d, b)
    ensures var t := s + [d] + if comma then [44] else [];
      Digits(t, b) && Reading(t, b) == b.base * Reading(s, b) + DigitValue(d)
  {
    var t := s + [d];
    assert t[..|t| - 1] == s;
    if comma {
      var u := t + [44];
      assert u[..|u| - 1] == t;
    } else {
      assert t + [] == t;
    }
  }

  /** The digits of a value have that value, whatever the base and the grouping. */
  lemma {:induction false} NumeralReads(value: nat, b: Base, grouped: bool, k: nat)
    requires IsBase(b)
    ensures var s := Numeral(value, b, grouped, k); Digits(s, b) && Reading(s, b) == value
    decreases value
  {
    hide Numeral, Reading, Digits, DigitChar, DigitValue, IsDigitOf;
    if value == 0 {
      NumeralEnd(b, grouped, k);
      NothingRead(b);
    } else {
      var quotient, digit := value / b.base, value % b.base;
      NumeralReads(quotient, b, grouped, k + 1);
      DigitShown(b, digit);
      ReadingMore(Numeral(quotient, b, grouped, k + 1), DigitChar(b, digit), grouped && k > 0 && k % b.group == 0, b);
      NumeralStep(value, b, grouped, k);
    }
  }

  lemma NothingRead(b: Base)
    ensures Digits([], b) && Reading([], b) == 0
  {
  }

  lemma DigitShown(b: Base, d: nat)
    requires IsBase(b) && d < b.base
    ensures IsDigitOf(DigitChar(b, d), b) && DigitValue(DigitChar(b, d)) == d && DigitChar(b, d) != 44
  {
  }

  /** The commas of S, which has N characters to its right. */
  predicate CommasOf(s: seq<byte>, n: nat, b: Base, grouped: bool)
    requires IsBase(b)
  {
    forall i :: 0 <= i < |s| ==> (s[i] == 44 <==> grouped && (n + |s| - 1 - i) % (b.group + 1) == b.group)
  }

  /** Counted from the right, the commas stand after every group of digits and nowhere else. */
  lemma {:induction false} CommaPlaces(value: nat, b: Base, grouped: bool, k: nat)
    requires IsBase(b)
    ensures CommasOf(Numeral(value, b, grouped, k), if grouped then k + Commas(k, b) else k, b, grouped)
    decreases value
  {
    hide Numeral, DigitChar, Commas;
    NumeralEnd(b, grouped, k);
    if value > 0 {
      CommaPlaces(value / b.base, b, grouped, k + 1);
      DigitShown(b, value % b.base);
      NumeralStep(value, b, grouped, k);
      CommaPlace(k, b);
    }
  }

  lemma CommaPlace(k: nat, b: Base)
    requires IsBase(b)
    ensures var comma := k > 0 && k % b.group == 0; var at := k + Commas(k, b);
      && (at % (b.group + 1) == b.group <==> comma)
      && k + 1 + Commas(k + 1, b) == (if comma then at + 2 else at + 1)
      && (comma ==> (at + 1) % (b.group + 1) != b.group)
  {
    if k > 0 {
      if b.group == 3 {
        PlaceBy3(k, (k - 1) / 3);
      } else {
        PlaceBy4(k, (k - 1) / 4);
      }
    }
  }

  lemma PlaceBy3(k: nat, c: nat)
    requires k > 0 && c == (k - 1) / 3
    ensures ((k + c) % 4 == 3 <==> k % 3 == 0) && k / 3 == (if k % 3 == 0 then c + 1 else c) && (k % 3 == 0 ==> (k + c + 1) % 4 != 3)
  {
    var d := (k - 1) % 3;
    assert k == 3 * c + d + 1 && k + c == 4 * c + d + 1;
  }

  lemma PlaceBy4(k: nat, c: nat)
    requires k > 0 && c == (k - 1) / 4
    ensures ((k + c) % 5 == 4 <==> k % 4 == 0) && k / 4 == (if k % 4 == 0 then c + 1 else c) && (k % 4 == 0 ==> (k + c + 1) % 5 != 4)
  {
    var d := (k - 1) % 4;
    assert k == 4 * c + d + 1 && k + c == 5 * c + d + 1;
  }

  /** Zeros in front change nothing. */
  lemma {:induction false} ZerosRead(n: nat, s: seq<byte>, b: Base)
    requires IsBase(b) && Digits(s, b)
    ensures Digits(Repeat(48, n) + s, b) && Reading(Repeat(48, n) + s, b) == Reading(s, b)
    decreases n + |s|
  {
    var t := Repeat(48, n) + s;
    if s != [] {
      ZerosRead(n, s[..|s| - 1], b);
      assert t[..|t| - 1] == Repeat(48, n) + s[..|s| - 1];
    } else if n > 0 {
      ZerosRead(n - 1, s, b);
      assert t[..|t| - 1] == Repeat(48, n - 1) + s;
    }
  }

  lemma {:induction false} NoLeadingZero(value: nat, b: Base, grouped: bool, k: nat)
    requires IsBase(b) && value > 0
    ensures Numeral(value, b, grouped, k)[0] != 48
    decreases value
  {
    hide Numeral, DigitChar, DigitValue;
    NumeralStep(value, b, grouped, k);
    var quotient, digit := value / b.base, value % b.base;
    if quotient > 0 {
      NoLeadingZero(quotient, b, grouped, k + 1);
      assert Numeral(quotient, b, grouped, k + 1) != [];
    } else {
      NumeralEnd(b, grouped, k + 1);
      NonzeroShown(b, digit);
    }
  }

  lemma NonzeroShown(b: Base, d: nat)
    requires IsBase(b) && 0 < d < b.base
    ensures DigitChar(b, d) != 48
  {
  }

  /** The body has at least the characters that the precision asks for, up to 63, and no more leading zeros than
      that takes, or than the one that the # flag asks for in octal. */
  lemma BodyLength(value: nat, b: Base, c: Conversion)
    requires IsBase(b)
    ensures var body := Body(value, b, c); var want := if c.precision < 0 then 1 else if c.precision < 63 then c.precision else 63;
      && |body| >= want && (|body| > want && body[0] == 48 ==> b.base == 8 && c.pound && (|body| == 1 || body[1] != 48))
      && (b.base == 8 && c.pound ==> body != [] && body[0] == 48)
  {
    hide Numeral, DigitChar;
    NumeralEnd(b, c.group, 0);
    if value > 0 {
      NoLeadingZero(value, b, c.group, 0);
    }
  }

  lemma BodyReads(value: nat, b: Base, c: Conversion)
    requires IsBase(b)
    ensures Digits(Body(value, b, c), b) && Reading(Body(value, b, c), b) == value
  {
    hide Numeral, Reading, Repeat;
    NumeralReads(value, b, c.group, 0);
    var digits := Numeral(value, b, c.group, 0);
    var want := (if c.precision < 0 then 1 else if c.precision < 63 then c.precision else 63) - |digits|;
    var n := if want < 0 then 0 else want;
    RepeatClip(48, want, n);
    ZerosRead(n, digits, b);
    var padded := Repeat(48, n) + digits;
    ZerosRead(1, padded, b);
    assert Repeat(48, 1) == [48];
  }

  /** What is printed without a width reads back: a minus sign if and only if the number is signed and negative,
      "0x" or "0X" if and only if the # flag asks for it and the value is not zero, and then digits of the base
      that have the value. */
  lemma RenderedReads(value: nat, signed: bool, negative: bool, b: Base, c: Conversion)
    returns (head: seq<byte>, body: seq<byte>)
    requires IsBase(b) && c.width == 0
    ensures Rendered(value, signed, negative, b, c) == head + body
    ensures Digits(body, b) && Reading(body, b) == value
    ensures |head| <= 3 && (45 in head <==> signed && negative)
    ensures c.pound && value != 0 && b.base == 16 <==> |head| >= 2 && head[|head| - 2..] == [48, if b.upper then 88 else 120]
  {
    hide Rendered, Reading, Body, Digits, Sign, Prefix;
    head, body := Sign(signed, negative, c) + Prefix(value, b, c), Body(value, b, c);
    BodyReads(value, b, c);
    HeadShown(value, signed, negative, b, c);
    Unpadded(value, signed, negative, b, c);
  }

  lemma HeadShown(value: nat, signed: bool, negative: bool, b: Base, c: Conversion)
    requires IsBase(b)
    ensures var head := Sign(signed, negative, c) + Prefix(value, b, c);
      && |head| <= 3 && (45 in head <==> signed && negative)
      && (c.pound && value != 0 && b.base == 16 <==> |head| >= 2 && head[|head| - 2..] == [48, if b.upper then 88 else 120])
  {
    var sign, prefix := Sign(signed, negative, c), Prefix(value, b, c);
    assert |sign| <= 1 && (45 in sign <==> signed && negative) && 45 !in prefix;
  }

  lemma Unpadded(value: nat, signed: bool, negative: bool, b: Base, c: Conversion)
    requires IsBase(b) && c.width == 0
    ensures Rendered(value, signed, negative, b, c) == Sign(signed, negative, c) + Prefix(value, b, c) + Body(value, b, c)
  {
    hide Body, Sign, Prefix, Repeat;
    NoPadding(-|Body(value, b, c)| - |Prefix(value, b, c)| - |Sign(signed, negative, c)|);
  }

  /** With a width the same characters are filled up to it: with spaces on the left, or on the right with the
      minus flag, or with zeros between the sign and prefix and the digits with the zero flag. */
  lemma RenderedAligned(value: nat, signed: bool, negative: bool, b: Base, c: Conversion)
    requires IsBase(b) && !(c.minus && c.zero)
    ensures var out, plain := Rendered(value, signed, negative, b, c), Rendered(value, signed, negative, b, c.(width := 0));
      && |out| == (if |plain| < c.width then c.width else |plain|)
      && (c.minus ==> out == plain + Repeat(32, c.width - |plain|))
      && (!c.minus && !c.zero ==> out == Repeat(32, c.width - |plain|) + plain)
      && (c.zero ==> exists k: nat :: k <= |plain| && ZeroFilled(plain, out, k, value, b, c.width))
  {
    hide Rendered, Reading, Body, Digits, Repeat, Sign, Prefix;
    var head, body := Sign(signed, negative, c) + Prefix(value, b, c), Body(value, b, c);
    BodyReads(value, b, c);
    SameParts(value, signed, negative, b, c, c.(width := 0));
    RenderedFilled(value, signed, negative, b, c);
    RenderedFilled(value, signed, negative, b, c.(width := 0));
    var out, plain := Rendered(value, signed, negative, b, c), Rendered(value, signed, negative, b, c.(width := 0));
    NoPadding(-|head + body|);
    assert head + [] + body == head + body;
    assert [] + (head + body) == head + body == head + body + [];
    assert plain == head + body;
    if c.zero {
      assert plain[|head|..] == body && plain[..|head|] == head;
      assert ZeroFilled(plain, out, |head|, value, b, c.width);
    }
  }

  lemma RenderedFilled(value: nat, signed: bool, negative: bool, b: Base, c: Conversion)
    requires IsBase(b) && !(c.minus && c.zero)
    ensures var head, body := Sign(signed, negative, c) + Prefix(value, b, c), Body(value, b, c); var pad := c.width - |head + body|;
      Rendered(value, signed, negative, b, c) ==
      if c.zero then head + Repeat(48, pad) + body else if c.minus then head + body + Repeat(32, pad) else Repeat(32, pad) + (head + body)
  {
    hide Body, Repeat, Sign, Prefix;
    var sign, prefix, body := Sign(signed, negative, c), Prefix(value, b, c), Body(value, b, c);
    var pad := c.width - |body| - |prefix| - |sign|;
    Fills(sign, prefix, body, Repeat(32, pad), Repeat(48, pad));
  }

  lemma Fills(sign: seq<byte>, prefix: seq<byte>, body: seq<byte>, spaces: seq<byte>, zeros: seq<byte>)
    ensures [] + sign + prefix + zeros + body + [] == (sign + prefix) + zeros + body
    ensures [] + sign + prefix + [] + body + spaces == (sign + prefix) + body + spaces
    ensures spaces + sign + prefix + [] + body + [] == spaces + ((sign + prefix) + body)
  {
  }

  /** OUT is PLAIN with zeros in front of the digits that follow the first K characters. */
  predicate ZeroFilled(plain: seq<byte>, out: seq<byte>, k: nat, value: nat, b: Base, width: nat)
    requires k <= |plain|
  {
    && Digits(plain[k..], b) && Reading(plain[k..], b) == value
    && out == plain[..k] + Repeat(48, width - |plain|) + plain[k..]
  }

  /** The width has no part in the sign, the prefix and the digits. */
  lemma SameParts(value: nat, signed: bool, negative: bool, b: Base, c: Conversion, d: Conversion)
    requires IsBase(b) && d == c.(width := d.width)
    ensures Sign(signed, negative, d) == Sign(signed, negative, c)
    ensures Prefix(value, b, d) == Prefix(value, b, c) && Body(value, b, d) == Body(value, b, c)
  {
    hide Numeral;
  }

  lemma NoPadding(n: int)
    requires n <= 0
    ensures Repeat(48, n) == [] && Repeat(32, n) == []
  {
  }

  predicate IsDigit(ch: byte, base: nat) {
    48 <= ch < 48 + base
  }

  /** The value of a string of digits. */
  function ValueOf(s: seq<byte>, base: nat): int
    requires forall i :: 0 <= i < |s| ==> IsDigit(s[i], base)
  {
    if s == [] then 0 else base * ValueOf(s[..|s| - 1], base) + Digit(s[|s| - 1])
  }

  function Digit(ch: int): int {
    ch - 48
  }

  lemma {:induction false} NumeralValue(value: nat, b: Base, k: nat)
    requires IsBase(b) && b.base <= 10
    ensures var s := Numeral(value, b, false, k);
      (forall i :: 0 <= i < |s| ==> IsDigit(s[i], b.base)) && ValueOf(s, b.base) == value && (s != [] ==> s[0] != 48)
    decreases value
  {
    if value > 0 {
      NumeralValue(value / b.base, b, k + 1);
      var s, init := Numeral(value, b, false, k), Numeral(value / b.base, b, false, k + 1);
      assert s == init + [DigitChar(b, value % b.base)];
      assert s[..|s| - 1] == init;
    }
  }

  lemma {:induction false} LeadingZeros(n: nat, s: seq<byte>, base: nat)
    requires base > 0 && forall i :: 0 <= i < |s| ==> IsDigit(s[i], base)
    ensures forall i :: 0 <= i < n + |s| ==> IsDigit((Repeat(48, n) + s)[i], base)
    ensures ValueOf(Repeat(48, n) + s, base) == ValueOf(s, base)
    decreases n + |s|
  {
    var t := Repeat(48, n) + s;
    if s != [] {
      LeadingZeros(n, s[..|s| - 1], base);
      assert t[..|t| - 1] == Repeat(48, n) + s[..|s| - 1];
    } else if n > 0 {
      LeadingZeros(n - 1, s, base);
      assert t[..|t| - 1] == Repeat(48, n - 1) + s;
    }
  }

  /** 8 to the power N. */
  function Power8(n: nat): nat {
    if n == 0 then 1 else 8 * Power8(n - 1)
  }

  lemma {:induction false} OctalLength(value: nat, n: nat, k: nat)
    requires value < Power8(n)
    ensures |Numeral(value, BASE_O, false, k)| <= n
    decreases n
  {
    if value > 0 {
      OctalLength(value / 8, n - 1, k + 1);
    }
  }

  /** "%0<width>o": octal, filled up with zeros. */
  function Octal(value: nat, width: nat): seq<byte> {
    Rendered(value, false, false, BASE_O, Conversion(false, false, false, false, true, false, width, -1))
  }

  /** A value that fits is printed in exactly WIDTH octal digits, which have that value. */
  lemma OctalField(value: nat, width: nat)
    requires value < Power8(width) && width > 0
    ensures var s := Octal(value, width);
      |s| == width && (forall i :: 0 <= i < |s| ==> IsDigit(s[i], 8)) && ValueOf(s, 8) == value
  {
    hide Numeral, ValueOf, Repeat;
    var c := Conversion(false, false, false, false, true, false, width, -1);
    var digits := Numeral(value, BASE_O, false, 0);
    NumeralValue(value, BASE_O, 0);
    OctalLength(value, width, 0);
    var body := Body(value, BASE_O, c);
    if digits == [] {
      LeadingZeros(1, digits, 8);
      assert Repeat(48, 1) + digits == body;
    } else {
      NoZeros(1 - |digits|);
      assert body == [] + digits == digits;
    }
    LeadingZeros(width - |body|, body, 8);
    assert Octal(value, width) == Repeat(48, width - |body|) + body;
  }

  lemma NoZeros(n: int)
    requires n <= 0
    ensures Repeat(48, n) == []
  {
  }

  // ----- atoi ---------------------------------------------------------------------------------------------------------

  predicate IsSpace(ch: byte) {
    ch == 32 || 9 <= ch <= 13
  }

  /** The number of leading characters of S that are spaces, or digits. */
  function Spaces(s: seq<byte>): (n: nat)
    ensures n <= |s|
  {
    if s != [] && IsSpace(s[0]) then 1 + Spaces(s[1..]) else 0
  }

  function DigitRun(s: seq<byte>): (n: nat)
    ensures n <= |s| && (forall i :: 0 <= i < n ==> IsDigit(s[i], 10)) && (n < |s| ==> !IsDigit(s[n], 10))
  {
    if s != [] && IsDigit(s[0], 10) then 1 + DigitRun(s[1..]) else 0
  }

  /** The decimal number a string starts with. */
  function Decimal(s: seq<byte>): int {
    var t := s[Spaces(s)..];
    var u := if t != [] && (t[0] == 43 || t[0] == 45) then t[1..] else t;
    var value := ValueOf(u[..DigitRun(u)], 10);
    if t != [] && t[0] == 45 then -value else value
  }

  /** X as a 32-bit int: overflow wraps around. */
  function Wrap(x: int): (r: i32)
    ensures -0x8000_0000 <= x < 0x8000_0000 ==> r == x
  {
    (x + 0x8000_0000) % 0x1_0000_0000 - 0x8000_0000
  }

  lemma WrapTimes(x: int, n: int, d: int)
    ensures Wrap(Wrap(x) * n + d) == Wrap(x * n + d)
  {
    var k := (x + 0x8000_0000) / 0x1_0000_0000;
    assert x == Wrap(x) + k * 0x1_0000_0000;
    assert x * n + d == Wrap(x) * n + d + (k * n) * 0x1_0000_0000 by {
      assert (Wrap(x) + k * 0x1_0000_0000) * n == Wrap(x) * n + (k * n) * 0x1_0000_0000;
    }
    WrapShift(Wrap(x) * n + d, k * n);
  }

  lemma WrapShift(x: int, k: int)
    ensures Wrap(x + k * 0x1_0000_0000) == Wrap(x)
  {
  }

  /** atoi: the number the string starts with, as an int. */
  method Atoi(s: seq<byte>) returns (value: i32)
    ensures value == Wrap(Decimal(s))
  {
    hide Wrap;
    var i := 0;
    while i < |s| && IsSpace(s[i])
      invariant i <= |s| && Spaces(s) == i + Spaces(s[i..])
    {
      assert s[i..][1..] == s[i + 1..];
      i := i + 1;
    }
    var t := s[i..];
    assert i == Spaces(s);
    var negative := t != [] && t[0] == 45;
    var u := if t != [] && (t[0] == 43 || t[0] == 45) then t[1..] else t;
    value := AtoiDigits(u, negative);
  }

  /** The digit loop of atoi, which counts down. */
  method AtoiDigits(u: seq<byte>, negative: bool) returns (value: i32)
    ensures value == Wrap(if negative then -ValueOf(u[..DigitRun(u)], 10) else ValueOf(u[..DigitRun(u)], 10))
  {
    hide ValueOf, DigitRun, Wrap;
    var n: nat, v: int := 0, 0;
    EmptyValue();
    assert Wrap(0) == 0;
    while n < |u| && IsDigit(u[n], 10)
      invariant n <= DigitRun(u) && v == Wrap(-ValueOf(u[..n], 10))
      decreases |u| - n
    {
      RunStep(u, n);
      ValueStep(u, n);
      WrapTimes(-ValueOf(u[..n], 10), 10, -Digit(u[n]));
      v := Wrap(v * 10 - Digit(u[n]));
      n := n + 1;
    }
    RunEnd(u, n);
    WrapTimes(-ValueOf(u[..n], 10), -1, 0);
    value := if negative then v else Wrap(0 - v);
  }

  lemma EmptyValue()
    ensures forall u: seq<byte> :: |u| == 0 ==> ValueOf(u, 10) == 0
  {
  }

  lemma RunStep(u: seq<byte>, n: nat)
    requires n < |u| && n <= DigitRun(u) && IsDigit(u[n], 10)
    ensures n < DigitRun(u)
  {
  }

  lemma RunEnd(u: seq<byte>, n: nat)
    requires n <= DigitRun(u) && (n == |u| || !IsDigit(u[n], 10))
    ensures n == DigitRun(u)
  {
  }

  lemma ValueStep(u: seq<byte>, n: nat)
    requires n < DigitRun(u)
    ensures ValueOf(u[..n + 1], 10) == 10 * ValueOf(u[..n], 10) + Digit(u[n])
  {
    assert u[..n + 1][..n] == u[..n];
  }

  lemma {:induction false} SpacesSkipped(blanks: seq<byte>, rest: seq<byte>)
    requires (forall i :: 0 <= i < |blanks| ==> IsSpace(blanks[i])) && (rest != [] ==> !IsSpace(rest[0]))
    ensures Spaces(blanks + rest) == |blanks|
  {
    if blanks != [] {
      SpacesSkipped(blanks[1..], rest);
      assert (blanks + rest)[1..] == blanks[1..] + rest;
    } else {
      assert blanks + rest == rest;
    }
  }

  lemma {:induction false} RunFound(digits: seq<byte>, rest: seq<byte>)
    requires (forall i :: 0 <= i < |digits| ==> IsDigit(digits[i], 10)) && (rest != [] ==> !IsDigit(rest[0], 10))
    ensures DigitRun(digits + rest) == |digits|
  {
    if digits != [] {
      RunFound(digits[1..], rest);
      assert (digits + rest)[1..] == digits[1..] + rest;
    } else {
      assert digits + rest == rest;
    }
  }

  /** White space is skipped, then one sign; the digits that follow count and what comes after them does not. */
  lemma DecimalReads(blanks: seq<byte>, sign: seq<byte>, digits: seq<byte>, rest: seq<byte>)
    requires forall i :: 0 <= i < |blanks| ==> IsSpace(blanks[i])
    requires (sign == [] || sign == [43] || sign == [45]) && (forall i :: 0 <= i < |digits| ==> IsDigit(digits[i], 10))
    requires rest != [] ==> !IsDigit(rest[0], 10) && (digits == [] && sign == [] ==> !IsSpace(rest[0]) && rest[0] != 43 && rest[0] != 45)
    ensures Decimal(blanks + (sign + (digits + rest))) == if sign == [45] then -ValueOf(digits, 10) else ValueOf(digits, 10)
  {
    hide ValueOf, Spaces, DigitRun;
    var u := digits + rest;
    var t := sign + u;
    SpacesSkipped(blanks, t);
    RunFound(digits, rest);
    assert (blanks + t)[|blanks|..] == t;
    Unsigned(sign, u);
    assert u[..|digits|] == digits;
  }

  lemma Unsigned(sign: seq<byte>, u: seq<byte>)
    requires (sign == [] && (u != [] ==> u[0] != 43 && u[0] != 45)) || sign == [43] || sign == [45]
    ensures var t := sign + u;
      && (if t != [] && (t[0] == 43 || t[0] == 45) then t[1..] else t) == u
      && (t != [] && t[0] == 45 <==> sign == [45])
  {
    var t := sign + u;
    if sign == [] {
      assert t == u;
    } else {
      assert t[1..] == u;
    }
  }

  /** What "%d" prints. */
  lemma PlainDecimal(value: nat, negative: bool)
    ensures var body := Body(value, BASE_D, PLAIN);
      && Rendered(value, true, negative, BASE_D, PLAIN) == (if negative then [45] else []) + body
      && body != [] && (forall i :: 0 <= i < |body| ==> IsDigit(body[i], 10)) && ValueOf(body, 10) == value
  {
    hide Numeral, ValueOf, Repeat;
    var digits := Numeral(value, BASE_D, false, 0);
    NumeralValue(value, BASE_D, 0);
    var body := Body(value, BASE_D, PLAIN);
    if digits == [] {
      LeadingZeros(1, digits, 10);
      assert Repeat(48, 1) + digits == body;
    } else {
      NoZeros(1 - |digits|);
      assert body == [] + digits == digits;
    }
    NoPad(0 - |body| - 1);
    NoPad(0 - |body|);
  }

  /** Every number printed with "%d" reads back as itself, also the smallest int. */
  lemma DecimalRoundTrip(v: int)
    ensures Decimal(Rendered(if v < 0 then -v else v, true, v < 0, BASE_D, PLAIN)) == v
  {
    hide Rendered, ValueOf, Body;
    var value := if v < 0 then -v else v;
    PlainDecimal(value, v < 0);
    var body := Body(value, BASE_D, PLAIN);
    var s := (if v < 0 then [45] else []) + body;
    AllDigits(body);
    assert s[Spaces(s)..] == s;
    assert v < 0 ==> s[1..] == body;
    assert body[..|body|] == body;
  }

  lemma NoPad(n: int)
    requires n <= 0
    ensures Repeat(32, n) == []
  {
  }

  lemma {:induction false} AllDigits(s: seq<byte>)
    requires forall i :: 0 <= i < |s| ==> IsDigit(s[i], 10)
    ensures DigitRun(s) == |s|
  {
    if s != [] {
      AllDigits(s[1..]);
    }
  }

  // ----- grouping ---------------------------------------------------------------------------------------------------

  function NoCommas(s: seq<byte>): seq<byte> {
    if s == [] then [] else NoCommas(s[..|s| - 1]) + if s[|s| - 1] == 44 then [] else [s[|s| - 1]]
  }

  /** Grouping adds commas and nothing else. */
  lemma {:induction false} GroupingAddsCommas(value: nat, b: Base, k: nat)
    requires IsBase(b)
    ensures NoCommas(Numeral(value, b, true, k)) == Numeral(value, b, false, k)
    decreases value
  {
    if value > 0 {
      GroupingAddsCommas(value / b.base, b, k + 1);
      var init, digit := Numeral(value / b.base, b, true, k + 1), DigitChar(b, value % b.base);
      assert (init + [digit])[..|init|] == init;
      if k > 0 && k % b.group == 0 {
        assert (init + [digit] + [44])[..|init| + 1] == init + [digit];
      } else {
        assert init + [digit] + [] == init + [digit];
      }
    }
  }
}
