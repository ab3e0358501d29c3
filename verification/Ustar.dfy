/** Headers of ustar archives, made and parsed (src/lib/ustar.c). */
module Ustar {
  import opened Formatting
  import opened MachineIntegers
  import opened Options
  import Volumes

  type Name = s: seq<byte> | forall i :: 0 <= i < |s| ==> s[i] != 0

  const REGULAR: byte := 48
  const DIRECTORY: byte := 53

  // ----- file names ----------------------------------------------------------------------------------------------

  /** How much of NAME the loop of strip_antisocial_prefixes drops in one round: "/", "./" or "../". */
  function Antisocial(name: seq<byte>): (n: nat)
    ensures n <= |name|
  {
    if name != [] && name[0] == 47 then 1
    else if [46, 47] <= name then 2
    else if [46, 46, 47] <= name then 3
    else 0
  }

  function DropPrefixes(name: seq<byte>): (r: seq<byte>)
    ensures Antisocial(r) == 0 && |r| <= |name|
  {
    if Antisocial(name) == 0 then name else DropPrefixes(name[Antisocial(name)..])
  }

  /** strip_antisocial_prefixes. */
  function Stripped(name: seq<byte>): (r: seq<byte>)
    ensures Antisocial(r) == 0 && r != [] && r != [46, 46]
  {
    var r := DropPrefixes(name);
    if r == [] || r == [46, 46] then [46] else r
  }

  lemma StripIdempotent(name: seq<byte>)
    ensures Stripped(Stripped(name)) == Stripped(name)
  {
  }

  lemma {:induction false} StrippedName(name: Name)
    ensures forall i :: 0 <= i < |Stripped(name)| ==> Stripped(name)[i] != 0
  {
    DroppedName(name);
  }

  lemma {:induction false} DroppedName(name: Name)
    ensures forall i :: 0 <= i < |DropPrefixes(name)| ==> DropPrefixes(name)[i] != 0
  {
    if Antisocial(name) != 0 {
      DroppedName(name[Antisocial(name)..]);
    }
  }

  /** What is dropped from the front of a name: "/", "./" and "../", any number of them in any order. */
  predicate Piece(p: seq<byte>) {
    p == [47] || p == [46, 47] || p == [46, 46, 47]
  }

  function Joined(pieces: seq<seq<byte>>): seq<byte> {
    if pieces == [] then [] else pieces[0] + Joined(pieces[1..])
  }

  lemma {:induction false} DroppedPieces(name: seq<byte>) returns (pieces: seq<seq<byte>>)
    ensures forall i :: 0 <= i < |pieces| ==> Piece(pieces[i])
    ensures name == Joined(pieces) + DropPrefixes(name)
    ensures forall p :: Piece(p) ==> !(p <= DropPrefixes(name))
    decreases |name|
  {
    hide Antisocial, Piece, Joined;
    var n := Antisocial(name);
    if n == 0 {
      pieces := [];
      NoPiece(name);
      NothingJoined(name);
    } else {
      FirstPiece(name);
      var rest := DroppedPieces(name[n..]);
      pieces := [name[..n]] + rest;
      JoinedMore(name, n, rest, DropPrefixes(name[n..]));
    }
  }

  lemma NothingJoined(name: seq<byte>)
    ensures name == Joined([]) + name
  {
  }

  lemma JoinedMore(name: seq<byte>, n: nat, rest: seq<seq<byte>>, left: seq<byte>)
    requires n <= |name| && name[n..] == Joined(rest) + left
    ensures name == Joined([name[..n]] + rest) + left
  {
    var pieces := [name[..n]] + rest;
    assert pieces[1..] == rest;
    assert name == name[..n] + (Joined(rest) + left);
  }

  lemma NoPiece(name: seq<byte>)
    requires Antisocial(name) == 0
    ensures forall p :: Piece(p) ==> !(p <= name)
  {
  }

  lemma FirstPiece(name: seq<byte>)
    requires Antisocial(name) != 0
    ensures Piece(name[..Antisocial(name)])
  {
  }

  /** A name is stripped of all the pieces in front of it and of nothing else, and what would be empty or ".."
      becomes ".". */
  lemma StrippedPieces(name: seq<byte>) returns (pieces: seq<seq<byte>>, rest: seq<byte>)
    ensures forall i :: 0 <= i < |pieces| ==> Piece(pieces[i])
    ensures name == Joined(pieces) + rest && forall p :: Piece(p) ==> !(p <= rest)
    ensures Stripped(name) == if rest == [] || rest == [46, 46] then [46] else rest
  {
    pieces := DroppedPieces(name);
    rest := DropPrefixes(name);
  }

  /** The loop of strip_antisocial_prefixes: on to what follows the first slash. */
  method Strip(name: Name) returns (r: seq<byte>)
    ensures r == Stripped(name)
  {
    r := name;
    while Antisocial(r) != 0
      invariant DropPrefixes(r) == DropPrefixes(name)
      decreases |r|
    {
      var slash := 0;
      while r[slash] != 47
        invariant slash < Antisocial(r) && forall i :: 0 <= i < slash ==> r[i] != 47
        decreases Antisocial(r) - slash
      {
        slash := slash + 1;
      }
      assert slash + 1 == Antisocial(r);
      r := r[slash + 1..];
    }
    if r == [] || r == [46, 46] {
      r := [46];
    }
  }

  // ----- fields -----------------------------------------------------------------------------------------------------

  type Header = h: seq<byte> | |h| == 512 witness seq(512, _ => 0)

  /** H with DATA at OFS. */
  function Put(h: Header, ofs: nat, data: seq<byte>): (r: Header)
    requires ofs + |data| <= 512
    ensures forall i :: 0 <= i < 512 ==> r[i] == if ofs <= i < ofs + |data| then data[i - ofs] else h[i]
  {
    Volumes.Overlay(h, ofs, data)
  }

  /** The sum of the first N bytes, with the checksum field as spaces. */
  function SumTo(h: Header, n: nat): nat
    requires n <= 512
  {
    if n == 0 then 0 else SumTo(h, n - 1) + if 148 <= n - 1 < 156 then 32 else h[n - 1]
  }

  function Checksum(h: Header): nat {
    SumTo(h, 512)
  }

  lemma {:induction false} SumFrame(h: Header, g: Header, n: nat)
    requires n <= 512 && forall i :: 0 <= i < 512 && !(148 <= i < 156) ==> g[i] == h[i]
    ensures SumTo(g, n) == SumTo(h, n)
  {
    if n > 0 {
      SumFrame(h, g, n - 1);
    }
  }

  lemma {:induction false} SumBound(h: Header, n: nat)
    requires n <= 512
    ensures SumTo(h, n) <= 255 * n
  {
    if n > 0 {
      SumBound(h, n - 1);
    }
  }

  /** The sum of some bytes. */
  function Total(s: seq<byte>): nat {
    if s == [] then 0 else Total(s[..|s| - 1]) + s[|s| - 1]
  }

  /** H with the checksum field blanked out. */
  function Blank(h: Header): Header {
    h[..148] + [32, 32, 32, 32, 32, 32, 32, 32] + h[156..]
  }

  lemma {:induction false} SumIsTotal(h: Header, n: nat)
    requires n <= 512
    ensures SumTo(h, n) == Total(Blank(h)[..n])
  {
    if n > 0 {
      SumIsTotal(h, n - 1);
      assert Blank(h)[..n][..n - 1] == Blank(h)[..n - 1];
    }
  }

  /** The checksum is the sum of the bytes of the header with spaces for the field. */
  lemma ChecksumIsTotal(h: Header)
    ensures Checksum(h) == Total(Blank(h)) <= 130560
  {
    SumBound(h, 512);
    SumIsTotal(h, 512);
    assert Blank(h)[..512] == Blank(h);
  }

  /** Changing one byte changes the sum by as much. */
  lemma {:induction false} SumChanged(h: Header, i: nat, b: byte, n: nat)
    requires i < 512 && !(148 <= i < 156) && n <= 512
    ensures SumTo(h[i := b], n) == SumTo(h, n) + if i < n then b - h[i] else 0
  {
    if n > 0 {
      SumChanged(h, i, b, n - 1);
    }
  }

  /** calculate_chksum. */
  method CalculateChksum(h: array<byte>) returns (sum: nat)
    requires h.Length == 512
    ensures sum == Checksum(h[..])
  {
    sum := 0;
    for i := 0 to 512
      invariant sum == SumTo(h[..], i)
    {
      sum := sum + if 148 <= i < 156 then 32 else h[i];
    }
  }

  /** parse_octal_field from OFS on, with VALUE so far, in 32-bit arithmetic. */
  function ParseFrom(s: seq<byte>, ofs: nat, value: nat): Option<nat>
    requires ofs <= |s|
    decreases |s| - ofs
  {
    if ofs == |s| then None
    else if IsDigit(s[ofs], 8) then
      if value > 0xFFFF_FFFF / 8 then None else ParseFrom(s, ofs + 1, Digit(s[ofs]) + value * 8)
    else if s[ofs] == 32 || s[ofs] == 0 then (if ofs > 0 then Some(value) else None)
    else None
  }

  method ParseOctalField(s: seq<byte>) returns (r: Option<nat>)
    ensures r == ParseFrom(s, 0, 0)
  {
    var value: nat := 0;
    var ofs := 0;
    while ofs < |s|
      invariant ofs <= |s| && ParseFrom(s, 0, 0) == ParseFrom(s, ofs, value)
    {
      var c := s[ofs];
      if IsDigit(c, 8) {
        if value > 0xFFFF_FFFF / 8 {
          return None;
        }
        value := Digit(c) + value * 8;
      } else if c == 32 || c == 0 {
        return if ofs > 0 then Some(value) else None;
      } else {
        return None;
      }
      ofs := ofs + 1;
    }
    return None;
  }

  /** The field S starts with N octal digits that have the value V, and a space or a zero follows them. */
  predicate OctalAt(s: seq<byte>, n: nat, v: nat) {
    0 < n < |s| && (forall i :: 0 <= i < n ==> IsDigit(s[i], 8)) && (s[n] == 32 || s[n] == 0) && ValueOf(s[..n], 8) == v
  }

  predicate OctalIn(s: seq<byte>, v: nat) {
    exists n: nat :: n < |s| && OctalAt(s, n, v)
  }

  /** Reading the digits one by one gives their value. */
  lemma {:induction false} ParseDigits(s: seq<byte>, w: nat, n: nat)
    requires 0 < w < |s| && n <= w && (forall i :: 0 <= i < w ==> IsDigit(s[i], 8)) && (s[w] == 32 || s[w] == 0)
    requires ValueOf(s[..w], 8) < 0x1_0000_0000
    ensures 0 <= ValueOf(s[..n], 8) <= ValueOf(s[..w], 8)
    ensures ParseFrom(s, n, ValueOf(s[..n], 8)) == Some(ValueOf(s[..w], 8))
    decreases w - n
  {
    hide ParseFrom;
    OctalNonnegative(s[..n]);
    if n < w {
      ParseDigits(s, w, n + 1);
      assert s[..n + 1][..n] == s[..n];
      ParseOne(s, n, ValueOf(s[..n], 8));
    } else {
      ParseEnd(s, w, ValueOf(s[..w], 8));
    }
  }

  lemma ParseOne(s: seq<byte>, n: nat, value: nat)
    requires n < |s| && IsDigit(s[n], 8) && 8 * value <= 0xFFFF_FFFF
    ensures ParseFrom(s, n, value) == ParseFrom(s, n + 1, 8 * value + Digit(s[n]))
  {
  }

  lemma ParseEnd(s: seq<byte>, n: nat, value: nat)
    requires 0 < n < |s| && (s[n] == 32 || s[n] == 0)
    ensures ParseFrom(s, n, value) == Some(value)
  {
  }

  lemma {:induction false} OctalNonnegative(s: seq<byte>)
    requires forall i :: 0 <= i < |s| ==> IsDigit(s[i], 8)
    ensures ValueOf(s, 8) >= 0
  {
    if s != [] {
      OctalNonnegative(s[..|s| - 1]);
    }
  }

  /** What is read is there. */
  lemma {:induction false} ParseFound(s: seq<byte>, n: nat)
    requires n <= |s| && forall i :: 0 <= i < n ==> IsDigit(s[i], 8)
    requires 0 <= ValueOf(s[..n], 8) < 0x1_0000_0000
    ensures var r := ParseFrom(s, n, ValueOf(s[..n], 8)); r.Some? ==> r.value < 0x1_0000_0000 && OctalIn(s, r.value)
    decreases |s| - n
  {
    var value := ValueOf(s[..n], 8);
    if n < |s| && IsDigit(s[n], 8) {
      if value <= 0xFFFF_FFFF / 8 {
        assert s[..n + 1][..n] == s[..n];
        assert ValueOf(s[..n + 1], 8) == 8 * value + Digit(s[n]);
        ParseFound(s, n + 1);
      }
    } else if 0 < n < |s| && (s[n] == 32 || s[n] == 0) {
      assert OctalAt(s, n, value);
    }
  }

  /** parse_octal_field reads V from a field if and only if V fits 32 bits and is there in octal. */
  lemma OctalParsed(s: seq<byte>, v: nat)
    ensures ParseFrom(s, 0, 0) == Some(v) <==> v < 0x1_0000_0000 && OctalIn(s, v)
  {
    hide ParseFrom, ValueOf;
    EmptyOctal(s[..0]);
    ParseFound(s, 0);
    if v < 0x1_0000_0000 && OctalIn(s, v) {
      var n: nat :| n < |s| && OctalAt(s, n, v);
      ParseDigits(s, n, 0);
    }
  }

  /** A value printed into a field is parsed back from it. */
  lemma OctalFieldParsed(value: nat, width: nat, field: seq<byte>)
    requires 0 < width && value < Power8(width) && value < 0x1_0000_0000
    requires |field| == width + 1 && field[..width] == Octal(value, width) && field[width] == 0
    ensures ParseFrom(field, 0, 0) == Some(value)
  {
    hide ParseFrom, Octal, ValueOf;
    OctalField(value, width);
    forall i | 0 <= i < width
      ensures IsDigit(field[i], 8)
    {
      assert field[i] == Octal(value, width)[i];
    }
    ParseDigits(field, width, 0);
    EmptyOctal(field[..0]);
  }

  lemma EmptyOctal(s: seq<byte>)
    requires s == []
    ensures ValueOf(s, 8) == 0
  {
  }

  // ----- headers --------------------------------------------------------------------------------------------------------

  const ZEROS: seq<byte> := [48, 48, 48, 48, 48, 48, 48]
  const USTAR: seq<byte> := [117, 115, 116, 97, 114]
  const ROOT: seq<byte> := [114, 111, 111, 116]

  /** A header except for the checksum; SIZE is what the 32 bits of the size say. */
  function Unsummed(name: seq<byte>, kind: byte, size: nat): (h: Header)
    requires |name| <= 99 && size < 0x1_0000_0000
  {
    SizeFits(size);
    var h0: Header := seq(512, _ => 0);
    var h1 := Put(h0, 0, name);
    var h2 := Put(h1, 100, Octal(if kind == REGULAR then 420 else 493, 7));
    var h3 := Put(h2, 108, ZEROS);
    var h4 := Put(h3, 116, ZEROS);
    var h5 := Put(h4, 124, Octal(size, 11));
    var h6 := Put(h5, 136, Octal(1136102400, 11));
    var h7 := Put(h6, 156, [kind]);
    var h8 := Put(h7, 257, USTAR);
    var h9 := Put(h8, 263, [48, 48]);
    var h10 := Put(h9, 297, ROOT);
    Put(h10, 265, ROOT)
  }

  lemma Eights()
    ensures Power8(7) == 0x20_0000 && Power8(11) == 0x2_0000_0000
  {
    assert Power8(4) == 0x1000;
  }

  lemma SizeFits(size: nat)
    requires size < 0x1_0000_0000
    ensures |Octal(420, 7)| == 7 && |Octal(493, 7)| == 7 && |Octal(size, 11)| == 11 && |Octal(1136102400, 11)| == 11
  {
    hide Octal, Power8, ValueOf;
    Eights();
    OctalField(420, 7);
    OctalField(493, 7);
    OctalField(size, 11);
    OctalField(1136102400, 11);
  }

  lemma SumFits(h: Header)
    ensures |Octal(Checksum(h), 7)| == 7 && Checksum(h) < Power8(7)
  {
    hide Octal, Power8, ValueOf;
    Eights();
    SumBound(h, 512);
    OctalField(Checksum(h), 7);
  }

  /** What ustar_make_header makes. */
  function Made(name: seq<byte>, kind: byte, size: nat): (h: Header)
    requires |name| <= 99 && size < 0x1_0000_0000
  {
    var h := Unsummed(name, kind, size);
    SumFits(h);
    Put(h, 148, Octal(Checksum(h), 7))
  }

  /** The bytes of the fields that parsing looks at. */
  lemma UnsummedFields(name: seq<byte>, kind: byte, size: nat)
    requires |name| <= 99 && size < 0x1_0000_0000
    ensures var h := Unsummed(name, kind, size);
      && h[..100] == name + seq(100 - |name|, _ => 0) && |Octal(size, 11)| == 11 && h[124..136] == Octal(size, 11) + [0]
      && h[155] == 0 && h[156] == kind && h[257..263] == USTAR + [0] && h[263] == 48 && h[264] == 48 && h[345] == 0
  {
    hide Octal;
    SizeFits(size);
  }

  /** ustar_make_header fills HEADER in place. */
  method MakeHeader(fileName: Name, kind: byte, size: int, header: array<byte>) returns (ok: bool)
    requires header.Length == 512 && (kind == REGULAR || kind == DIRECTORY) && -0x8000_0000 <= size < 0x8000_0000
    modifies header
    ensures ok <==> |Stripped(fileName)| <= 99
    ensures ok ==> header[..] == Made(Stripped(fileName), kind, if size < 0 then size + 0x1_0000_0000 else size)
    ensures !ok ==> header[..] == old(header[..])
  {
    hide Octal, Checksum, Stripped, Unsummed, Put;
    var name := Strip(fileName);
    if |name| > 99 {
      return false;
    }
    var bits := if size < 0 then size + 0x1_0000_0000 else size;
    FillHeader(name, kind, bits, header);
    var sum := CalculateChksum(header);
    SumFits(header[..]);
    Write(header, 148, Octal(sum, 7));
    return true;
  }

  /** DATA is copied into the header at OFS. */
  method Write(header: array<byte>, ofs: nat, data: seq<byte>)
    requires header.Length == 512 && ofs + |data| <= 512
    modifies header
    ensures header[..] == Put(old(header[..]), ofs, data)
  {
    for i := 0 to |data|
      invariant forall j :: 0 <= j < 512 ==> header[j] == if ofs <= j < ofs + i then data[j - ofs] else old(header[..])[j]
    {
      header[ofs + i] := data[i];
    }
  }

  /** All fields but the checksum. */
  method FillHeader(name: seq<byte>, kind: byte, size: nat, header: array<byte>)
    requires header.Length == 512 && |name| <= 99 && size < 0x1_0000_0000
    modifies header
    ensures header[..] == Unsummed(name, kind, size)
  {
    hide Octal, Put;
    SizeFits(size);
    var blank: seq<byte> := seq(512, _ => 0);
    Write(header, 0, blank);
    Blanked(old(header[..]), blank);
    Write(header, 0, name);
    Write(header, 100, Octal(if kind == REGULAR then 420 else 493, 7));
    Write(header, 108, ZEROS);
    Write(header, 116, ZEROS);
    Write(header, 124, Octal(size, 11));
    Write(header, 136, Octal(1136102400, 11));
    Write(header, 156, [kind]);
    Write(header, 257, USTAR);
    Write(header, 263, [48, 48]);
    Write(header, 297, ROOT);
    Write(header, 265, ROOT);
  }

  lemma Blanked(h: Header, blank: Header)
    ensures Put(h, 0, blank) == blank
  {
  }

  /** The octal fields of a header and the text fields around them. */
  lemma OctalFields(name: seq<byte>, kind: byte, size: nat)
    requires |name| <= 99 && size < 0x1_0000_0000
    ensures var h := Unsummed(name, kind, size);
      && OctalIn(h[100..108], if kind == REGULAR then 0x1A4 else 0x1ED) && OctalIn(h[108..116], 0) && OctalIn(h[116..124], 0)
      && OctalIn(h[124..136], size) && OctalIn(h[136..148], 1136102400)
  {
    hide Octal, ValueOf, OctalIn, Put, IsDigit;
    SizeFits(size);
    Eights();
    FieldBytes(name, kind, size);
    var h := Unsummed(name, kind, size);
    FieldIn(420, 7, h[100..108]);
    FieldIn(493, 7, h[100..108]);
    FieldIn(size, 11, h[124..136]);
    FieldIn(1136102400, 11, h[136..148]);
    NoOwner(h[108..116]);
    NoOwner(h[116..124]);
  }

  lemma FieldBytes(name: seq<byte>, kind: byte, size: nat)
    requires |name| <= 99 && size < 0x1_0000_0000
    ensures var h := Unsummed(name, kind, size);
      && h[100..108] == Octal(if kind == REGULAR then 420 else 493, 7) + [0] && h[108..116] == ZEROS + [0] && h[116..124] == ZEROS + [0]
      && h[124..136] == Octal(size, 11) + [0] && h[136..148] == Octal(1136102400, 11) + [0]
  {
    hide Octal;
    SizeFits(size);
  }

  lemma FieldIn(value: nat, width: nat, field: seq<byte>)
    requires 0 < width && value < Power8(width)
    ensures field == Octal(value, width) + [0] ==> OctalIn(field, value)
  {
    hide Octal, ValueOf, Power8;
    OctalField(value, width);
    if field == Octal(value, width) + [0] {
      assert field[..width] == Octal(value, width);
      assert OctalAt(field, width, value);
    }
  }

  lemma NoOwner(field: seq<byte>)
    requires field == ZEROS + [0]
    ensures OctalIn(field, 0)
  {
    LeadingZeros(7, [], 8);
    assert field[..7] == Repeat(48, 7) + [];
    assert OctalAt(field, 7, 0);
  }

  datatype Fault = NotUstar | BadVersion | BadChecksumField | ChecksumMismatch | NameTooLong | BadType | BadSizeField | TooLarge

  datatype Outcome = EndOfArchive | Entry(name: seq<byte>, kind: byte, size: nat) | Failed(fault: Fault)

  /** The C string in a field. */
  function CString(field: seq<byte>): (s: seq<byte>)
    ensures forall i :: 0 <= i < |s| ==> s[i] != 0
  {
    if field == [] || field[0] == 0 then [] else [field[0]] + CString(field[1..])
  }

  /** What ustar_parse_header says of a header. */
  function Parsed(h: Header): Outcome {
    if forall i :: 0 <= i < 512 ==> h[i] == 0 then EndOfArchive
    else if h[257..263] != USTAR + [0] then Failed(NotUstar)
    else if h[263] != 48 || h[264] != 48 then Failed(BadVersion)
    else if ParseFrom(h[148..156], 0, 0).None? then Failed(BadChecksumField)
    else if ParseFrom(h[148..156], 0, 0).value != Checksum(h) then Failed(ChecksumMismatch)
    else if h[99] != 0 || h[345] != 0 then Failed(NameTooLong)
    else if h[156] != REGULAR && h[156] != DIRECTORY then Failed(BadType)
    else if h[156] == DIRECTORY then Entry(Stripped(CString(h[..100])), DIRECTORY, 0)
    else if ParseFrom(h[124..136], 0, 0).None? then Failed(BadSizeField)
    else if ParseFrom(h[124..136], 0, 0).value > 0x7FFF_FFFF then Failed(TooLarge)
    else Entry(Stripped(CString(h[..100])), REGULAR, ParseFrom(h[124..136], 0, 0).value)
  }

  /** The whole of a header that is made, field by field. */
  lemma MadeFields(name: seq<byte>, kind: byte, size: nat)
    requires |name| <= 99 && size < 0x1_0000_0000
    ensures var h := Made(name, kind, size);
      && h[..100] == name + seq(100 - |name|, _ => 0) && h[156] == kind && h[257..265] == [117, 115, 116, 97, 114, 0, 48, 48]
      && OctalIn(h[100..108], if kind == REGULAR then 0x1A4 else 0x1ED) && OctalIn(h[108..116], 0) && OctalIn(h[116..124], 0)
      && OctalIn(h[124..136], size) && OctalIn(h[136..148], 1136102400) && OctalIn(h[148..156], Total(Blank(h)))
      && h[265..269] == h[297..301] == ROOT
      && (forall i :: 157 <= i < 257 || 269 <= i < 297 || 301 <= i < 512 ==> h[i] == 0)
  {
    hide Octal, OctalIn, Checksum, ParseFrom, Unsummed, Total, Blank;
    var g, h := Unsummed(name, kind, size), Made(name, kind, size);
    SumFits(g);
    UnsummedFields(name, kind, size);
    UnsummedRest(name, kind, size);
    OctalFields(name, kind, size);
    ChecksumParsed(g);
    ChecksumIsTotal(h);
    OctalParsed(h[148..156], Checksum(h));
    assert h[..100] == g[..100] && h[100..108] == g[100..108] && h[108..116] == g[108..116] && h[116..124] == g[116..124];
    assert h[124..136] == g[124..136] && h[136..148] == g[136..148];
    assert h[257..265] == g[257..263] + [g[263], g[264]];
    assert h[265..269] == g[265..269] && h[297..301] == g[297..301];
  }

  lemma UnsummedRest(name: seq<byte>, kind: byte, size: nat)
    requires |name| <= 99 && size < 0x1_0000_0000
    ensures var h := Unsummed(name, kind, size);
      && h[265..269] == h[297..301] == ROOT
      && (forall i :: 157 <= i < 257 || 269 <= i < 297 || 301 <= i < 512 ==> h[i] == 0)
  {
    hide Octal;
    SizeFits(size);
  }

  /** What a header must look like to be taken for an entry. */
  predicate Acceptable(h: Header) {
    && h[257..263] == [117, 115, 116, 97, 114, 0] && h[263] == 48 && h[264] == 48
    && OctalIn(h[148..156], Total(Blank(h)))
    && h[99] == 0 && h[345] == 0
    && (h[156] == 53 || (h[156] == 48 && exists size: nat :: size < 0x8000_0000 && OctalIn(h[124..136], size)))
  }

  /** The name, type and size an acceptable header gives. */
  predicate Describes(h: Header, name: seq<byte>, kind: byte, size: nat) {
    && kind == h[156] && (kind == 53 ==> size == 0) && (kind == 48 ==> size < 0x8000_0000 && OctalIn(h[124..136], size))
    && exists n: nat :: n < 100 && EndsAt(h, n) && name == Stripped(h[..n])
  }

  /** The C string at the start of H has N characters. */
  predicate EndsAt(h: Header, n: nat)
    requires n < 512
  {
    h[n] == 0 && forall i :: 0 <= i < n ==> h[i] != 0
  }

  lemma {:induction false} CStringEnds(field: seq<byte>, n: nat)
    requires n < |field| && field[n] == 0 && forall i :: 0 <= i < n ==> field[i] != 0
    ensures CString(field) == field[..n]
  {
    if n > 0 {
      CStringEnds(field[1..], n - 1);
      assert field[..n] == [field[0]] + field[1..][..n - 1];
    }
  }

  lemma {:induction false} FirstZero(h: Header, k: nat) returns (n: nat)
    requires k <= 99 && h[99] == 0 && forall i :: 0 <= i < k ==> h[i] != 0
    ensures k <= n <= 99 && EndsAt(h, n)
    decreases 99 - k
  {
    if h[k] == 0 {
      n := k;
    } else {
      n := FirstZero(h, k + 1);
    }
  }

  lemma NameFound(h: Header)
    requires h[99] == 0
    ensures exists n: nat :: n < 100 && EndsAt(h, n) && Stripped(CString(h[..100])) == Stripped(h[..n])
  {
    hide Stripped;
    var n := FirstZero(h, 0);
    CStringEnds(h[..100], n);
    assert h[..100][..n] == h[..n];
  }

  /** A header is an entry if and only if it has the magic and the version, its checksum field holds the sum of the
      header with that field as spaces, its name and prefix fit, and it is a directory or a file with a size. */
  lemma EntryIffAcceptable(h: Header)
    ensures Parsed(h).Entry? <==> Acceptable(h)
  {
    hide ParseFrom, Checksum, Stripped, CString, OctalIn, Total, Blank;
    assert USTAR + [0] == [117, 115, 116, 97, 114, 0];
    assert h[257] == h[257..263][0];
    ChecksumIsTotal(h);
    OctalParsed(h[148..156], Checksum(h));
    SizeKnown(h[124..136]);
  }

  lemma SizeKnown(field: seq<byte>)
    ensures var r := ParseFrom(field, 0, 0);
      r.Some? && r.value <= 0x7FFF_FFFF <==> exists size: nat :: size < 0x8000_0000 && OctalIn(field, size)
  {
    hide ParseFrom, OctalIn;
    var r := ParseFrom(field, 0, 0);
    if r.Some? {
      OctalParsed(field, r.value);
    }
    forall size: nat | OctalIn(field, size) && size < 0x8000_0000
      ensures r == Some(size)
    {
      OctalParsed(field, size);
    }
  }

  /** An entry has the name, the type and the size that the header gives. */
  lemma EntryDescribed(h: Header)
    requires Parsed(h).Entry?
    ensures Describes(h, Parsed(h).name, Parsed(h).kind, Parsed(h).size)
  {
    hide ParseFrom, Checksum, Stripped, CString, OctalIn;
    NameFound(h);
    if h[156] == 48 {
      OctalParsed(h[124..136], Parsed(h).size);
    }
  }

  /** Changing one byte of an entry outside the checksum field is always noticed. */
  lemma ChangeNoticed(h: Header, i: nat, b: byte)
    requires Parsed(h).Entry? && i < 512 && !(148 <= i < 156) && b != h[i]
    ensures Parsed(h[i := b]).Failed?
  {
    hide ParseFrom, SumTo, Stripped, CString;
    var g := h[i := b];
    assert g[148..156] == h[148..156];
    SumChanged(h, i, b, 512);
    if forall j :: 0 <= j < 512 ==> g[j] == 0 {
      NoDigits(g[148..156]);
    }
  }

  lemma NoDigits(s: seq<byte>)
    requires s != [] && s[0] == 0
    ensures ParseFrom(s, 0, 0).None?
  {
  }

  /** is_all_zeros. */
  method IsAllZeros(h: array<byte>) returns (zero: bool)
    ensures zero <==> forall i :: 0 <= i < h.Length ==> h[i] == 0
  {
    for i := 0 to h.Length
      invariant forall j :: 0 <= j < i ==> h[j] == 0
    {
      if h[i] != 0 {
        return false;
      }
    }
    return true;
  }

  /** ustar_parse_header. */
  method ParseHeader(h: array<byte>) returns (r: Outcome)
    requires h.Length == 512
    ensures r == Parsed(h[..])
    ensures r.EndOfArchive? <==> forall i :: 0 <= i < 512 ==> h[i] == 0
    ensures r.Entry? <==> Acceptable(h[..])
    ensures r.Entry? ==> Describes(h[..], r.name, r.kind, r.size)
  {
    EntryIffAcceptable(h[..]);
    if Parsed(h[..]).Entry? {
      EntryDescribed(h[..]);
    }
    hide ParseFrom, Checksum, Stripped, CString, Acceptable, Describes;
    var zero := IsAllZeros(h);
    if zero {
      return EndOfArchive;
    }
    ghost var s := h[..];
    assert h[257..263] == s[257..263] && h[148..156] == s[148..156] && h[124..136] == s[124..136] && h[..100] == s[..100];
    if h[257..263] != USTAR + [0] {
      return Failed(NotUstar);
    }
    if h[263] != 48 || h[264] != 48 {
      return Failed(BadVersion);
    }
    var sum := ParseOctalField(h[148..156]);
    if sum.None? {
      return Failed(BadChecksumField);
    }
    var actual := CalculateChksum(h);
    if sum.value != actual {
      return Failed(ChecksumMismatch);
    }
    if h[99] != 0 || h[345] != 0 {
      return Failed(NameTooLong);
    }
    if h[156] != REGULAR && h[156] != DIRECTORY {
      return Failed(BadType);
    }
    var size := 0;
    if h[156] == REGULAR {
      var field := ParseOctalField(h[124..136]);
      if field.None? {
        return Failed(BadSizeField);
      }
      if field.value > 0x7FFF_FFFF {
        return Failed(TooLarge);
      }
      size := field.value;
    }
    var name := Strip(CString(h[..100]));
    return Entry(name, h[156], size);
  }

  lemma {:induction false} CStringPadded(name: Name, n: nat)
    requires n > 0
    ensures CString(name + seq(n, _ => 0)) == name
  {
    var field := name + seq(n, _ => 0);
    if name != [] {
      CStringPadded(name[1..], n);
      assert field[1..] == name[1..] + seq(n, _ => 0);
      assert name == [name[0]] + name[1..];
    }
  }

  /** Writing the checksum does not change it, and it is parsed back. */
  lemma ChecksumParsed(h: Header)
    requires h[155] == 0
    ensures |Octal(Checksum(h), 7)| == 7
    ensures var g := Put(h, 148, Octal(Checksum(h), 7));
      Checksum(g) == Checksum(h) && ParseFrom(g[148..156], 0, 0) == Some(Checksum(h))
  {
    hide Octal, ParseFrom, SumTo, Power8;
    SumFits(h);
    SumBound(h, 512);
    var g := Put(h, 148, Octal(Checksum(h), 7));
    SumFrame(h, g, 512);
    assert g[148..156][..7] == Octal(Checksum(h), 7);
    OctalFieldParsed(Checksum(h), 7, g[148..156]);
  }

  lemma SizeParsed(size: nat, field: seq<byte>)
    requires size < 0x1_0000_0000 && field == Octal(size, 11) + [0] && |Octal(size, 11)| == 11
    ensures ParseFrom(field, 0, 0) == Some(size)
  {
    hide Octal, ParseFrom, Power8;
    Eights();
    assert field[..11] == Octal(size, 11);
    OctalFieldParsed(size, 11, field);
  }

  /** Parsing a header that was made gives back the stripped name, the type, and the size of a file; only
      a size that is negative as an int is refused. */
  lemma HeaderRoundTrip(fileName: Name, kind: byte, size: nat)
    requires |Stripped(fileName)| <= 99 && (kind == REGULAR || kind == DIRECTORY) && size < 0x1_0000_0000
    ensures Parsed(Made(Stripped(fileName), kind, size)) ==
      if kind == DIRECTORY then Entry(Stripped(fileName), DIRECTORY, 0)
      else if size < 0x8000_0000 then Entry(Stripped(fileName), REGULAR, size)
      else Failed(TooLarge)
  {
    hide Octal, ParseFrom, Checksum, Stripped, CString, Unsummed;
    var name := Stripped(fileName);
    var h := Unsummed(name, kind, size);
    UnsummedFields(name, kind, size);
    ChecksumParsed(h);
    var g := Made(name, kind, size);
    assert g[..100] == h[..100] && g[124..136] == h[124..136] && g[257..263] == h[257..263];
    assert g[156] == kind;
    SizeParsed(size, g[124..136]);
    StrippedName(fileName);
    CStringPadded(name, 100 - |name|);
    StripIdempotent(fileName);
    assert g[99] == g[..100][99] == 0;
  }
}
