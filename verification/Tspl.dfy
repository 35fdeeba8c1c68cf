/**
 From grayscale pixels to TSPL bytes, and a reader for the byte stream: the printer sees exactly the
 commands that were framed, and unpacking the bitmap command gives the thresholded image.
 */
module Tspl {
  import opened Common

  const PRINT_WIDTH := 576
  const WIDTH_BYTES := 72
  const THRESHOLD := 128

  const CR: Byte := 13
  const CRLF: seq<Byte> := [13, 10]
  const COMMA: Byte := 44
  const BITMAP := Ascii("BITMAP ")

  // ----- bits of a byte, leftmost pixel in bit 7 -----

  function Mask(bit: nat): bv8
    requires bit < 8
  {
    (0x80 as bv8) >> bit
  }

  predicate BitOf(byte: bv8, bit: nat)
    requires bit < 8
  {
    byte & Mask(bit) != 0
  }

  lemma Masks()
    ensures Mask(0) == 0x80 && Mask(1) == 0x40 && Mask(2) == 0x20 && Mask(3) == 0x10
    ensures Mask(4) == 0x08 && Mask(5) == 0x04 && Mask(6) == 0x02 && Mask(7) == 0x01
  {
  }

  /** Setting a bit sets that bit and no other. */
  lemma SetBit(byte: bv8, bit: nat, other: nat)
    requires bit < 8 && other < 8
    ensures BitOf(byte | Mask(bit), other) <==> bit == other || BitOf(byte, other)
  {
    Masks();
    hide Mask;
    if bit == 0 { }
    else if bit == 1 { }
    else if bit == 2 { }
    else if bit == 3 { }
    else if bit == 4 { }
    else if bit == 5 { }
    else if bit == 6 { }
    else { assert bit == 7; }
  }

  /** A byte is known by its eight bits. */
  lemma SameBits(a: bv8, b: bv8)
    requires forall bit: nat :: bit < 8 ==> (BitOf(a, bit) <==> BitOf(b, bit))
    ensures a == b
  {
    Masks();
    assert BitOf(a, 0) <==> BitOf(b, 0);
    assert BitOf(a, 1) <==> BitOf(b, 1);
    assert BitOf(a, 2) <==> BitOf(b, 2);
    assert BitOf(a, 3) <==> BitOf(b, 3);
    assert BitOf(a, 4) <==> BitOf(b, 4);
    assert BitOf(a, 5) <==> BitOf(b, 5);
    assert BitOf(a, 6) <==> BitOf(b, 6);
    assert BitOf(a, 7) <==> BitOf(b, 7);
    hide Mask;
  }

  // ----- the image -----

  type Row = row: seq<Byte> | |row| == PRINT_WIDTH witness seq(PRINT_WIDTH, _ => 0)

  /** Pixel (x, y) of a packed bitmap: set means white. */
  predicate PixelAt(bitmap: seq<bv8>, x: nat, y: nat)
    requires x < PRINT_WIDTH && WIDTH_BYTES * (y + 1) <= |bitmap|
  {
    BitOf(bitmap[WIDTH_BYTES * y + x / 8], x % 8)
  }

  /** The bitmap of an image: one bit a pixel, set where the pixel reaches the threshold. */
  ghost predicate IsBitmapOf(bitmap: seq<bv8>, pixels: seq<Row>) {
    && |bitmap| == WIDTH_BYTES * |pixels|
    && forall x: nat, y: nat :: x < PRINT_WIDTH && y < |pixels| ==>
         (PixelAt(bitmap, x, y) <==> pixels[y][x] >= THRESHOLD)
  }

  /** Bit by bit: 72 bytes a row, the leftmost of eight pixels in the highest bit, set from brightness 128 on. */
  lemma BitmapBits(bitmap: seq<bv8>, pixels: seq<Row>, x: nat, y: nat)
    requires IsBitmapOf(bitmap, pixels) && x < 576 && y < |pixels|
    ensures |bitmap| == 72 * |pixels|
    ensures bitmap[72 * y + x / 8] & [0x80, 0x40, 0x20, 0x10, 0x08, 0x04, 0x02, 0x01][x % 8] != 0
            <==> pixels[y][x] >= 128
  {
    hide Mask;
    Masks();
    assert PixelAt(bitmap, x, y) <==> pixels[y][x] >= THRESHOLD;
    assert Mask(x % 8) == [0x80, 0x40, 0x20, 0x10, 0x08, 0x04, 0x02, 0x01][x % 8];
  }

  /** What one packed byte holds: pixels 8 * column to 8 * column + 7 of its row. */
  ghost predicate Packs(byte: bv8, row: Row, column: nat)
    requires column < WIDTH_BYTES
  {
    forall bit: nat :: bit < 8 ==> (BitOf(byte, bit) <==> row[column * 8 + bit] >= THRESHOLD)
  }

  ghost predicate PacksAt(bitmap: seq<bv8>, pixels: seq<Row>, y: nat, column: nat)
    requires |bitmap| == WIDTH_BYTES * |pixels| && y < |pixels| && column < WIDTH_BYTES
  {
    Packs(bitmap[WIDTH_BYTES * y + column], pixels[y], column)
  }

  lemma PackedBytesMakeTheImage(bitmap: seq<bv8>, pixels: seq<Row>)
    requires |bitmap| == WIDTH_BYTES * |pixels|
    requires forall y: nat, column: nat :: y < |pixels| && column < WIDTH_BYTES ==> PacksAt(bitmap, pixels, y, column)
    ensures IsBitmapOf(bitmap, pixels)
  {
    forall x: nat, y: nat | x < PRINT_WIDTH && y < |pixels|
      ensures PixelAt(bitmap, x, y) <==> pixels[y][x] >= THRESHOLD
    {
      hide BitOf;
      assert PacksAt(bitmap, pixels, y, x / 8);
      assert x / 8 * 8 + x % 8 == x;
    }
  }

  /** An image has one bitmap. */
  lemma BitmapIsDetermined(a: seq<bv8>, b: seq<bv8>, pixels: seq<Row>)
    requires IsBitmapOf(a, pixels) && IsBitmapOf(b, pixels)
    ensures a == b
  {
    forall k | 0 <= k < |a|
      ensures a[k] == b[k]
    {
      hide BitOf, IsBitmapOf;
      var y, column := k / WIDTH_BYTES, k % WIDTH_BYTES;
      PackedAt(a, pixels, y, column);
      PackedAt(b, pixels, y, column);
      SameBits(a[k], b[k]);
    }
  }

  lemma PackedAt(bitmap: seq<bv8>, pixels: seq<Row>, y: nat, column: nat)
    requires IsBitmapOf(bitmap, pixels)
    requires y < |pixels| && column < WIDTH_BYTES
    ensures Packs(bitmap[WIDTH_BYTES * y + column], pixels[y], column)
  {
    hide BitOf;
    var byte := bitmap[WIDTH_BYTES * y + column];
    forall bit: nat | bit < 8
      ensures BitOf(byte, bit) <==> pixels[y][column * 8 + bit] >= THRESHOLD
    {
      var x := column * 8 + bit;
      assert x / 8 == column && x % 8 == bit;
      assert PixelAt(bitmap, x, y) <==> pixels[y][x] >= THRESHOLD;
    }
  }

  /** Packs eight pixels into a byte, most significant bit first. */
  method PackByte(row: Row, column: nat) returns (byte: bv8)
    requires column < WIDTH_BYTES
    ensures Packs(byte, row, column)
  {
    hide BitOf, Mask;
    byte := 0;
    forall bit: nat | bit < 8
      ensures !BitOf(0, bit)
    {
      NoBits(bit);
    }
    for bit := 0 to 8
      invariant forall k: nat :: k < bit ==> (BitOf(byte, k) <==> row[column * 8 + k] >= THRESHOLD)
      invariant forall k: nat :: bit <= k < 8 ==> !BitOf(byte, k)
    {
      ghost var was := byte;
      var x := column * 8 + bit;
      if x < PRINT_WIDTH {
        var pixel := row[x];
        if pixel >= THRESHOLD {
          byte := byte | Mask(bit);
        }
      }
      forall k: nat | k < 8
        ensures BitOf(byte, k) <==> (k == bit && row[x] >= THRESHOLD) || BitOf(was, k)
      {
        SetBit(was, bit, k);
      }
    }
  }

  lemma NoBits(bit: nat)
    requires bit < 8
    ensures !BitOf(0, bit)
  {
  }

  /** Writing one byte packs its place and leaves the other places alone. */
  lemma WriteByte(was: seq<bv8>, now: seq<bv8>, pixels: seq<Row>, y: nat, column: nat, byte: bv8)
    requires |was| == WIDTH_BYTES * |pixels| && y < |pixels| && column < WIDTH_BYTES
    requires now == was[WIDTH_BYTES * y + column := byte]
    requires Packs(byte, pixels[y], column)
    ensures PacksAt(now, pixels, y, column)
    ensures forall v: nat, c: nat :: v < |pixels| && c < WIDTH_BYTES
                                     && (v, c) != (y, column) && PacksAt(was, pixels, v, c) ==>
              PacksAt(now, pixels, v, c)
  {
    hide Packs, BitOf;
  }

  /** Packs the image row by row into a buffer of 72 bytes a row. */
  method PackBitmap(pixels: seq<Row>) returns (bitmap: array<bv8>)
    ensures IsBitmapOf(bitmap[..], pixels)
  {
    hide Packs, PacksAt, BitOf, IsBitmapOf;
    var height := |pixels|;
    bitmap := new bv8[WIDTH_BYTES * height](_ => 0);
    var offset := 0;
    for y := 0 to height
      invariant offset == WIDTH_BYTES * y
      invariant forall v: nat, c: nat :: v < y && c < WIDTH_BYTES ==> PacksAt(bitmap[..], pixels, v, c)
    {
      for column := 0 to WIDTH_BYTES
        invariant offset == WIDTH_BYTES * y + column
        invariant forall v: nat, c: nat :: v < y && c < WIDTH_BYTES ==> PacksAt(bitmap[..], pixels, v, c)
        invariant forall c: nat :: c < column ==> PacksAt(bitmap[..], pixels, y, c)
      {
        ghost var was := bitmap[..];
        var byte := PackByte(pixels[y], column);
        bitmap[offset] := byte;
        WriteByte(was, bitmap[..], pixels, y, column, byte);
        offset := offset + 1;
      }
    }
    PackedBytesMakeTheImage(bitmap[..], pixels);
  }

  // ----- the command stream -----

  datatype Command =
    | Text(line: seq<Byte>)
    | Bitmap(x: nat, y: nat, width: nat, height: nat, mode: nat, data: seq<bv8>)

  function ToByte(b: bv8): Byte {
    b as Byte
  }

  function FromByte(b: Byte): bv8 {
    b as bv8
  }

  lemma ByteBack(b: bv8)
    ensures FromByte(ToByte(b)) == b
  {
  }

  function ToBytes(data: seq<bv8>): (b: seq<Byte>)
    ensures |b| == |data|
  {
    seq(|data|, i requires 0 <= i < |data| => ToByte(data[i]))
  }

  function FromBytes(b: seq<Byte>): (data: seq<bv8>)
    ensures |data| == |b|
  {
    seq(|b|, i requires 0 <= i < |b| => FromByte(b[i]))
  }

  lemma BytesBack(data: seq<bv8>)
    ensures FromBytes(ToBytes(data)) == data
  {
    hide ToByte, FromByte;
    forall i | 0 <= i < |data|
      ensures FromByte(ToByte(data[i])) == data[i]
    {
      ByteBack(data[i]);
    }
  }

  predicate IsDigit(b: Byte) {
    48 <= b < 58
  }

  /** Decimal digits, most significant first. */
  function Decimal(n: nat): (digits: seq<Byte>)
    ensures digits != [] && forall d :: d in digits ==> IsDigit(d)
  {
    if n < 10 then [48 + n] else Decimal(n / 10) + [48 + n % 10]
  }

  /** The text of a command, or the header of a bitmap followed by its bytes; each ends in a line break. */
  function Frame(c: Command): seq<Byte> {
    match c
    case Text(line) => line + CRLF
    case Bitmap(x, y, width, height, mode, data) =>
      BITMAP + Field(x) + Field(y) + Field(width) + Field(height) + Field(mode) + ToBytes(data) + CRLF
  }

  function Field(n: nat): seq<Byte> {
    Decimal(n) + [COMMA]
  }

  /** Each command on a line of its own that ends in carriage return and line feed; numbers are followed by commas. */
  lemma FrameBytes(c: Command)
    ensures match c
            case Text(line) => Frame(c) == line + [13, 10]
            case Bitmap(x, y, width, height, mode, data) =>
              Frame(c) == Ascii("BITMAP ") + Decimal(x) + [44] + Decimal(y) + [44] + Decimal(width) + [44]
                          + Decimal(height) + [44] + Decimal(mode) + [44] + ToBytes(data) + [13, 10]
  {
    hide Decimal, ToBytes, Ascii;
    if c.Bitmap? {
      var head := BITMAP + Field(c.x) + Field(c.y);
      assert head == Ascii("BITMAP ") + Decimal(c.x) + [44] + Decimal(c.y) + [44];
      assert head + Field(c.width) + Field(c.height) + Field(c.mode)
             == head + Decimal(c.width) + [44] + Decimal(c.height) + [44] + Decimal(c.mode) + [44];
    }
  }

  /** The number a string of ASCII digits stands for. */
  function Value(digits: seq<Byte>): int {
    if digits == [] then 0 else 10 * Value(digits[..|digits| - 1]) + digits[|digits| - 1] as int - 48
  }

  /** The digits of a number stand for it, and only zero starts with a zero. */
  lemma {:induction false} DecimalStandsFor(n: nat)
    ensures Value(Decimal(n)) == n && (forall d :: d in Decimal(n) ==> 48 <= d <= 57)
    ensures Decimal(n)[0] == 48 ==> n == 0
  {
    if n < 10 {
      assert [48 + n][..0] == [];
    } else {
      DecimalStandsFor(n / 10);
      var digits := Decimal(n);
      assert digits[..|digits| - 1] == Decimal(n / 10);
      assert digits[0] == Decimal(n / 10)[0];
    }
  }

  function FrameAll(commands: seq<Command>): seq<Byte> {
    if commands == [] then [] else FrameAll(commands[..|commands| - 1]) + Frame(commands[|commands| - 1])
  }

  // ----- the reader: a printer that looks only at the bytes -----

  function ReadDigits(n: nat, b: seq<Byte>): (r: (nat, seq<Byte>))
    ensures |r.1| <= |b|
    decreases |b|
  {
    if b == [] || !IsDigit(b[0]) then (n, b) else ReadDigits(n * 10 + (b[0] - 48), b[1..])
  }

  /** A number and the comma after it. */
  function ReadField(b: seq<Byte>): (r: Option<(nat, seq<Byte>)>)
    ensures r.Some? ==> |r.value.1| < |b|
  {
    if b == [] || !IsDigit(b[0]) then None
    else
      var (n, rest) := ReadDigits(0, b);
      if rest == [] || rest[0] != COMMA then None else Some((n, rest[1..]))
  }

  /** Everything up to the first line break. */
  function ReadLine(b: seq<Byte>): (r: Option<(seq<Byte>, seq<Byte>)>)
    ensures r.Some? ==> |r.value.1| < |b|
  {
    if |b| < 2 then None
    else if b[..2] == CRLF then Some(([], b[2..]))
    else
      match ReadLine(b[1..])
      case None => None
      case Some((line, rest)) => Some(([b[0]] + line, rest))
  }

  function ReadFields(count: nat, b: seq<Byte>): (r: Option<(seq<nat>, seq<Byte>)>)
    ensures r.Some? ==> |r.value.0| == count && |r.value.1| <= |b|
  {
    if count == 0 then Some(([], b))
    else
      match ReadField(b)
      case None => None
      case Some((n, rest)) =>
        match ReadFields(count - 1, rest)
        case None => None
        case Some((more, left)) => Some(([n] + more, left))
  }

  /** Five numbers, then width * height bytes whatever they are, then a line break. */
  function ReadBitmap(b: seq<Byte>): (r: Option<(Command, seq<Byte>)>)
    ensures r.Some? ==> |r.value.1| <= |b|
  {
    match ReadFields(5, b)
    case None => None
    case Some((f, rest)) =>
      var size := f[2] * f[3];
      if |rest| < size + 2 || rest[size..size + 2] != CRLF then None
      else Some((Bitmap(f[0], f[1], f[2], f[3], f[4], FromBytes(rest[..size])), rest[size + 2..]))
  }

  function ReadCommand(b: seq<Byte>): (r: Option<(Command, seq<Byte>)>)
    ensures r.Some? ==> |r.value.1| < |b|
  {
    if BITMAP <= b then ReadBitmap(b[|BITMAP|..])
    else
      match ReadLine(b)
      case None => None
      case Some((line, rest)) => Some((Text(line), rest))
  }

  function ReadCommands(b: seq<Byte>): Option<seq<Command>>
    decreases |b|
  {
    if b == [] then Some([])
    else
      match ReadCommand(b)
      case None => None
      case Some((c, rest)) =>
        match ReadCommands(rest)
        case None => None
        case Some(more) => Some([c] + more)
  }

  // ----- what is framed is read back -----

  /** Text without a carriage return that is not taken for a bitmap; a bitmap of the announced size. */
  predicate Framable(c: Command) {
    match c
    case Text(line) => CR !in line && (line == [] || line[0] != BITMAP[0])
    case Bitmap(_, _, width, height, _, data) => |data| == width * height
  }

  lemma {:induction false} DigitsBack(n: nat, rest: seq<Byte>)
    ensures ReadDigits(0, Decimal(n) + rest) == ReadDigits(n, rest)
    decreases n
  {
    if n < 10 {
      assert (Decimal(n) + rest)[1..] == rest;
    } else {
      var last: Byte := 48 + n % 10;
      assert Decimal(n) + rest == Decimal(n / 10) + ([last] + rest);
      DigitsBack(n / 10, [last] + rest);
      assert ([last] + rest)[1..] == rest;
      assert n / 10 * 10 + n % 10 == n;
    }
  }

  lemma FieldBack(n: nat, rest: seq<Byte>)
    ensures ReadField(Field(n) + rest) == Some((n, rest))
  {
    hide Decimal;
    var tail := [COMMA] + rest;
    assert Field(n) + rest == Decimal(n) + tail;
    DigitsBack(n, tail);
    assert Decimal(n)[0] in Decimal(n);
    assert tail[1..] == rest;
  }

  lemma {:induction false} LineBack(line: seq<Byte>, rest: seq<Byte>)
    requires CR !in line
    ensures ReadLine(line + CRLF + rest) == Some((line, rest))
    decreases |line|
  {
    var b := line + CRLF + rest;
    if line == [] {
      assert b[..2] == CRLF && b[2..] == rest;
    } else {
      assert b[0] == line[0] && b[..2][0] == line[0];
      assert line[0] in line;
      assert b[1..] == line[1..] + CRLF + rest;
      LineBack(line[1..], rest);
      assert [line[0]] + line[1..] == line;
    }
  }

  function Fields(f: seq<nat>): seq<Byte> {
    if f == [] then [] else Field(f[0]) + Fields(f[1..])
  }

  lemma {:induction false} FieldsBack(f: seq<nat>, rest: seq<Byte>)
    ensures ReadFields(|f|, Fields(f) + rest) == Some((f, rest))
    decreases |f|
  {
    hide Field, ReadField;
    if f == [] {
      assert Fields(f) + rest == rest;
    } else {
      assert Fields(f) + rest == Field(f[0]) + (Fields(f[1..]) + rest);
      FieldBack(f[0], Fields(f[1..]) + rest);
      FieldsBack(f[1..], rest);
      assert [f[0]] + f[1..] == f;
    }
  }

  lemma FiveFields(a: nat, b: nat, c: nat, d: nat, e: nat)
    ensures Fields([a, b, c, d, e]) == Field(a) + Field(b) + Field(c) + Field(d) + Field(e)
  {
    hide Field;
    assert Fields([e]) == Field(e) by { assert [e][1..] == []; }
    assert Fields([d, e]) == Field(d) + Fields([e]) by { assert [d, e][1..] == [e]; }
    assert Fields([c, d, e]) == Field(c) + Fields([d, e]) by { assert [c, d, e][1..] == [d, e]; }
    assert Fields([b, c, d, e]) == Field(b) + Fields([c, d, e]) by { assert [b, c, d, e][1..] == [c, d, e]; }
    assert Fields([a, b, c, d, e])
           == Field(a) + Fields([b, c, d, e]) by { assert [a, b, c, d, e][1..] == [b, c, d, e]; }
  }

  lemma BitmapBack(c: Command, rest: seq<Byte>)
    requires c.Bitmap? && Framable(c)
    ensures ReadCommand(Frame(c) + rest) == Some((c, rest))
  {
    hide Field, Fields, ReadFields, FromBytes, ToBytes, Ascii;
    var f := [c.x, c.y, c.width, c.height, c.mode];
    var bytes := ToBytes(c.data);
    var tail := bytes + CRLF + rest;
    var size := c.width * c.height;
    FiveFields(c.x, c.y, c.width, c.height, c.mode);
    assert Frame(c) + rest == BITMAP + (Fields(f) + tail);
    assert (BITMAP + (Fields(f) + tail))[|BITMAP|..] == Fields(f) + tail;
    FieldsBack(f, tail);
    assert tail[..size] == bytes && tail[size..size + 2] == CRLF && tail[size + 2..] == rest;
    BytesBack(c.data);
  }

  lemma CommandBack(c: Command, rest: seq<Byte>)
    requires Framable(c)
    ensures ReadCommand(Frame(c) + rest) == Some((c, rest))
  {
    if c.Text? {
      hide ReadLine, ReadBitmap;
      LineBack(c.line, rest);
      var b := c.line + CRLF + rest;
      assert b[0] != BITMAP[0];
    } else {
      BitmapBack(c, rest);
    }
  }

  lemma {:induction false} FrameFromFront(first: Command, rest: seq<Command>)
    ensures FrameAll([first] + rest) == Frame(first) + FrameAll(rest)
    decreases |rest|
  {
    hide Frame;
    var all := [first] + rest;
    if rest == [] {
      assert all[..0] == [] && all[0] == first;
    } else {
      assert all[..|all| - 1] == [first] + rest[..|rest| - 1];
      FrameFromFront(first, rest[..|rest| - 1]);
    }
  }

  /** The reader finds the framed commands, bitmap bytes that look like line breaks or text included. */
  lemma {:induction false} CommandsBack(commands: seq<Command>)
    requires forall c :: c in commands ==> Framable(c)
    ensures ReadCommands(FrameAll(commands)) == Some(commands)
    decreases |commands|
  {
    hide Frame, Framable, ReadCommand;
    if commands == [] {
    } else {
      var first, rest := commands[0], commands[1..];
      assert commands == [first] + rest;
      FrameFromFront(first, rest);
      CommandBack(first, FrameAll(rest));
      CommandsBack(rest);
    }
  }

  // ----- the print job -----

  /** Height in tenths of a millimetre at 8 dots a millimetre, the nearest one, ties to the even one. */
  function HeightTenths(height: nat): (tenths: nat)
    ensures -4 <= 8 * tenths - 10 * height <= 4
    ensures 8 * tenths - 10 * height == -4 || 8 * tenths - 10 * height == 4 ==> tenths % 2 == 0
  {
    Nearest(height / 8, height % 8);
    10 * (height / 8) + EighthInTenths(height % 8)
  }

  lemma Nearest(whole: nat, eighths: nat)
    requires eighths < 8
    ensures var tenths, height := 10 * whole + EighthInTenths(eighths), 8 * whole + eighths;
            && -4 <= 8 * tenths - 10 * height <= 4
            && (8 * tenths - 10 * height == -4 || 8 * tenths - 10 * height == 4 ==> tenths % 2 == 0)
  {
    if eighths == 2 || eighths == 6 {
      TiesAreEven(whole, eighths);
    }
  }

  /** Two and six eighths lie halfway between tenths. */
  lemma TiesAreEven(whole: nat, eighths: nat)
    requires eighths == 2 || eighths == 6
    ensures (10 * whole + EighthInTenths(eighths)) % 2 == 0
  {
    Even(5 * whole + EighthInTenths(eighths) / 2);
  }

  lemma Even(half: nat)
    ensures 2 * half % 2 == 0
  {
  }

  function EighthInTenths(eighths: nat): nat
    requires eighths < 8
  {
    [0, 1, 2, 4, 5, 6, 8, 9][eighths]
  }

  function SizeLine(height: nat): seq<Byte> {
    var tenths := HeightTenths(height);
    Ascii("SIZE 76 mm,") + Decimal(tenths / 10) + Ascii(".") + Decimal(tenths % 10) + Ascii(" mm")
  }

  /** Read back, the line says the height in tenths of a millimetre. */
  lemma SizeLineReads(height: nat)
    ensures var line, tenths := SizeLine(height), HeightTenths(height);
            && Ascii("SIZE 76 mm,") <= line
            && ReadDigits(0, line[11..]) == (tenths / 10, Ascii(".") + [48 + tenths % 10] + Ascii(" mm"))
  {
    hide Ascii, HeightTenths;
    var tenths := HeightTenths(height);
    var rest := Ascii(".") + [48 + tenths % 10] + Ascii(" mm");
    assert SizeLine(height)[11..] == Decimal(tenths / 10) + rest;
    assert rest[0] == 46 by { FullStop(); }
    DigitsBack(tenths / 10, rest);
  }

  lemma FullStop()
    ensures Ascii(".") == [46]
  {
  }

  function GapLine(paperMode: string): seq<Byte> {
    if paperMode == "roll" then Ascii("GAP 0 mm,0 mm") else Ascii("GAP 3 mm,0 mm")
  }

  function FeedLine(trail: nat): seq<Byte> {
    Ascii("FEED ") + Decimal(trail) + Ascii(" mm")
  }

  lemma FeedLineReads(trail: nat)
    ensures Ascii("FEED ") <= FeedLine(trail) && ReadDigits(0, FeedLine(trail)[5..]) == (trail, Ascii(" mm"))
  {
    assert FeedLine(trail)[5..] == Decimal(trail) + Ascii(" mm");
    DigitsBack(trail, Ascii(" mm"));
  }

  /** The lines before the bitmap. */
  function PreambleLines(height: nat, paperMode: string): seq<Command> {
    [Text(SizeLine(height)),
     Text(GapLine(paperMode)),
     Text(Ascii("SPEED 3")),
     Text(Ascii("DENSITY 8")),
     Text(Ascii("DIRECTION 0,0")),
     Text(Ascii("CLS"))]
  }

  /** The commands of a job; a paper mode that is not known is printed as labels. */
  function PrintJob(height: nat, paperMode: string, trail: int, bitmap: seq<bv8>): seq<Command> {
    PreambleLines(height, paperMode)
    + [Bitmap(0, 0, WIDTH_BYTES, height, 0, bitmap), Text(Ascii("PRINT 1,1"))]
    + if paperMode == "roll" && trail > 0 then [Text(FeedLine(trail))] else []
  }

  /** The commands one by one: settings, bitmap, print and, for a roll with a trail, the feed. */
  lemma JobCommands(height: nat, paperMode: string, trail: int, bitmap: seq<bv8>)
    ensures var job := PrintJob(height, paperMode, trail, bitmap);
            && |job| == (if paperMode == "roll" && trail > 0 then 9 else 8)
            && job[0] == Text(SizeLine(height))
            && job[1] == Text(Ascii(if paperMode == "roll" then "GAP 0 mm,0 mm" else "GAP 3 mm,0 mm"))
            && job[2] == Text(Ascii("SPEED 3")) && job[3] == Text(Ascii("DENSITY 8"))
            && job[4] == Text(Ascii("DIRECTION 0,0")) && job[5] == Text(Ascii("CLS"))
            && job[6] == Bitmap(0, 0, 72, height, 0, bitmap) && job[7] == Text(Ascii("PRINT 1,1"))
            && (paperMode == "roll" && trail > 0 ==> job[8] == Text(FeedLine(trail)))
  {
    hide Ascii, SizeLine, FeedLine;
  }

  /** Printable text that does not start with a B is framable. */
  lemma PlainText(text: string, more: seq<Byte>)
    requires forall i :: 0 <= i < |text| ==> ' ' <= text[i] <= '~'
    requires text != "" && text[0] != 'B' && CR !in more
    ensures Framable(Text(Ascii(text) + more))
  {
    forall i | 0 <= i < |text|
      ensures Ascii(text)[i] != CR
    {
    }
    assert BITMAP[0] == 66;
  }

  lemma SizeIsFramable(height: nat)
    ensures Framable(Text(SizeLine(height)))
  {
    hide HeightTenths, Framable;
    var tenths := HeightTenths(height);
    var more := Decimal(tenths / 10) + Ascii(".") + Decimal(tenths % 10) + Ascii(" mm");
    assert CR !in Decimal(tenths / 10) && CR !in Decimal(tenths % 10);
    assert CR !in more;
    PlainText("SIZE 76 mm,", more);
    assert SizeLine(height) == Ascii("SIZE 76 mm,") + more;
  }

  lemma FeedIsFramable(trail: nat)
    ensures Framable(Text(FeedLine(trail)))
  {
    hide Framable;
    assert CR !in Decimal(trail);
    PlainText("FEED ", Decimal(trail) + Ascii(" mm"));
    assert FeedLine(trail) == Ascii("FEED ") + (Decimal(trail) + Ascii(" mm"));
  }

  lemma FixedLine(text: string)
    requires text in ["GAP 0 mm,0 mm", "GAP 3 mm,0 mm", "SPEED 3", "DENSITY 8", "DIRECTION 0,0", "CLS", "PRINT 1,1"]
    ensures Framable(Text(Ascii(text)))
  {
    hide Framable, Ascii;
    PlainText(text, []);
    assert Ascii(text) + [] == Ascii(text);
  }

  lemma JobIsFramable(height: nat, paperMode: string, trail: int, bitmap: seq<bv8>)
    requires |bitmap| == WIDTH_BYTES * height
    ensures forall c :: c in PrintJob(height, paperMode, trail, bitmap) ==> Framable(c)
  {
    hide SizeLine, FeedLine, Ascii;
    SizeIsFramable(height);
    FixedLine("GAP 0 mm,0 mm");
    FixedLine("GAP 3 mm,0 mm");
    FixedLine("SPEED 3");
    FixedLine("DENSITY 8");
    FixedLine("DIRECTION 0,0");
    FixedLine("CLS");
    FixedLine("PRINT 1,1");
    if trail > 0 {
      FeedIsFramable(trail);
    }
  }

  lemma FrameLast(commands: seq<Command>, c: Command)
    ensures FrameAll(commands + [c]) == FrameAll(commands) + Frame(c)
  {
    hide Frame;
    assert (commands + [c])[..|commands|] == commands;
  }

  /** Appends the text of a command and a line break. */
  method TsplCmd(commands: seq<Byte>, cmd: seq<Byte>, ghost job: seq<Command>) returns (longer: seq<Byte>)
    requires commands == FrameAll(job)
    ensures longer == FrameAll(job + [Text(cmd)])
  {
    hide FrameAll;
    longer := commands + cmd;
    longer := longer + CRLF;
    assert longer == commands + (cmd + CRLF);
    FrameLast(job, Text(cmd));
  }

  /** The settings sent before the bitmap; labels have a 3 mm gap, a roll has none. */
  method Preamble(height: nat, mode: string) returns (commands: seq<Byte>)
    requires mode in ["label", "roll"]
    ensures commands == FrameAll(PreambleLines(height, mode))
  {
    hide FrameAll, SizeLine, Ascii;
    ghost var job: seq<Command> := [];
    commands := [];
    assert FrameAll(job) == [] by { NothingFramed(); }
    commands := TsplCmd(commands, SizeLine(height), job);
    job := job + [Text(SizeLine(height))];
    var gap := if mode == "label" then Ascii("GAP 3 mm,0 mm") else Ascii("GAP 0 mm,0 mm");
    commands := TsplCmd(commands, gap, job);
    job := job + [Text(gap)];
    commands := TsplCmd(commands, Ascii("SPEED 3"), job);
    job := job + [Text(Ascii("SPEED 3"))];
    commands := TsplCmd(commands, Ascii("DENSITY 8"), job);
    job := job + [Text(Ascii("DENSITY 8"))];
    commands := TsplCmd(commands, Ascii("DIRECTION 0,0"), job);
    job := job + [Text(Ascii("DIRECTION 0,0"))];
    commands := TsplCmd(commands, Ascii("CLS"), job);
    job := job + [Text(Ascii("CLS"))];
    assert job == PreambleLines(height, mode);
  }

  lemma NothingFramed()
    ensures FrameAll([]) == []
  {
  }

  lemma BitmapSize(bitmap: seq<bv8>, pixels: seq<Row>)
    requires IsBitmapOf(bitmap, pixels)
    ensures |bitmap| == WIDTH_BYTES * |pixels|
  {
  }

  /** The bitmap command: header, packed bytes, line break. */
  method BitmapCmd(commands: seq<Byte>, height: nat, bitmap: array<bv8>, ghost job: seq<Command>)
    returns (longer: seq<Byte>)
    requires commands == FrameAll(job)
    ensures longer == FrameAll(job + [Bitmap(0, 0, WIDTH_BYTES, height, 0, bitmap[..])])
  {
    hide FrameAll, Decimal, ToBytes;
    var header := BITMAP + Field(0) + Field(0) + Field(WIDTH_BYTES) + Field(height) + Field(0);
    longer := commands + header;
    longer := longer + ToBytes(bitmap[..]);
    longer := longer + CRLF;
    assert longer == commands + (header + ToBytes(bitmap[..]) + CRLF);
    FrameLast(job, Bitmap(0, 0, WIDTH_BYTES, height, 0, bitmap[..]));
  }

  /**
   The bytes sent to the printer read back as the commands of the job, and the bitmap among them is the
   thresholded image.
   */
  method PngToTspl(pixels: seq<Row>, paperMode: string, trail: int) returns (commands: seq<Byte>)
    ensures
      var job := ReadCommands(commands);
      && job.Some?
      && |job.value| >= 8
      && job.value[6].Bitmap?
      && IsBitmapOf(job.value[6].data, pixels)
      && job.value == PrintJob(|pixels|, paperMode, trail, job.value[6].data)
  {
    hide FrameAll, ReadCommands, IsBitmapOf, SizeLine, FeedLine, Ascii;
    var mode := if paperMode in ["label", "roll"] then paperMode else "label";
    var height := |pixels|;
    var bitmap := PackBitmap(pixels);
    ghost var job := PreambleLines(height, mode);
    commands := Preamble(height, mode);
    commands := BitmapCmd(commands, height, bitmap, job);
    job := job + [Bitmap(0, 0, WIDTH_BYTES, height, 0, bitmap[..])];
    commands := TsplCmd(commands, Ascii("PRINT 1,1"), job);
    job := job + [Text(Ascii("PRINT 1,1"))];
    if mode == "roll" && trail > 0 {
      commands := TsplCmd(commands, FeedLine(trail), job);
      job := job + [Text(FeedLine(trail))];
    }
    BitmapSize(bitmap[..], pixels);
    assert job == PrintJob(height, paperMode, trail, bitmap[..]);
    JobIsFramable(height, paperMode, trail, bitmap[..]);
    CommandsBack(job);
  }
}
