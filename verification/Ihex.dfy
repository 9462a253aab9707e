/** Intel HEX records as text, as `rivet-objcopy.c` prints and reads them. */
module IhexText {

  type Byte = x: int | 0 <= x < 256

  const U16 := 0x1_0000

  /** `%X` for one digit. */
  function Digit(n: nat): char
    requires n < 16
  {
    if n < 10 then '0' + n as char else 'A' + (n - 10) as char
  }

  /** `hex_val`, with -1 for anything that is not a digit. */
  function HexVal(c: char): int {
    if '0' <= c <= '9' then c as int - '0' as int
    else if 'a' <= c <= 'f' then c as int - 'a' as int + 10
    else if 'A' <= c <= 'F' then c as int - 'A' as int + 10
    else -1
  }

  lemma DigitValue(n: nat)
    requires n < 16
    ensures HexVal(Digit(n)) == n
  {
  }

  /** `%02X` for each byte. */
  function Hex(bs: seq<Byte>): (r: string)
    ensures |r| == 2 * |bs|
  {
    if bs == [] then "" else Hex(bs[..|bs| - 1]) + [Digit(bs[|bs| - 1] / 16), Digit(bs[|bs| - 1] % 16)]
  }

  lemma {:induction false} HexAt(bs: seq<Byte>, i: nat)
    requires i < |bs|
    ensures Hex(bs)[2 * i] == Digit(bs[i] / 16) && Hex(bs)[2 * i + 1] == Digit(bs[i] % 16)
  {
    if i < |bs| - 1 {
      HexAt(bs[..|bs| - 1], i);
    }
  }

  /** A number in two bytes, high byte first. */
  function Two(n: nat): seq<Byte>
    requires n < U16
  {
    [n / 256, n % 256]
  }

  function Sum(bs: seq<Byte>): nat {
    if bs == [] then 0 else Sum(bs[..|bs| - 1]) + bs[|bs| - 1]
  }

  /** The byte that brings the sum of a record to zero modulo 256. */
  function Check(bs: seq<Byte>): Byte {
    (256 - Sum(bs) % 256) % 256
  }

  lemma CheckSum(bs: seq<Byte>)
    ensures Sum(bs + [Check(bs)]) % 256 == 0
  {
    assert (bs + [Check(bs)])[..|bs|] == bs;
    Complement(Sum(bs));
  }

  lemma Complement(s: nat)
    ensures (s + (256 - s % 256) % 256) % 256 == 0
  {
    if s % 256 != 0 {
      assert (256 - s % 256) % 256 == 256 - s % 256;
    }
  }

  // ---------- records ----------

  datatype Rec =
    | Data(addr: nat, bytes: seq<Byte>)
    | Ext(upper: nat)
    | End
    | Other

  predicate Writable(r: Rec) {
    match r
    case Data(addr, bytes) => addr < U16 && |bytes| < 256
    case Ext(upper) => upper < U16
    case End => true
    case Other => false
  }

  /** Count, address, type and payload. */
  function Body(r: Rec): seq<Byte>
    requires Writable(r)
  {
    match r
    case Data(addr, bytes) => [|bytes|] + Two(addr) + [0] + bytes
    case Ext(upper) => [2, 0, 0, 4] + Two(upper)
    case End => [0, 0, 0, 1]
  }

  /** The record's line. */
  function Print(r: Rec): string
    requires Writable(r)
  {
    ":" + Hex(Body(r) + [Check(Body(r))])
  }

  /** Byte `k` of a line after its colon. */
  function ByteAt(line: string, k: nat): int
    requires 2 * k + 2 < |line|
  {
    HexVal(line[2 * k + 1]) * 16 + HexVal(line[2 * k + 2])
  }

  /** The first `n` bytes after the colon are there and written in hexadecimal digits. */
  predicate HexUpTo(line: string, n: nat) {
    && 2 * n < |line|
    && forall i | 1 <= i <= 2 * n :: HexVal(line[i]) >= 0
  }

  lemma ByteRange(line: string, n: nat, k: nat)
    requires HexUpTo(line, n) && k < n
    ensures 0 <= ByteAt(line, k) < 256
  {
    assert HexVal(line[2 * k + 1]) >= 0 && HexVal(line[2 * k + 2]) >= 0;
  }

  /** The reader does not check its input: a line that begins with a colon has to be a whole record. */
  predicate Readable(line: string) {
    line == "" || line[0] != ':' ||
    (&& HexUpTo(line, 4)
     && (ByteAt(line, 3) == 4 ==> HexUpTo(line, 6))
     && (ByteAt(line, 3) == 0 ==> HexUpTo(line, 4 + if ByteAt(line, 0) >= 0 then ByteAt(line, 0) else 0)))
  }

  function Payload(line: string, n: nat): (r: seq<Byte>)
    requires HexUpTo(line, 4 + n)
    ensures |r| == n && forall i | 0 <= i < n :: r[i] == ByteAt(line, 4 + i)
  {
    if n == 0 then []
    else
      ByteRange(line, 4 + n, 3 + n);
      Payload(line, n - 1) + [ByteAt(line, 3 + n)]
  }

  /** What a line means to the reader. */
  function Parse(line: string): Rec
    requires Readable(line)
  {
    if line == "" || line[0] != ':' then Other
    else
      ByteRange(line, 4, 0);
      ByteRange(line, 4, 1);
      ByteRange(line, 4, 2);
      var len, addr, kind := ByteAt(line, 0), ByteAt(line, 1) * 256 + ByteAt(line, 2), ByteAt(line, 3);
      if kind == 4 then
        ByteRange(line, 6, 4);
        ByteRange(line, 6, 5);
        Ext(ByteAt(line, 4) * 256 + ByteAt(line, 5))
      else if kind == 0 then Data(addr, Payload(line, len))
      else if kind == 1 then End
      else Other
  }

  /** In a line of printed bytes, the reader sees those bytes. */
  lemma PrintedByte(bs: seq<Byte>, k: nat)
    requires k < |bs|
    ensures ByteAt(":" + Hex(bs), k) == bs[k]
    ensures HexVal((":" + Hex(bs))[2 * k + 1]) >= 0 && HexVal((":" + Hex(bs))[2 * k + 2]) >= 0
  {
    HexAt(bs, k);
    DigitValue(bs[k] / 16);
    DigitValue(bs[k] % 16);
  }

  lemma Halved(i: nat) returns (k: nat)
    requires i > 0
    ensures i == 2 * k + 1 || i == 2 * k + 2
  {
    k := (i - 1) / 2;
  }

  lemma PrintedHex(bs: seq<Byte>, n: nat)
    requires n <= |bs|
    ensures HexUpTo(":" + Hex(bs), n)
  {
    hide Hex, HexVal, Digit;
    var line := ":" + Hex(bs);
    forall i | 1 <= i <= 2 * n ensures HexVal(line[i]) >= 0 {
      var k := Halved(i);
      PrintedByte(bs, k);
    }
  }

  /** Every record reads back as what was written, and its bytes sum to zero modulo 256. */
  lemma PrintParse(r: Rec)
    requires Writable(r)
    ensures Readable(Print(r)) && Parse(Print(r)) == r
    ensures Sum(Body(r) + [Check(Body(r))]) % 256 == 0
  {
    hide Hex, ByteAt, HexVal, Check;
    var bs := Body(r) + [Check(Body(r))];
    var line := Print(r);
    CheckSum(Body(r));
    PrintedHex(bs, 4);
    PrintedByte(bs, 0);
    PrintedByte(bs, 1);
    PrintedByte(bs, 2);
    PrintedByte(bs, 3);
    match r
    case Data(addr, bytes) =>
      PrintedHex(bs, 4 + |bytes|);
      var p := Payload(line, |bytes|);
      forall i | 0 <= i < |bytes| ensures p[i] == bytes[i] {
        PrintedByte(bs, 4 + i);
      }
      assert p == bytes;
    case Ext(upper) =>
      PrintedHex(bs, 6);
      PrintedByte(bs, 4);
      PrintedByte(bs, 5);
    case End =>
  }
}

/** The records of a written file, and the two passes of the reader, as values. */
module IhexSpec {
  import opened Basics
  import opened IhexText


  const NO_ADDR := 0xFFFF_FFFF

  /** How much one `fread` returns. */
  function Chunk(n: nat): nat {
    if n < 16 then n else 16
  }

  function Upper(addr: nat): (u: nat)
    ensures addr < U32 ==> u < U16
  {
    addr / U16
  }

  function Lower(addr: nat): (l: nat)
    ensures l < U16
  {
    addr % U16
  }

  /** `addr += n` on 32-bit words. */
  function Advance(addr: nat, n: nat): (r: nat)
    ensures r < U32
  {
    (addr + n) % U32
  }

  /** The records for what is left of the image at `addr`, when the last upper half written was `last`. */
  function Recs(img: seq<Byte>, addr: nat, last: nat): (r: seq<Rec>)
    requires addr < U32
    ensures forall i | 0 <= i < |r| :: Writable(r[i])
    decreases |img|
  {
    if img == [] then [End]
    else
      var n, upper := Chunk(|img|), Upper(addr);
      var rest := [Data(Lower(addr), img[..n])] + Recs(img[n..], Advance(addr, n), upper);
      if upper != last then [Ext(upper)] + rest else rest
  }

  function Printed(rs: seq<Rec>): (r: seq<string>)
    requires forall i | 0 <= i < |rs| :: Writable(rs[i])
    ensures |r| == |rs| && forall i | 0 <= i < |rs| :: r[i] == Print(rs[i])
  {
    seq(|rs|, i requires 0 <= i < |rs| => Print(rs[i]))
  }

  function Parsed(lines: seq<string>): (r: seq<Rec>)
    requires forall i | 0 <= i < |lines| :: Readable(lines[i])
    ensures |r| == |lines| && forall i | 0 <= i < |lines| :: r[i] == Parse(lines[i])
  {
    seq(|lines|, i requires 0 <= i < |lines| => Parse(lines[i]))
  }

  /** The variables of the reader's first pass. */
  datatype Bounds = Bounds(upper: nat, lo: nat, hi: nat)

  function Grow(b: Bounds, r: Rec): Bounds {
    match r
    case Ext(upper) => b.(upper := upper * U16)
    case Data(addr, bytes) =>
      var a := b.upper + addr;
      var e := (a + |bytes|) % U32;
      b.(lo := if a < b.lo then a else b.lo, hi := if e > b.hi then e else b.hi)
    case _ => b
  }

  function Scan(b: Bounds, rs: seq<Rec>): Bounds
    decreases |rs|
  {
    if rs == [] then b else Scan(Grow(b, rs[0]), rs[1..])
  }

  function UpperAfter(upper: nat, r: Rec): nat {
    if r.Ext? then r.upper * U16 else upper
  }

  /** `bytes` copied into the image, when they stay inside it; otherwise the code writes outside its buffer. */
  function Store(image: seq<Byte>, at: nat, bytes: seq<Byte>): (r: Option<seq<Byte>>)
    ensures r.Some? ==> |r.value| == |image|
  {
    if bytes == [] then Some(image) else if at + |bytes| <= |image| then Some(Splice(image, at, bytes)) else None
  }

  /** The reader's second pass, with 32-bit offsets from the lowest address. */
  function Fill(image: seq<Byte>, rs: seq<Rec>, upper: nat, lo: nat): (r: Option<seq<Byte>>)
    ensures r.Some? ==> |r.value| == |image|
    decreases |rs|
  {
    if rs == [] then Some(image)
    else if rs[0].Data? then
      match Store(image, (upper + rs[0].addr - lo) % U32, rs[0].bytes)
      case None => None
      case Some(next) => Fill(next, rs[1..], upper, lo)
    else Fill(image, rs[1..], UpperAfter(upper, rs[0]), lo)
  }

  const START := Bounds(0, NO_ADDR, 0)

  /** What `ihex_to_bin` comes to: no data record, a write outside the image, or the first address and the bytes. */
  datatype Outcome = NoData | Overrun | Loaded(base: nat, bytes: seq<Byte>)

  /** `maxaddr - minaddr` on 32-bit words. */
  function Size(b: Bounds): (n: nat)
    ensures n < U32
  {
    (b.hi - b.lo) % U32
  }

  /** The buffer is never empty. */
  function Capacity(n: nat): nat {
    if n == 0 then 1 else n
  }

  function Read(rs: seq<Rec>): Outcome {
    var e := Scan(START, rs);
    if e.lo == NO_ADDR then NoData
    else
      match Fill(Repeat<Byte>(Capacity(Size(e)), 0), rs, 0, e.lo)
      case None => Overrun
      case Some(image) => Loaded(e.lo, image[..Size(e)])
  }

  lemma {:induction false} ScanMonotone(b: Bounds, rs: seq<Rec>)
    ensures Scan(b, rs).lo <= b.lo && Scan(b, rs).hi >= b.hi
    ensures b.hi < U32 ==> Scan(b, rs).hi < U32
    decreases |rs|
  {
    if rs != [] {
      ScanMonotone(Grow(b, rs[0]), rs[1..]);
    }
  }

  /** The file has a data record of `n` bytes at address `a`. */
  predicate Lists(rs: seq<Rec>, upper: nat, a: nat, n: nat)
    decreases |rs|
  {
    rs != [] &&
    ((rs[0].Data? && upper + rs[0].addr == a && |rs[0].bytes| == n) || Lists(rs[1..], UpperAfter(upper, rs[0]), a, n))
  }

  /** The first pass takes in the start of every record and, modulo 2^32, its end. */
  lemma {:induction false} ScanCovers(b: Bounds, rs: seq<Rec>, a: nat, n: nat)
    requires Lists(rs, b.upper, a, n)
    ensures var e := Scan(b, rs); e.lo <= a && (a + n) % U32 <= e.hi
    decreases |rs|
  {
    ScanMonotone(Grow(b, rs[0]), rs[1..]);
    if !(rs[0].Data? && b.upper + rs[0].addr == a && |rs[0].bytes| == n) {
      ScanCovers(Grow(b, rs[0]), rs[1..], a, n);
    }
  }

  /** A record that does not fit the image stops the second pass. */
  lemma {:induction false} FillFails(image: seq<Byte>, rs: seq<Rec>, upper: nat, lo: nat, a: nat, n: nat)
    requires Lists(rs, upper, a, n) && n > 0 && lo <= a < U32 && a - lo + n > |image|
    ensures Fill(image, rs, upper, lo) == None
    decreases |rs|
  {
    if rs[0].Data? && upper + rs[0].addr == a && |rs[0].bytes| == n {
      assert (a - lo) % U32 == a - lo;
    } else if rs[0].Data? {
      var next := Store(image, (upper + rs[0].addr - lo) % U32, rs[0].bytes);
      if next.Some? {
        FillFails(next.value, rs[1..], upper, lo, a, n);
      }
    } else {
      FillFails(image, rs[1..], UpperAfter(upper, rs[0]), lo, a, n);
    }
  }

  /** A file in which one record ends at 2^32 or beyond and another below it cannot be read. */
  lemma MixedOverruns(rs: seq<Rec>, a: nat, n: nat, c: nat, k: nat)
    requires Lists(rs, 0, a, n) && a < U32 <= a + n
    requires Lists(rs, 0, c, k) && k > 0 && c + k < U32
    ensures Read(rs) == Overrun
  {
    hide Scan, Fill, Lists;
    var e := Scan(START, rs);
    ScanMonotone(START, rs);
    ScanCovers(START, rs, a, n);
    ScanCovers(START, rs, c, k);
    assert (c + k) % U32 == c + k;
    assert Size(e) == e.hi - e.lo;
    FillFails(Repeat<Byte>(Capacity(Size(e)), 0), rs, 0, e.lo, a, n);
  }
}

/** What the reader makes of what the writer wrote. */
module IhexRoundTrip {
  import opened Basics
  import opened IhexText
  import opened IhexSpec

  lemma ChunkFacts(addr: nat, len: nat)
    requires addr + len < U32 && len > 0
    ensures var n := Chunk(len);
            && 0 < n <= len && n < 256 && Advance(addr, n) == addr + n && (addr + n) % U32 == addr + n
            && Upper(addr) < U16 && Upper(addr) * U16 + Lower(addr) == addr
  {
  }

  lemma ScanCons(b: Bounds, r: Rec, rest: seq<Rec>)
    ensures Scan(b, [r] + rest) == Scan(Grow(b, r), rest)
  {
    assert ([r] + rest)[1..] == rest;
  }

  lemma ListsCons(r: Rec, rest: seq<Rec>, upper: nat, a: nat, n: nat)
    ensures Lists([r] + rest, upper, a, n) <==>
              (r.Data? && upper + r.addr == a && |r.bytes| == n) || Lists(rest, UpperAfter(upper, r), a, n)
  {
    assert ([r] + rest)[1..] == rest;
  }

  lemma FillCons(image: seq<Byte>, r: Rec, rest: seq<Rec>, upper: nat, lo: nat)
    ensures Fill(image, [r] + rest, upper, lo) ==
            if r.Data? then
              match Store(image, (upper + r.addr - lo) % U32, r.bytes)
              case None => None
              case Some(next) => Fill(next, rest, upper, lo)
            else Fill(image, rest, UpperAfter(upper, r), lo)
  {
    assert ([r] + rest)[1..] == rest;
  }

  /** The records of one chunk come apart into an upper half, if it changed, and the data. */
  lemma RecsUnfold(img: seq<Byte>, addr: nat, last: nat, n: nat)
    requires img != [] && addr < U32 && n == Chunk(|img|) && Advance(addr, n) == addr + n
    ensures var rest := [Data(Lower(addr), img[..n])] + Recs(img[n..], addr + n, Upper(addr));
            Recs(img, addr, last) == if Upper(addr) == last then rest else [Ext(Upper(addr))] + rest
  {
  }

  /** The reader knows the upper half that the writer last wrote. */
  predicate InStep(upper: nat, last: nat) {
    last < U16 ==> upper == last * U16
  }

  /** The first chunk is among the records. */
  lemma FirstListed(img: seq<Byte>, addr: nat, last: nat, upper: nat)
    requires img != [] && addr < U32 && InStep(upper, last)
    ensures Lists(Recs(img, addr, last), upper, addr, Chunk(|img|))
    ensures var rest := Recs(img[Chunk(|img|)..], Advance(addr, Chunk(|img|)), Upper(addr));
            forall a, n :: Lists(rest, Upper(addr) * U16, a, n) ==> Lists(Recs(img, addr, last), upper, a, n)
  {
    hide Lists, Advance;
    var n, up := Chunk(|img|), Upper(addr);
    var data, rest := Data(Lower(addr), img[..n]), Recs(img[n..], Advance(addr, n), up);
    assert up * U16 + Lower(addr) == addr && up < U16;
    ListsCons(data, rest, up * U16, addr, n);
    ListsCons(Ext(up), [data] + rest, upper, addr, n);
    forall a, k | Lists(rest, up * U16, a, k) ensures Lists(Recs(img, addr, last), upper, a, k) {
      ListsCons(data, rest, up * U16, a, k);
      ListsCons(Ext(up), [data] + rest, upper, a, k);
    }
  }

  /** An image that reaches the end of the address space gives a record that does, too. */
  lemma {:induction false} WrittenWraps(img: seq<Byte>, addr: nat, last: nat, upper: nat) returns (a: nat, n: nat)
    requires addr < U32 <= addr + |img| && InStep(upper, last)
    ensures Lists(Recs(img, addr, last), upper, a, n) && a < U32 <= a + n
    decreases |img|
  {
    hide Lists, Recs, Upper;
    var k := Chunk(|img|);
    FirstListed(img, addr, last, upper);
    if addr + k < U32 {
      assert Advance(addr, k) == addr + k;
      a, n := WrittenWraps(img[k..], addr + k, Upper(addr), Upper(addr) * U16);
    } else {
      a, n := addr, k;
    }
  }

  /** With more than one chunk, the first or the second ends below 2^32. */
  lemma WrittenPlain(img: seq<Byte>, addr: nat) returns (a: nat, n: nat)
    requires addr < U32 && |img| > 16
    ensures Lists(Recs(img, addr, NO_ADDR), 0, a, n) && n > 0 && a + n < U32
  {
    hide Lists, Recs, Upper;
    FirstListed(img, addr, NO_ADDR, 0);
    if addr + 16 < U32 {
      a, n := addr, 16;
    } else {
      a, n := Advance(addr, 16), Chunk(|img| - 16);
      SecondAddress(addr);
      FirstListed(img[16..], a, Upper(addr), Upper(addr) * U16);
    }
  }

  lemma SecondAddress(addr: nat)
    requires addr < U32 <= addr + 16
    ensures Advance(addr, 16) < 16
  {
  }

  lemma ChunkScan(data: Rec, rest: seq<Rec>, up: nat, last: nat, b: Bounds, rs: seq<Rec>)
    requires data.Data? && InStep(b.upper, last) && up < U16
    requires rs == if up == last then [data] + rest else [Ext(up)] + ([data] + rest)
    ensures Scan(b, rs) == Scan(Grow(b.(upper := up * U16), data), rest)
  {
    hide Scan;
    if up != last {
      ScanCons(b, Ext(up), [data] + rest);
    }
    ScanCons(b.(upper := up * U16), data, rest);
  }

  function Min(x: nat, y: nat): nat { if x < y then x else y }

  /** What one chunk below 2^32 does to the bounds. */
  lemma ChunkGrow(b: Bounds, addr: nat, bytes: seq<Byte>)
    requires addr + |bytes| < U32
    ensures Grow(b.(upper := Upper(addr) * U16), Data(Lower(addr), bytes)) ==
            Bounds(Upper(addr) * U16, Min(addr, b.lo), Max(addr + |bytes|, b.hi))
  {
    SmallOffset(addr + |bytes|, 0);
  }

  lemma SmallOffset(addr: nat, lo: nat)
    requires lo <= addr < U32
    ensures (addr - lo) % U32 == addr - lo
  {
  }

  /** The first pass ends with the first and last address of what was written. */
  lemma {:induction false} WrittenBounds(img: seq<Byte>, addr: nat, last: nat, b: Bounds)
    requires addr + |img| < U32 && InStep(b.upper, last)
    ensures var e := Scan(b, Recs(img, addr, last));
            if img == [] then e == b else e.lo == Min(addr, b.lo) && e.hi == Max(addr + |img|, b.hi)
    decreases |img|
  {
    hide Recs, Scan, Chunk, Upper, Lower, Advance, Grow;
    if img != [] {
      ChunkFacts(addr, |img|);
      var n, up := Chunk(|img|), Upper(addr);
      RecsUnfold(img, addr, last, n);
      ChunkScan(Data(Lower(addr), img[..n]), Recs(img[n..], addr + n, up), up, last, b, Recs(img, addr, last));
      ChunkGrow(b, addr, img[..n]);
      WrittenBounds(img[n..], addr + n, up, Bounds(up * U16, Min(addr, b.lo), Max(addr + n, b.hi)));
    } else {
      NothingWritten(addr, last, b);
    }
  }

  lemma NothingWritten(addr: nat, last: nat, b: Bounds)
    requires addr < U32
    ensures Scan(b, Recs([], addr, last)) == b
  {
    assert [End][1..] == [];
  }

  /** The second pass over the records of one chunk. */
  lemma ChunkFill(data: Rec, rest: seq<Rec>, up: nat, last: nat, upper: nat, lo: nat, image: seq<Byte>, rs: seq<Rec>)
    requires data.Data? && InStep(upper, last) && up < U16
    requires rs == if up == last then [data] + rest else [Ext(up)] + ([data] + rest)
    ensures Fill(image, rs, upper, lo) ==
            match Store(image, (up * U16 + data.addr - lo) % U32, data.bytes)
            case None => None
            case Some(next) => Fill(next, rest, up * U16, lo)
  {
    hide Fill, Store;
    if up != last {
      FillCons(image, Ext(up), [data] + rest, upper, lo);
    }
    FillCons(image, data, rest, up * U16, lo);
  }

  lemma FillNothing(addr: nat, last: nat, upper: nat, lo: nat, image: seq<Byte>)
    requires addr < U32 && lo <= addr && addr - lo <= |image|
    ensures Fill(image, Recs([], addr, last), upper, lo) == Some(Splice(image, addr - lo, []))
  {
    assert [End][1..] == [];
    assert Splice(image, addr - lo, []) == image;
  }

  /** The second pass puts the bytes back where they were. */
  lemma {:induction false} WrittenFill(img: seq<Byte>, addr: nat, last: nat, upper: nat, lo: nat, image: seq<Byte>)
    requires addr + |img| < U32 && InStep(upper, last)
    requires lo <= addr && addr - lo + |img| <= |image|
    ensures Fill(image, Recs(img, addr, last), upper, lo) == Some(Splice(image, addr - lo, img))
    decreases |img|
  {
    hide Recs, Fill, Chunk, Splice, Upper, Lower, Advance;
    if img == [] {
      FillNothing(addr, last, upper, lo, image);
    } else {
      ChunkFacts(addr, |img|);
      SmallOffset(addr, lo);
      var n, up := Chunk(|img|), Upper(addr);
      RecsUnfold(img, addr, last, n);
      ChunkFill(Data(Lower(addr), img[..n]), Recs(img[n..], addr + n, up), up, last, upper, lo, image, Recs(img,
          addr, last));
      WrittenFill(img[n..], addr + n, up, up * U16, lo, Splice(image, addr - lo, img[..n]));
      SpliceTwice(image, addr - lo, img[..n], img[n..]);
      assert img[..n] + img[n..] == img;
    }
  }

  /** Below 2^32 the same bytes come back at the same base, aligned or not. */
  lemma RoundTrip(img: seq<Byte>, base: nat)
    requires base + |img| < U32
    ensures Read(Recs(img, base, NO_ADDR)) == if img == [] then NoData else Loaded(base, img)
  {
    hide Recs, Scan, Fill, Splice;
    WrittenBounds(img, base, NO_ADDR, START);
    if img != [] {
      var image := Repeat<Byte>(|img|, 0);
      SmallOffset(base + |img|, base);
      WrittenFill(img, base, NO_ADDR, 0, base, image);
      WholePut(image, img);
    }
  }

  lemma WholePut(image: seq<Byte>, img: seq<Byte>)
    requires |image| == |img|
    ensures Splice(image, 0, img) == img && img[..|img|] == img
  {
  }

  lemma OneRecord(img: seq<Byte>, base: nat)
    requires base < U32 && 0 < |img| <= 16
    ensures var up := Upper(base);
            && up * U16 + Lower(base) == base && up < U16
            && Recs(img, base, NO_ADDR) == [Ext(up)] + ([Data(Lower(base), img)] + [End])
  {
    var n, up := |img|, Upper(base);
    assert img[..n] == img && img[n..] == [];
    assert Recs([], Advance(base, n), up) == [End];
    assert Chunk(n) == n && up != NO_ADDR;
  }

  /** A single record that ends at 2^32 or beyond still comes back: bounds and size wrap alike. */
  lemma OneRecordWraps(img: seq<Byte>, base: nat)
    requires base < U32 <= base + |img| && |img| <= 16
    ensures Read(Recs(img, base, NO_ADDR)) == if base == NO_ADDR then NoData else Loaded(base, img)
  {
    hide Recs, Scan, Fill, Splice, Upper, Lower;
    OneRecord(img, base);
    var n, up := |img|, Upper(base);
    var data := Data(Lower(base), img);
    var rs := Recs(img, base, NO_ADDR);
    ScanCons(START, Ext(up), [data] + [End]);
    var b1 := START.(upper := up * U16);
    ScanCons(b1, data, [End]);
    var e := Grow(b1, data);
    EndRecord(e, base);
    assert Scan(START, rs) == e;
    if base != NO_ADDR {
      WrapSize(base, n);
      FillCons(Repeat<Byte>(n, 0), Ext(up), [data] + [End], 0, base);
      FillCons(Repeat<Byte>(n, 0), data, [End], up * U16, base);
      WholePut(Repeat<Byte>(n, 0), img);
    }
  }

  lemma EndRecord(b: Bounds, lo: nat)
    ensures Scan(b, [End]) == b
    ensures forall image, upper :: Fill(image, [End], upper, lo) == Some(image)
  {
    assert [End][1..] == [];
  }

  lemma WrapSize(base: nat, n: nat)
    requires base < NO_ADDR && U32 <= base + n && 0 < n <= 16
    ensures (base + n) % U32 == base + n - U32 && ((base + n) % U32 - base) % U32 == n && (base - base) % U32 == 0
  {
  }

  /**
   For every image and base: the file is read back if and only if the image is not empty and either
   ends below 2^32 or is a single record that does not begin at the last address. Otherwise there is no
   data to be found, or the reader writes outside its buffer.
   */
  lemma ReadBackExact(img: seq<Byte>, base: nat)
    requires base < U32
    ensures var r := Read(Recs(img, base, NO_ADDR));
            && (r == Loaded(base, img) <==>
                  img != [] && (base + |img| < U32 || (|img| <= 16 && base != NO_ADDR)))
            && (r.NoData? <==> img == [] || (|img| <= 16 && base == NO_ADDR))
            && (r.Overrun? <==> |img| > 16 && base + |img| >= U32)
  {
    hide Recs, Read;
    if base + |img| < U32 {
      RoundTrip(img, base);
    } else if |img| <= 16 {
      OneRecordWraps(img, base);
    } else {
      var a, n := WrittenWraps(img, base, NO_ADDR, 0);
      var c, k := WrittenPlain(img, base);
      MixedOverruns(Recs(img, base, NO_ADDR), a, n, c, k);
    }
  }

  /** Thirty-two bytes at the top of memory: the reader makes room for sixteen. */
  lemma TopOfMemory(img: seq<Byte>)
    requires |img| == 32
    ensures var rs := Recs(img, 0xFFFF_FFE0, NO_ADDR); Size(Scan(START, rs)) == 16 && Read(rs) == Overrun
  {
    var base := 0xFFFF_FFE0;
    ReadBackExact(img, base);
    var rs := Recs(img, base, NO_ADDR);
    var d1, d2 := Data(0xFFE0, img[..16]), Data(0xFFF0, img[16..]);
    assert img[16..][..16] == img[16..] && img[16..][16..] == [];
    assert Recs(img[16..], 0xFFFF_FFF0, 0xFFFF) == [d2] + [End];
    assert rs == [Ext(0xFFFF)] + ([d1] + ([d2] + [End]));
    hide Recs, Scan, Read;
    var b1 := START.(upper := 0xFFFF_0000);
    ScanCons(START, Ext(0xFFFF), [d1] + ([d2] + [End]));
    ScanCons(b1, d1, [d2] + [End]);
    ScanCons(Grow(b1, d1), d2, [End]);
    EndRecord(Grow(Grow(b1, d1), d2), 0);
  }

  /** The same through the text of the file. */
  lemma TextRoundTrip(img: seq<Byte>, base: nat)
    requires base < U32
    ensures var lines := Printed(Recs(img, base, NO_ADDR));
            && (forall i | 0 <= i < |lines| :: Readable(lines[i]))
            && Parsed(lines) == Recs(img, base, NO_ADDR)
  {
    hide Print, Parse, Readable, Recs;
    var rs := Recs(img, base, NO_ADDR);
    var lines := Printed(rs);
    forall i | 0 <= i < |lines| ensures Readable(lines[i]) && Parse(lines[i]) == rs[i] {
      PrintParse(rs[i]);
    }
    assert Parsed(lines) == rs;
  }
}

/** `bin_to_ihex` and `ihex_to_bin` as code; a file is the sequence of its lines. */
module Ihex {
  import opened Basics
  import opened IhexText
  import opened IhexSpec
  import opened IhexRoundTrip

  lemma SumStep(bs: seq<Byte>, b: Byte)
    ensures Sum(bs + [b]) == Sum(bs) + b && Hex(bs + [b]) == Hex(bs) + [Digit(b / 16), Digit(b % 16)]
  {
    assert (bs + [b])[..|bs|] == bs;
  }

  /** One record: every byte is printed and added to an eight-bit sum, and the sum's complement ends it. */
  method PrintRecord(r: Rec) returns (line: string)
    requires Writable(r)
    ensures line == Print(r)
  {
    hide Hex, Sum, Digit, Body;
    var body := Body(r);
    line := ":";
    var sum: nat := 0;
    var i := 0;
    EmptyText();
    while i < |body|
      invariant 0 <= i <= |body| && line == ":" + Hex(body[..i]) && sum == Sum(body[..i]) % 256
    {
      SumStep(body[..i], body[i]);
      assert body[..i + 1] == body[..i] + [body[i]];
      line := line + [Digit(body[i] / 16), Digit(body[i] % 16)];
      AddByte(Sum(body[..i]), body[i]);
      sum := (sum + body[i]) % 256;
      i := i + 1;
    }
    assert body[..i] == body;
    var check: Byte := (0x100 - sum) % 256;
    SumStep(body, check);
    line := line + [Digit(check / 16), Digit(check % 16)];
  }

  /** Adding in eight bits. */
  lemma AddByte(s: nat, b: Byte)
    ensures (s % 256 + b) % 256 == (s + b) % 256
  {
  }

  lemma EmptyText()
    ensures Hex([]) == "" && Sum([]) == 0
  {
  }

  /** `bin_to_ihex`. */
  method Write(img: seq<Byte>, base: nat) returns (lines: seq<string>)
    requires base < U32
    ensures lines == Printed(Recs(img, base, NO_ADDR))
  {
    hide Print, Upper, Lower, Advance, Recs;
    var addr: nat, last: nat := base, NO_ADDR;
    var p: nat := 0;
    ghost var done: seq<Rec> := [];
    lines := [];
    assert img[0..] == img;
    while p < |img|
      invariant p <= |img| && addr < U32
      invariant (forall i | 0 <= i < |done| :: Writable(done[i])) && lines == Printed(done)
      invariant Recs(img, base, NO_ADDR) == done + Recs(img[p..], addr, last)
    {
      var n := if |img| - p < 16 then |img| - p else 16;
      var upper := Upper(addr);
      ghost var rest := Recs(img[p + n..], Advance(addr, n), upper);
      ghost var data := Data(Lower(addr), img[p..p + n]);
      RecsStep(img, p, addr, last, n);
      if upper != last {
        var ext := PrintRecord(Ext(upper));
        lines := lines + [ext];
        assert done + ([Ext(upper)] + ([data] + rest)) == (done + [Ext(upper)]) + ([data] + rest);
        done := done + [Ext(upper)];
        last := upper;
      }
      var line := PrintRecord(Data(Lower(addr), img[p..p + n]));
      lines := lines + [line];
      assert done + ([data] + rest) == (done + [data]) + rest;
      done := done + [data];
      addr := Advance(addr, n);
      p := p + n;
    }
    var end := PrintRecord(End);
    lines := lines + [end];
    assert img[p..] == [];
    RecsEnd(addr, last);
  }

  lemma RecsStep(img: seq<Byte>, p: nat, addr: nat, last: nat, n: nat)
    requires p < |img| && addr < U32 && n == Chunk(|img| - p)
    ensures var upper := Upper(addr);
            var rest := [Data(Lower(addr), img[p..p + n])] + Recs(img[p + n..], Advance(addr, n), upper);
            Recs(img[p..], addr, last) == if upper != last then [Ext(upper)] + rest else rest
  {
    hide Upper, Lower, Advance;
    assert img[p..][..n] == img[p..p + n] && img[p..][n..] == img[p + n..];
  }

  lemma RecsEnd(addr: nat, last: nat)
    requires addr < U32
    ensures Recs([], addr, last) == [End]
  {
  }

  /** `ihex_to_bin`. */
  method Read(lines: seq<string>) returns (r: Outcome)
    requires forall i | 0 <= i < |lines| :: Readable(lines[i])
    ensures r == IhexSpec.Read(Parsed(lines))
  {
    hide Parse, Readable, Fill;
    ghost var rs := Parsed(lines);
    var upper: nat, lo: nat, hi: nat := 0, NO_ADDR, 0;
    var i: nat := 0;
    assert rs[0..] == rs;
    while i < |lines|
      invariant i <= |lines| && Scan(START, rs) == Scan(Bounds(upper, lo, hi), rs[i..])
    {
      assert rs[i..][0] == Parse(lines[i]) && rs[i..][1..] == rs[i + 1..];
      match Parse(lines[i]) {
        case Ext(u) => upper := u * U16;
        case Data(addr, bytes) =>
          var a := upper + addr;
          if a < lo { lo := a; }
          if (a + |bytes|) % U32 > hi { hi := (a + |bytes|) % U32; }
        case _ =>
      }
      i := i + 1;
    }
    assert rs[i..] == [];
    if lo == NO_ADDR { return NoData; }
    var sz: nat := (hi - lo) % U32;
    var image := new Byte[if sz == 0 then 1 else sz](_ => 0);
    assert image[..] == Repeat<Byte>(Capacity(sz), 0);
    var ok := Second(lines, lo, image);
    if !ok { return Overrun; }
    return Loaded(lo, image[..sz]);
  }

  /** The second pass of `ihex_to_bin`. */
  method Second(lines: seq<string>, lo: nat, image: array<Byte>) returns (ok: bool)
    requires image.Length < U32 && forall i | 0 <= i < |lines| :: Readable(lines[i])
    modifies image
    ensures var r := Fill(old(image[..]), Parsed(lines), 0, lo);
            (ok <==> r.Some?) && (ok ==> image[..] == r.value)
  {
    hide Parse, Readable, Store;
    ghost var rs := Parsed(lines);
    ghost var start := image[..];
    var upper: nat := 0;
    var i: nat := 0;
    assert rs[0..] == rs;
    while i < |lines|
      invariant i <= |lines|
      invariant Fill(start, rs, 0, lo) == Fill(image[..], rs[i..], upper, lo)
    {
      assert rs[i..][0] == Parse(lines[i]) && rs[i..][1..] == rs[i + 1..];
      match Parse(lines[i]) {
        case Ext(u) => upper := u * U16;
        case Data(addr, bytes) =>
          var done := Copy(image, (upper + addr - lo) % U32, bytes);
          if !done { return false; }
        case _ =>
      }
      i := i + 1;
    }
    return true;
  }

  /** The bytes of one record, at 32-bit offsets; stops where the next byte would fall outside the image. */
  method Copy(image: array<Byte>, at: nat, bytes: seq<Byte>) returns (ok: bool)
    requires image.Length < U32 && at < U32
    modifies image
    ensures var r := Store(old(image[..]), at, bytes);
            (ok <==> r.Some?) && (ok ==> image[..] == r.value)
  {
    var i := 0;
    while i < |bytes|
      invariant 0 <= i <= |bytes| && (i > 0 ==> at + i <= image.Length)
      invariant forall k | 0 <= k < image.Length ::
                  image[k] == if at <= k < at + i then bytes[k - at] else old(image[k])
    {
      var k := (at + i) % U32;
      assert at + i <= image.Length || i == 0;
      if k >= image.Length { return false; }
      image[k] := bytes[i];
      i := i + 1;
    }
    return true;
  }

  /** Writing an image and reading it back, with the exact condition for success. */
  method WriteThenRead(img: seq<Byte>, base: nat) returns (r: Outcome)
    requires base < U32
    ensures r == Loaded(base, img) <==> img != [] && (base + |img| < U32 || (|img| <= 16 && base != NO_ADDR))
  {
    hide Recs, Printed, IhexSpec.Read;
    var lines := Write(img, base);
    TextRoundTrip(img, base);
    ReadBackExact(img, base);
    r := Read(lines);
  }
}
