/** Demosaicing of a Bayer image (rows G R G R ..., B G B G ...) with shift registers. */
module BayerDemosaic {
  import opened Arithmetic
  import opened Bytes

  datatype Rgb = Rgb(r: Byte, g: Byte, b: Byte)

  function Avg2(a: Byte, b: Byte): Byte { (a + b) / 2 }

  function Avg4(a: Byte, b: Byte, c: Byte, d: Byte): Byte { (a + b + c + d) / 4 }

  /** A raw image with mirrored borders: one row or column beyond an edge is the second one inside it. */
  datatype Image = Image(raw: seq<Byte>, w: nat, h: nat)
  {
    ghost predicate Ok() {
      w >= 2 && h >= 3 && |raw| == h * w
    }

    function Mirror(i: int, n: nat): int {
      if i < 0 then -i else if i >= n then 2 * n - 2 - i else i
    }

    /** The offset of a line. */
    function Line(y: int): int { y * w }

    function At(y: int, x: int): Byte
      requires Ok() && -1 <= y <= h && -1 <= x <= w
    {
      InBounds(this, Mirror(y, h), Mirror(x, w));
      raw[Line(Mirror(y, h)) + Mirror(x, w)]
    }

    /** The documented formulas for the four pixel configurations. */
    function Documented(y: int, x: int): Rgb
      requires Ok() && 0 <= y < h && 0 <= x < w
    {
      var left, right, up, down := At(y, x - 1), At(y, x + 1), At(y - 1, x), At(y + 1, x);
      var corners := Avg4(At(y - 1, x - 1), At(y - 1, x + 1), At(y + 1, x - 1), At(y + 1, x + 1));
      if y % 2 == 0 then
        if x % 2 == 0 then Rgb(Avg2(left, right), At(y, x), Avg2(up, down))
        else Rgb(At(y, x), Avg4(up, left, right, down), corners)
      else
        if x % 2 == 0 then Rgb(corners, Avg4(up, left, right, down), At(y, x))
        else Rgb(Avg2(up, down), At(y, x), Avg2(left, right))
    }

    /** The average of the pixels above and below. */
    function Vert(y: int, x: int): Byte
      requires Ok() && 0 <= y < h && -1 <= x <= w
    {
      Avg2(At(y - 1, x), At(y + 1, x))
    }

    /** What is computed: every average of four is an average of two averages of two. */
    function Pixel(y: int, x: int): Rgb
      requires Ok() && 0 <= y < h && 0 <= x < w
    {
      Combine(y % 2 == 1, x % 2 == 1, Avg2(At(y, x - 1), At(y, x + 1)), At(y, x),
              Vert(y, x), Avg2(Vert(y, x - 1), Vert(y, x + 1)))
    }

    function Row(y: int, count: nat): (bytes: seq<Byte>)
      requires Ok() && 0 <= y < h && count <= w
      ensures |bytes| == 3 * count
    {
      if count == 0 then []
      else var p := Pixel(y, count - 1); Row(y, count - 1) + [p.r, p.g, p.b]
    }

    function Rows(count: nat): (bytes: seq<Byte>)
      requires Ok() && count <= h
      ensures |bytes| == 3 * Line(count)
    {
      if count == 0 then []
      else
        MulStep(count, w);
        Rows(count - 1) + Row(count - 1, w)
    }
  }

  lemma InBounds(im: Image, y: int, x: int)
    requires 0 <= y < im.h && 0 <= x < im.w && |im.raw| == im.h * im.w
    ensures 0 <= im.Line(y) && im.Line(y) + x < |im.raw|
  {
    MulMonotone(y + 1, im.h, im.w);
    MulStep(y + 1, im.w);
  }

  function Combine(yOdd: bool, xOdd: bool, hSum: Byte, cur: Byte, vCur: Byte, vSum: Byte): Rgb {
    if !yOdd then
      if !xOdd then Rgb(hSum, cur, vCur) else Rgb(cur, Avg2(hSum, vCur), vSum)
    else
      if !xOdd then Rgb(vSum, Avg2(hSum, vCur), cur) else Rgb(vCur, cur, hSum)
  }

  predicate Near(a: Byte, b: Byte) {
    b <= a + 1 && a <= b
  }

  lemma NestedAverage(a: Byte, b: Byte, c: Byte, d: Byte)
    ensures Near(Avg2(Avg2(a, b), Avg2(c, d)), Avg4(a, b, c, d))
  {
  }

  lemma Avg4Symmetric(a: Byte, b: Byte, c: Byte, d: Byte)
    ensures Avg4(a, b, c, d) == Avg4(b, c, a, d) == Avg4(a, c, b, d)
  {
  }

  /** Nested truncation costs at most one: no channel differs from the documented one by more. */
  lemma PixelNearDocumented(im: Image, y: int, x: int)
    requires im.Ok() && 0 <= y < im.h && 0 <= x < im.w
    ensures var (p, q) := (im.Pixel(y, x), im.Documented(y, x));
            0 <= q.r - p.r <= 1 && 0 <= q.g - p.g <= 1 && 0 <= q.b - p.b <= 1
    ensures y % 2 == x % 2 ==> im.Pixel(y, x) == im.Documented(y, x)
  {
    var l, r, u, d := im.At(y, x - 1), im.At(y, x + 1), im.At(y - 1, x), im.At(y + 1, x);
    NestedAverage(l, r, u, d);
    Avg4Symmetric(u, l, r, d);
    var ul, ur, dl, dr := im.At(y - 1, x - 1), im.At(y - 1, x + 1), im.At(y + 1, x - 1), im.At(y + 1, x + 1);
    NestedAverage(ul, dl, ur, dr);
    Avg4Symmetric(ul, ur, dl, dr);
  }

  /** What the sensor has at a place of a scene of one colour: rows G R G R ..., B G B G ... */
  function Sensed(yOdd: bool, xOdd: bool, r: Byte, g: Byte, b: Byte): Byte {
    if !yOdd then if !xOdd then g else r
    else if !xOdd then b else g
  }

  ghost predicate Uniform(im: Image, r: Byte, g: Byte, b: Byte)
    requires im.Ok()
  {
    forall y, x :: 0 <= y < im.h && 0 <= x < im.w ==> im.At(y, x) == Sensed(y % 2 == 1, x % 2 == 1, r, g, b)
  }

  lemma MirrorParity(im: Image, i: int, n: nat)
    requires -1 <= i <= n && n >= 2
    ensures var j := im.Mirror(i, n); 0 <= j < n && j % 2 == i % 2 && im.Mirror(j, n) == j
  {
  }

  /** Mirroring keeps the colours of the pattern. */
  lemma MirroredColour(im: Image, y: int, x: int, yOdd: bool, xOdd: bool, r: Byte, g: Byte, b: Byte)
    requires im.Ok() && -1 <= y <= im.h && -1 <= x <= im.w
    ensures Uniform(im, r, g, b) && yOdd == (y % 2 == 1) && xOdd == (x % 2 == 1) ==>
              im.At(y, x) == Sensed(yOdd, xOdd, r, g, b)
  {
    MirrorParity(im, y, im.h);
    MirrorParity(im, x, im.w);
    var (y', x') := (im.Mirror(y, im.h), im.Mirror(x, im.w));
    assert im.At(y', x') == im.At(y, x);
    hide Image.At, Image.Mirror, Image.Line;
  }

  lemma UniformPixel(im: Image, y: int, x: int, r: Byte, g: Byte, b: Byte)
    requires im.Ok() && 0 <= y < im.h && 0 <= x < im.w
    ensures Uniform(im, r, g, b) ==> im.Pixel(y, x) == im.Documented(y, x) == Rgb(r, g, b)
  {
    hide Uniform, Image.At, Avg2, Avg4;
    var (p, q) := (y % 2 == 1, x % 2 == 1);
    MirroredColour(im, y, x, p, q, r, g, b);
    MirroredColour(im, y, x - 1, p, !q, r, g, b);
    MirroredColour(im, y, x + 1, p, !q, r, g, b);
    MirroredColour(im, y - 1, x, !p, q, r, g, b);
    MirroredColour(im, y + 1, x, !p, q, r, g, b);
    MirroredColour(im, y - 1, x - 1, !p, !q, r, g, b);
    MirroredColour(im, y - 1, x + 1, !p, !q, r, g, b);
    MirroredColour(im, y + 1, x - 1, !p, !q, r, g, b);
    MirroredColour(im, y + 1, x + 1, !p, !q, r, g, b);
    SameAverage(Sensed(p, !q, r, g, b));
    SameAverage(Sensed(!p, q, r, g, b));
    SameAverage(Sensed(!p, !q, r, g, b));
  }

  lemma SameAverage(a: Byte)
    ensures Avg2(a, a) == a == Avg4(a, a, a, a)
  {
  }

  lemma {:induction false} RowTriple(im: Image, y: int, count: nat, x: nat)
    requires im.Ok() && 0 <= y < im.h && x < count <= im.w
    ensures var (row, p) := (im.Row(y, count), im.Pixel(y, x));
            |row| == 3 * count && row[3 * x] == p.r && row[3 * x + 1] == p.g && row[3 * x + 2] == p.b
  {
    hide Image.Pixel;
    if x < count - 1 {
      RowTriple(im, y, count - 1, x);
    }
  }

  /** Main result: a scene of one colour comes out in that colour, at the borders too: each pixel as three bytes,
      red, green and blue. */
  lemma UniformColourIsKept(im: Image, y: int, x: nat, r: Byte, g: Byte, b: Byte)
    requires im.Ok() && Uniform(im, r, g, b) && 0 <= y < im.h && x < im.w
    ensures im.Pixel(y, x) == im.Documented(y, x) == Rgb(r, g, b)
    ensures var row := im.Row(y, im.w);
            |row| == 3 * im.w && row[3 * x] == r && row[3 * x + 1] == g && row[3 * x + 2] == b
  {
    UniformPixel(im, y, x, r, g, b);
    RowTriple(im, y, im.w, x);
  }

  // ---- the shift registers ----

  /** Three byte lanes: previous << 16 | current << 8 | next. What is above them is ignored. */
  predicate Lanes(reg: UInt32, prev: Byte, cur: Byte, next: Byte) {
    reg % 0x100_0000 == prev * 0x1_0000 + cur * 0x100 + next
  }

  function Lane0(reg: UInt32): Byte { reg % 0x100 }
  function Lane1(reg: UInt32): Byte { reg / 0x100 % 0x100 }
  function Lane2(reg: UInt32): Byte { reg / 0x1_0000 % 0x100 }

  function ShiftLeft8(reg: UInt32): UInt32 { reg * 0x100 % TWO_32 }

  /** reg | byte, for a register whose low byte is empty. */
  function OrLow(reg: UInt32, byte: Byte): UInt32
    requires reg % 0x100 == 0
  {
    reg + byte
  }

  lemma LanesAre(reg: UInt32, prev: Byte, cur: Byte, next: Byte)
    requires Lanes(reg, prev, cur, next)
    ensures Lane2(reg) == prev && Lane1(reg) == cur && Lane0(reg) == next
  {
    var q := reg / 0x100_0000;
    assert reg / 0x1_0000 == q * 0x100 + prev;
    assert reg / 0x100 == q * 0x1_0000 + prev * 0x100 + cur;
  }

  lemma LanesShift(reg: UInt32, prev: Byte, cur: Byte, next: Byte)
    requires Lanes(reg, prev, cur, next)
    ensures Lanes(ShiftLeft8(reg), cur, next, 0)
  {
    var (q, low) := (reg / 0x100_0000, prev * 0x1_0000 + cur * 0x100 + next);
    assert reg * 0x100 == q * TWO_32 + low * 0x100;
    DivModUnique(reg * 0x100, TWO_32, q, low * 0x100);
    assert low * 0x100 == prev * 0x100_0000 + (cur * 0x1_0000 + next * 0x100);
    DivModUnique(low * 0x100, 0x100_0000, prev, cur * 0x1_0000 + next * 0x100);
  }

  lemma LanesOr(reg: UInt32, prev: Byte, cur: Byte, byte: Byte)
    requires Lanes(reg, prev, cur, 0)
    ensures reg % 0x100 == 0 && Lanes(OrLow(reg, byte), prev, cur, byte)
  {
  }

  /** ((a + b) << 7) & 0xFF00, and ((a + b) << 15) & 0xFF0000: an average, put in place by the shift. */
  function AverageInLane1(a: Byte, b: Byte): UInt32 { (a + b) * 0x80 / 0x100 % 0x100 * 0x100 }
  function AverageInLane2(a: Byte, b: Byte): UInt32 { (a + b) * 0x8000 / 0x1_0000 % 0x100 * 0x1_0000 }

  lemma AverageLanes(a: Byte, b: Byte)
    ensures AverageInLane1(a, b) == Avg2(a, b) * 0x100 && AverageInLane2(a, b) == Avg2(a, b) * 0x1_0000
  {
  }

  // ---- the conversion itself ----

  /** What the three line pointers address while row y is converted. */
  ghost predicate RowPointers(im: Image, y: int, cur: int, prev: int, next: int) {
    && im.Ok() && 0 <= y < im.h
    && cur == im.Line(y) && prev == im.Line(im.Mirror(y - 1, im.h)) && next == im.Line(im.Mirror(y + 1, im.h))
  }

  /** The destination ends, at d, with the first x pixels of row y; before it is what was there. */
  ghost predicate Written(im: Image, y: int, x: nat, before: seq<Byte>, out: seq<Byte>)
    requires im.Ok() && 0 <= y < im.h && x <= im.w
  {
    out == before + im.Row(y, x)
  }

  /** Three bytes go to the destination pointer. */
  method Put(dst: array<Byte>, d: int, p: Rgb, ghost im: Image, ghost y: int, ghost x: nat, ghost before: seq<Byte>)
    requires im.Ok() && 0 <= y < im.h && x < im.w && p == im.Pixel(y, x)
    requires 0 <= d && d + 3 <= dst.Length && Written(im, y, x, before, dst[..d])
    modifies dst
    ensures Written(im, y, x + 1, before, dst[..d + 3])
    ensures forall i :: d + 3 <= i < dst.Length ==> dst[i] == old(dst[i])
  {
    dst[d], dst[d + 1], dst[d + 2] := p.r, p.g, p.b;
    assert dst[..d + 3] == old(dst[..d]) + [p.r, p.g, p.b];
    hide Image.Pixel, Image.Ok;
  }

  /** One pixel of the inner loop. */
  method InnerPixel(hVals: UInt32, vSums: UInt32, yOdd: bool, x: int) returns (p: Rgb)
    ensures p == Combine(yOdd, x % 2 == 1, Avg2(Lane2(hVals), Lane0(hVals)), Lane1(hVals),
                         Lane1(vSums), Avg2(Lane2(vSums), Lane0(vSums)))
  {
    hide Lane0, Lane1, Lane2;
    var hSum := (Lane2(hVals) + Lane0(hVals)) / 2;
    if !yOdd {
      if x % 2 == 0 {
        p := Rgb(hSum, Lane1(hVals), Lane1(vSums));
      } else {
        p := Rgb(Lane1(hVals), (hSum + Lane1(vSums)) / 2, (Lane2(vSums) + Lane0(vSums)) / 2);
      }
    } else {
      if x % 2 == 0 {
        p := Rgb((Lane2(vSums) + Lane0(vSums)) / 2, (hSum + Lane1(vSums)) / 2, Lane1(hVals));
      } else {
        p := Rgb(Lane1(vSums), Lane1(hVals), hSum);
      }
    }
  }

  /** The pixel of the right column, where the next column mirrors the previous one. */
  method LastPixel(hVals: UInt32, vSums: UInt32, yOdd: bool, x: int) returns (p: Rgb)
    requires Lane2(hVals) == Lane0(hVals) && Lane2(vSums) == Lane0(vSums)
    ensures p == Combine(yOdd, x % 2 == 1, Avg2(Lane2(hVals), Lane0(hVals)), Lane1(hVals),
                         Lane1(vSums), Avg2(Lane2(vSums), Lane0(vSums)))
  {
    hide Lane0, Lane1, Lane2;
    var hSum := Lane0(hVals);
    if !yOdd {
      if x % 2 == 0 {
        p := Rgb(hSum, Lane1(hVals), Lane1(vSums));
      } else {
        p := Rgb(Lane1(hVals), (hSum + Lane1(vSums)) / 2, Lane0(vSums));
      }
    } else {
      if x % 2 == 0 {
        p := Rgb(Lane0(vSums), (hSum + Lane1(vSums)) / 2, Lane1(hVals));
      } else {
        p := Rgb(Lane1(vSums), Lane1(hVals), hSum);
      }
    }
  }

  /** The registers hold columns x - 1 and x of the current line, and of the two lines around it averaged. */
  ghost predicate Loaded(im: Image, y: int, x: int, hVals: UInt32, vSums: UInt32)
    requires im.Ok() && 0 <= y < im.h && 0 <= x < im.w
  {
    Lanes(hVals, im.At(y, x - 1), im.At(y, x), 0) && Lanes(vSums, im.Vert(y, x - 1), im.Vert(y, x), 0)
  }

  lemma LoadNext(im: Image, y: int, x: int, hVals: UInt32, vSums: UInt32)
    requires im.Ok() && 0 <= y < im.h && 0 <= x < im.w && Loaded(im, y, x, hVals, vSums)
    ensures hVals % 0x100 == 0 && vSums % 0x100 == 0
    ensures var (h', v') := (OrLow(hVals, im.At(y, x + 1)), OrLow(vSums, im.Vert(y, x + 1)));
            && im.Pixel(y, x) == Combine(y % 2 == 1, x % 2 == 1, Avg2(Lane2(h'), Lane0(h')), Lane1(h'),
                                         Lane1(v'), Avg2(Lane2(v'), Lane0(v')))
            && (x + 1 < im.w ==> Loaded(im, y, x + 1, ShiftLeft8(h'), ShiftLeft8(v')))
            && Lane2(hVals) == im.At(y, x - 1) && Lane2(vSums) == im.Vert(y, x - 1)
            && Lane2(h') == im.At(y, x - 1) && Lane2(v') == im.Vert(y, x - 1)
            && Lane0(h') == im.At(y, x + 1) && Lane0(v') == im.Vert(y, x + 1)
  {
    var (p, c, n) := (im.At(y, x - 1), im.At(y, x), im.At(y, x + 1));
    var (p', c', n') := (im.Vert(y, x - 1), im.Vert(y, x), im.Vert(y, x + 1));
    LanesAre(hVals, p, c, 0);
    LanesAre(vSums, p', c', 0);
    LanesOr(hVals, p, c, n);
    LanesOr(vSums, p', c', n');
    LanesAre(OrLow(hVals, n), p, c, n);
    LanesAre(OrLow(vSums, n'), p', c', n');
    LanesShift(OrLow(hVals, n), p, c, n);
    LanesShift(OrLow(vSums, n'), p', c', n');
    hide Lanes, Lane0, Lane1, Lane2, OrLow, ShiftLeft8;
  }

  lemma PointersAt(im: Image, y: int, cur: int, prev: int, next: int, x: int)
    requires RowPointers(im, y, cur, prev, next) && 0 <= x < im.w
    ensures im.Ok() && 0 <= y < im.h
    ensures 0 <= cur && cur + x < |im.raw| && im.raw[cur + x] == im.At(y, x)
    ensures 0 <= prev && prev + x < |im.raw| && 0 <= next && next + x < |im.raw|
    ensures Avg2(im.raw[prev + x], im.raw[next + x]) == im.Vert(y, x)
  {
    InBounds(im, y, x);
    InBounds(im, im.Mirror(y - 1, im.h), x);
    InBounds(im, im.Mirror(y + 1, im.h), x);
    hide Image.Line;
  }

  /** Fill the registers for the left column, which mirrors column 1. */
  method StartRow(im: Image, y: int, cur: int, prev: int, next: int) returns (hVals: UInt32, vSums: UInt32)
    requires RowPointers(im, y, cur, prev, next)
    ensures Loaded(im, y, 0, hVals, vSums)
  {
    assert im.w >= 2;
    hide Lanes, AverageInLane1, AverageInLane2, RowPointers, Avg2, Image.At, Image.Vert, Image.Ok, Image.Mirror;
    var raw := im.raw;
    PointersAt(im, y, cur, prev, next, 0);
    PointersAt(im, y, cur, prev, next, 1);
    MirroredColumn(im, y);
    hVals := InitHorizontal(raw[cur], raw[cur + 1]);
    vSums := InitVertical(raw[prev], raw[next], raw[prev + 1], raw[next + 1]);
  }

  /** The first column's register contents: current << 8 | next << 16. */
  method InitHorizontal(first: Byte, second: Byte) returns (reg: UInt32)
    ensures Lanes(reg, second, first, 0)
  {
    reg := first * 0x100 + second * 0x1_0000;
  }

  method InitVertical(above0: Byte, below0: Byte, above1: Byte, below1: Byte) returns (reg: UInt32)
    ensures Lanes(reg, Avg2(above1, below1), Avg2(above0, below0), 0)
  {
    AverageLanes(above0, below0);
    AverageLanes(above1, below1);
    hide AverageInLane1, AverageInLane2, Avg2;
    reg := AverageInLane1(above0, below0) + AverageInLane2(above1, below1);
  }

  /** The body of the column loop: shift the next column in and emit the current one.
      The pointers into the three lines stand at that next column. */
  method NextPixel(im: Image, y: int, x: int, hVals: UInt32, vSums: UInt32, cur: int, prev: int, next: int,
                   ghost curLine: int, ghost prevLine: int, ghost nextLine: int)
    returns (p: Rgb, hVals': UInt32, vSums': UInt32)
    requires RowPointers(im, y, curLine, prevLine, nextLine)
    requires cur == curLine + (x + 1) && prev == prevLine + (x + 1) && next == nextLine + (x + 1)
    requires 0 <= x < im.w - 1 && Loaded(im, y, x, hVals, vSums)
    ensures p == im.Pixel(y, x) && Loaded(im, y, x + 1, hVals', vSums')
  {
    hide Lane0, Lane1, Lane2, OrLow, ShiftLeft8, Combine, Loaded, RowPointers, Lanes,
         Image.At, Image.Vert, Image.Pixel, Image.Ok, Image.Mirror;
    PointersAt(im, y, curLine, prevLine, nextLine, x + 1);
    LoadNext(im, y, x, hVals, vSums);
    assert im.raw[cur] == im.At(y, x + 1) && Avg2(im.raw[prev], im.raw[next]) == im.Vert(y, x + 1);
    hVals' := OrLow(hVals, im.raw[cur]);
    vSums' := OrLow(vSums, Avg2(im.raw[prev], im.raw[next]));
    p := InnerPixel(hVals', vSums', y % 2 == 1, x);
    hVals', vSums' := ShiftLeft8(hVals'), ShiftLeft8(vSums');
  }

  method RightColumn(im: Image, y: int, x: int, hVals: UInt32, vSums: UInt32) returns (p: Rgb)
    requires im.Ok() && 0 <= y < im.h && x == im.w - 1 && Loaded(im, y, x, hVals, vSums)
    ensures p == im.Pixel(y, x)
  {
    LoadNext(im, y, x, hVals, vSums);
    MirroredColumn(im, y);
    hide Lane0, Lane1, Lane2, OrLow, ShiftLeft8, Combine, Loaded, Image.At, Image.Vert, Image.Pixel, Image.Ok;
    var h, v := OrLow(hVals, Lane2(hVals)), OrLow(vSums, Lane2(vSums));
    p := LastPixel(h, v, y % 2 == 1, x);
  }

  /** One turn of the column loop, with the output of its pixel. */
  method OnePixel(im: Image, y: int, x: int, hVals: UInt32, vSums: UInt32, cur: int, prev: int, next: int,
                  ghost curLine: int, ghost prevLine: int, ghost nextLine: int, dst: array<Byte>, d: int,
                  ghost before: seq<Byte>)
    returns (hVals': UInt32, vSums': UInt32)
    requires im.Ok() && 0 <= y < im.h && 0 <= x < im.w - 1 && Loaded(im, y, x, hVals, vSums)
    requires RowPointers(im, y, curLine, prevLine, nextLine)
    requires cur == curLine + (x + 1) && prev == prevLine + (x + 1) && next == nextLine + (x + 1)
    requires 0 <= d && d + 3 <= dst.Length && Written(im, y, x, before, dst[..d])
    modifies dst
    ensures Loaded(im, y, x + 1, hVals', vSums') && Written(im, y, x + 1, before, dst[..d + 3])
    ensures forall i :: d + 3 <= i < dst.Length ==> dst[i] == old(dst[i])
  {
    hide Loaded, RowPointers, Image.At, Image.Vert, Image.Pixel, Image.Mirror, Image.Row, Image.Line, Written;
    var p;
    p, hVals', vSums' := NextPixel(im, y, x, hVals, vSums, cur, prev, next, curLine, prevLine, nextLine);
    Put(dst, d, p, im, y, x, before);
  }

  /** The body of the row loop. */
  method ConvertRow(im: Image, y: int, curLine: int, prevLine: int, nextLine: int, dst: array<Byte>, d0: int)
    requires RowPointers(im, y, curLine, prevLine, nextLine)
    requires 0 <= d0 && d0 + 3 * im.w <= dst.Length
    modifies dst
    ensures Written(im, y, im.w, old(dst[..d0]), dst[..d0 + 3 * im.w])
    ensures forall i :: d0 + 3 * im.w <= i < dst.Length ==> dst[i] == old(dst[i])
  {
    var w := im.w;
    assert w >= 2;
    hide Loaded, RowPointers, Image.At, Image.Vert, Image.Pixel, Image.Ok, Image.Mirror, Image.Row, Image.Line, Written;
    ghost var before := dst[..d0];
    EmptyRow(im, y, before);
    var hVals, vSums := StartRow(im, y, curLine, prevLine, nextLine);
    var cur, prev, next, d := curLine + 1, prevLine + 1, nextLine + 1, d0;
    var x := 0;
    while x < w - 1
      invariant 0 <= x < w && d == d0 + 3 * x
      invariant cur == curLine + (x + 1) && prev == prevLine + (x + 1) && next == nextLine + (x + 1)
      invariant Loaded(im, y, x, hVals, vSums)
      invariant Written(im, y, x, before, dst[..d])
      invariant forall i :: d0 + 3 * w <= i < dst.Length ==> dst[i] == old(dst[i])
    {
      hVals, vSums :=
        OnePixel(im, y, x, hVals, vSums, cur, prev, next, curLine, prevLine, nextLine, dst, d, before);
      cur, prev, next := cur + 1, prev + 1, next + 1;
      d := d + 3;
      x := x + 1;
    }
    var p := RightColumn(im, y, x, hVals, vSums);
    Put(dst, d, p, im, y, x, before);
  }

  lemma EmptyRow(im: Image, y: int, before: seq<Byte>)
    requires im.Ok() && 0 <= y < im.h
    ensures Written(im, y, 0, before, before)
  {
  }

  /** The column to the right of the last one mirrors the last but one. */
  lemma MirroredColumn(im: Image, y: int)
    requires im.Ok() && 0 <= y < im.h
    ensures im.At(y, im.w) == im.At(y, im.w - 2) && im.Vert(y, im.w) == im.Vert(y, im.w - 2)
    ensures im.At(y, -1) == im.At(y, 1) && im.Vert(y, -1) == im.Vert(y, 1)
  {
  }

  lemma LineStep(im: Image, y: int)
    requires im.Ok() && 0 <= y < im.h
    ensures im.Line(0) == 0 <= im.Line(y) && im.Line(y + 1) == im.Line(y) + im.w <= im.Line(im.h) == |im.raw|
    ensures im.Line(y - 1) == im.Line(y) - im.w
  {
    MulStep(y + 1, im.w);
    MulMonotone(y + 1, im.h, im.w);
    MulDistributes(y, 1, im.w);
  }

  /** Where the line pointers stand when row y begins, as the previous rows left them. */
  predicate Arrived(im: Image, y: int, cur: int, prev: int, next: int) {
    && cur == im.Line(y)
    && (y < im.h - 1 ==> next == cur + im.w)
    && (y == im.h - 1 ==> prev == cur - im.w)
  }

  datatype Pointers = Pointers(cur: int, prev: int, next: int)

  /** How row y sets the pointers to its neighbours, on top of how the rows before it left them. */
  function Enter(w: nat, h: nat, y: int, p: Pointers): Pointers {
    if y > 0 && y < h - 1 then p.(prev := p.cur - w)
    else if y == 0 then p.(prev := p.next)
    else p.(next := p.prev)
  }

  /** Every row moves all three pointers one line on. */
  function Leave(w: nat, h: nat, y: int, p: Pointers): Pointers {
    var q := Enter(w, h, y, p);
    Pointers(q.cur + w, q.prev + w, q.next + w)
  }

  function PointersBefore(w: nat, h: nat, y: nat): Pointers {
    if y == 0 then Pointers(0, 0, w) else Leave(w, h, y - 1, PointersBefore(w, h, y - 1))
  }

  lemma {:induction false} CurrentLine(w: nat, h: nat, y: nat)
    ensures PointersBefore(w, h, y).cur == y * w
  {
    if y > 0 {
      CurrentLine(w, h, y - 1);
      MulStep(y, w);
    }
  }

  /** The mirrored bottom border holds exactly from three lines on. With two, the line above is the top
      line, whose own mirroring has moved the pointer, and the bottom line reads behind the image. */
  lemma BottomIsMirroredIff(w: nat, h: nat)
    requires w >= 2 && h >= 2
    ensures Enter(w, h, h - 1, PointersBefore(w, h, h - 1)).next == (h - 2) * w <==> h >= 3
    ensures h == 2 ==> Enter(w, h, h - 1, PointersBefore(w, h, h - 1)).next == h * w
  {
    if h == 2 {
      assert PointersBefore(w, h, 0) == Pointers(0, 0, w);
      assert PointersBefore(w, h, 1) == Pointers(w, 2 * w, 2 * w);
    } else {
      CurrentLine(w, h, h - 2);
      assert PointersBefore(w, h, h - 1) == Leave(w, h, h - 2, PointersBefore(w, h, h - 2));
    }
  }

  /** One turn of the row loop. The bottom line takes its next line from the previous one, which only
      works if the line above it was no boundary line itself: there must be at least three lines. */
  method ConvertLine(im: Image, y: int, cur: int, prev0: int, next0: int, dst: array<Byte>, d: int)
    returns (cur': int, prev': int, next': int)
    requires im.Ok() && 0 <= y < im.h && Arrived(im, y, cur, prev0, next0)
    requires 0 <= d && d + 3 * im.w <= dst.Length
    modifies dst
    ensures Arrived(im, y + 1, cur', prev', next')
    ensures Pointers(cur', prev', next') == Leave(im.w, im.h, y, Pointers(cur, prev0, next0))
    ensures dst[..d + 3 * im.w] == old(dst[..d]) + im.Row(y, im.w)
    ensures forall i :: d + 3 * im.w <= i < dst.Length ==> dst[i] == old(dst[i])
  {
    var prev, next := prev0, next0;
    if y > 0 && y < im.h - 1 {
      prev := cur - im.w;
    } else if y == 0 {
      prev := next;
    } else {
      next := prev;
    }
    LineStep(im, y);
    hide Image.Line, Image.Row;
    ConvertRow(im, y, cur, prev, next, dst, d);
    cur', prev', next' := cur + im.w, prev + im.w, next + im.w;
  }

  /** convert_bayer_to_rgb, for any width and any height of at least three lines. */
  method ConvertBayerToRgb(im: Image, dst: array<Byte>)
    requires im.Ok() && dst.Length >= 3 * im.Line(im.h)
    modifies dst
    ensures dst[..3 * im.Line(im.h)] == im.Rows(im.h)
    ensures forall i :: 3 * im.Line(im.h) <= i < dst.Length ==> dst[i] == old(dst[i])
  {
    hide Image.Row, Image.Rows, Image.Line, Image.Mirror;
    RowsAre(im, 0);
    LineStep(im, 0);
    var curLine, prevLine, nextLine, d := 0, 0, im.w, 0;
    var y := 0;
    while y < im.h
      invariant 0 <= y <= im.h && d == 3 * im.Line(y) && 0 <= d <= 3 * im.Line(im.h)
      invariant Arrived(im, y, curLine, prevLine, nextLine)
      invariant dst[..d] == im.Rows(y)
      invariant forall i :: 3 * im.Line(im.h) <= i < dst.Length ==> dst[i] == old(dst[i])
    {
      LineStep(im, y);
      RowsAre(im, y);
      curLine, prevLine, nextLine := ConvertLine(im, y, curLine, prevLine, nextLine, dst, d);
      d := d + 3 * im.w;
      y := y + 1;
    }
  }

  lemma RowsAre(im: Image, y: nat)
    requires im.Ok() && y < im.h
    ensures im.Rows(0) == [] && im.Rows(y + 1) == im.Rows(y) + im.Row(y, im.w)
  {
  }
}
