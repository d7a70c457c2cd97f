/** The conversion of screenshots to RGB rows in bmp.cc. */
module Bitmap {
  import opened Bytes
  import opened DataBuffer

  /** Byte offset of row j, column i, in rows of width pixels of size bytes. */
  function Off(size: nat, width: nat, j: nat, i: nat): nat
  {
    size * (width * j + i)
  }

  lemma OffSteps(size: nat, width: nat, j: nat, i: nat)
    ensures Off(size, width, j, i + 1) == Off(size, width, j, i) + size
    ensures Off(size, width, j, width) == Off(size, width, j + 1, 0)
    ensures Off(size, width, 0, 0) == 0
  {
    assert width * (j + 1) + 0 == width * j + width;
    assert size * (width * j + i + 1) == size * (width * j + i) + size;
  }

  lemma OffOrder(size: nat, width: nat, j: nat, k: nat)
    requires j <= k
    ensures Off(size, width, j, 0) <= Off(size, width, k, 0)
  {
    assert width * j <= width * k;
    MulOrder(size, width * j, width * k);
  }

  lemma MulOrder(a: nat, x: nat, y: nat)
    requires x <= y
    ensures a * x <= a * y
  {
  }

  lemma OffFits(size: nat, width: nat, height: nat, j: nat, i: nat)
    requires j < height && i < width
    ensures Off(size, width, j, i) + size <= Off(size, width, j + 1, 0) <= Off(size, width, height, 0)
  {
    OffOrder(size, width, j + 1, height);
    assert width * (j + 1) == width * j + width;
    MulOrder(size, width * j + i + 1, width * (j + 1));
    OffSteps(size, width, j, i);
  }

  /** width and height as the device reports them, its bytes per pixel, and how the caller wants the result. */
  datatype Job = Job(
    width: Word16, height: Word16, dataSize: nat, wide: bool, invert: bool, overwrite: bool, alpha: Byte)
  {
    predicate Fits(s: seq<Byte>)
    {
      (dataSize == 2 || dataSize == 4) && |s| == Off(dataSize, width, height, 0)
    }

    function PixelSize(): (n: nat)
      ensures n == 3 || n == 4
    {
      if wide then 4 else 3
    }
  }

  /** Blue, green, red, and alpha when there is room for it. */
  function Convert(job: Job, p: seq<Byte>): (r: seq<Byte>)
    requires |p| == 2 || |p| == 4
    ensures |r| == job.PixelSize()
  {
    if |p| == 2 then
      var value := Val16(p, 0);
      [value % 32 * 255 / 31, value / 32 % 64 * 255 / 63, value / 2048 % 32 * 255 / 31]
      + if job.wide then [if job.overwrite then job.alpha else 0xFF] else []
    else
      [p[0], p[1], p[2]] + if job.wide then [if job.overwrite then job.alpha else p[3]] else []
  }

  /** n out of most as a byte out of 255, rounded down. */
  predicate Scaled(b: Byte, n: nat, most: nat)
  {
    most * b <= 255 * n < most * (b + 1)
  }

  lemma ScalesDown(n: nat, most: nat)
    requires most == 31 || most == 63
    requires n <= most
    ensures n * 255 / most <= 255 && Scaled(n * 255 / most, n, most)
  {
  }

  lemma ScaledEnds(b: Byte, n: nat, most: nat)
    requires (most == 31 || most == 63) && Scaled(b, n, most)
    ensures n == 0 ==> b == 0
    ensures n == most ==> b == 255
  {
  }

  /** Of a 16-bit pixel the upper five bits are red, the next six green and the lower five blue, written in the order
      blue, green, red; nothing stays nothing, and full intensity becomes 255. */
  lemma ConvertByBits(job: Job, p: seq<Byte>)
    requires |p| == 2
    ensures
      var r, v := Convert(job, p), Val16(p, 0);
      && Scaled(r[2], v / 2048, 31) && Scaled(r[1], v / 32 % 64, 63) && Scaled(r[0], v % 32, 31)
      && (v / 2048 == 0 ==> r[2] == 0) && (v / 2048 == 31 ==> r[2] == 255)
      && (v / 32 % 64 == 0 ==> r[1] == 0) && (v / 32 % 64 == 63 ==> r[1] == 255)
      && (v % 32 == 0 ==> r[0] == 0) && (v % 32 == 31 ==> r[0] == 255)
      && (job.wide ==> r[3] == if job.overwrite then job.alpha else 0xFF)
  {
    var v, r := Val16(p, 0), Convert(job, p);
    assert v / 2048 % 32 == v / 2048;
    ScalesDown(v / 2048, 31);
    ScalesDown(v / 32 % 64, 63);
    ScalesDown(v % 32, 31);
    ScaledEnds(r[2], v / 2048, 31);
    ScaledEnds(r[1], v / 32 % 64, 63);
    ScaledEnds(r[0], v % 32, 31);
    hide Val16, Scaled;
  }

  /** A pixel of four bytes keeps its three colours, and its fourth byte unless the caller overwrites it. */
  lemma ConvertFourBytes(job: Job, p: seq<Byte>)
    requires |p| == 4
    ensures
      var r := Convert(job, p);
      r[..3] == p[..3] && (job.wide ==> r[3] == if job.overwrite then job.alpha else p[3])
  {
  }

  function SourceRow(job: Job, j: nat): (k: nat)
    requires j < job.height
    ensures k < job.height
  {
    if job.invert then job.height - 1 - j else j
  }

  /** The bytes of the pixel in row j, column i. */
  function Slot(s: seq<Byte>, size: nat, width: nat, height: nat, j: nat, i: nat): (r: seq<Byte>)
    requires |s| == Off(size, width, height, 0) && j < height && i < width
    ensures |r| == size
  {
    OffFits(size, width, height, j, i);
    s[Off(size, width, j, i)..Off(size, width, j, i) + size]
  }

  /** What is written for row j, column i of the output. */
  function Pixel(job: Job, s: seq<Byte>, j: nat, i: nat): (r: seq<Byte>)
    requires job.Fits(s) && j < job.height && i < job.width
    ensures |r| == job.PixelSize()
  {
    Convert(job, Slot(s, job.dataSize, job.width, job.height, SourceRow(job, j), i))
  }

  function RowFrom(job: Job, s: seq<Byte>, j: nat, i: nat): seq<Byte>
    requires job.Fits(s) && j < job.height && i <= job.width
    decreases job.width - i
  {
    if i == job.width then [] else Pixel(job, s, j, i) + RowFrom(job, s, j, i + 1)
  }

  function RowsFrom(job: Job, s: seq<Byte>, j: nat): seq<Byte>
    requires job.Fits(s) && j <= job.height
    decreases job.height - j
  {
    if j == job.height then [] else RowFrom(job, s, j, 0) + RowsFrom(job, s, j + 1)
  }

  function Converted(job: Job, s: seq<Byte>): seq<Byte>
    requires job.Fits(s)
  {
    RowsFrom(job, s, 0)
  }

  // ---- Where the pixels go ----

  function OutOff(job: Job, j: nat, i: nat): nat
  {
    Off(job.PixelSize(), job.width, j, i)
  }

  lemma {:induction false} RowLength(job: Job, s: seq<Byte>, j: nat, i: nat)
    requires job.Fits(s) && j < job.height && i <= job.width
    ensures OutOff(job, j, i) + |RowFrom(job, s, j, i)| == OutOff(job, j + 1, 0)
    decreases job.width - i
  {
    hide Pixel, Off, Job.Fits;
    OffSteps(job.PixelSize(), job.width, j, i);
    if i < job.width {
      RowLength(job, s, j, i + 1);
    }
  }

  lemma {:induction false} RowsLength(job: Job, s: seq<Byte>, j: nat)
    requires job.Fits(s) && j <= job.height
    ensures OutOff(job, j, 0) + |RowsFrom(job, s, j)| == OutOff(job, job.height, 0)
    decreases job.height - j
  {
    hide RowFrom, Off, Job.Fits;
    if j < job.height {
      RowLength(job, s, j, 0);
      RowsLength(job, s, j + 1);
    }
  }

  /** t holds the bytes b from position at on. */
  predicate Holds(t: seq<Byte>, at: int, b: seq<Byte>)
  {
    0 <= at && at + |b| <= |t| && t[at..at + |b|] == b
  }

  lemma HoldsLater(front: seq<Byte>, t: seq<Byte>, at: int, b: seq<Byte>)
    requires Holds(t, at, b)
    ensures Holds(front + t, |front| + at, b)
  {
    var all := front + t;
    assert all[|front| + at..|front| + at + |b|] == t[at..at + |b|];
  }

  lemma HoldsFirst(b: seq<Byte>, t: seq<Byte>)
    ensures Holds(b + t, 0, b)
  {
  }

  lemma HoldsMore(t: seq<Byte>, at: int, b: seq<Byte>, after: seq<Byte>)
    requires Holds(t, at, b)
    ensures Holds(t + after, at, b)
  {
    assert (t + after)[at..at + |b|] == t[at..at + |b|];
  }

  lemma {:induction false} PixelInRow(job: Job, s: seq<Byte>, j: nat, from: nat, i: nat)
    requires job.Fits(s) && j < job.height && from <= i < job.width
    ensures Holds(RowFrom(job, s, j, from), OutOff(job, j, i) - OutOff(job, j, from), Pixel(job, s, j, i))
    decreases i - from
  {
    hide Pixel, Off, Holds, Job.Fits;
    OffSteps(job.PixelSize(), job.width, j, from);
    var rest := RowFrom(job, s, j, from + 1);
    if from < i {
      PixelInRow(job, s, j, from + 1, i);
      HoldsLater(Pixel(job, s, j, from), rest, OutOff(job, j, i) - OutOff(job, j, from + 1), Pixel(job, s, j, i));
    } else {
      HoldsFirst(Pixel(job, s, j, i), rest);
    }
  }

  lemma {:induction false} PixelInRows(job: Job, s: seq<Byte>, from: nat, j: nat, i: nat)
    requires job.Fits(s) && from <= j < job.height && i < job.width
    ensures Holds(RowsFrom(job, s, from), OutOff(job, j, i) - OutOff(job, from, 0), Pixel(job, s, j, i))
    decreases j - from
  {
    hide Pixel, RowFrom, Off, Holds, Job.Fits;
    var row, rest := RowFrom(job, s, from, 0), RowsFrom(job, s, from + 1);
    if from < j {
      RowLength(job, s, from, 0);
      PixelInRows(job, s, from + 1, j, i);
      HoldsLater(row, rest, OutOff(job, j, i) - OutOff(job, from + 1, 0), Pixel(job, s, j, i));
    } else {
      PixelInRow(job, s, j, 0, i);
      HoldsMore(row, OutOff(job, j, i) - OutOff(job, j, 0), Pixel(job, s, j, i), rest);
    }
  }

  /** Output row j, column i is the converted source pixel of the same column, in the mirrored row when the
      image is inverted, and nothing else is written. */
  lemma ConversionPlacesPixels(job: Job, s: seq<Byte>, j: nat, i: nat)
    requires job.Fits(s) && j < job.height && i < job.width
    ensures |Converted(job, s)| == Off(job.PixelSize(), job.width, job.height, 0)
    ensures Slot(Converted(job, s), job.PixelSize(), job.width, job.height, j, i)
      == Convert(job, Slot(s, job.dataSize, job.width, job.height, if job.invert then job.height - 1 - j else j, i))
  {
    hide Off, Convert, RowsFrom;
    RowsLength(job, s, 0);
    OffSteps(job.PixelSize(), job.width, 0, 0);
    PixelInRows(job, s, 0, j, i);
  }

  /** Two output rows never share a source row, and every source row is used. */
  lemma EverySourceRowOnce(job: Job, j: nat, k: nat)
    requires j < job.height && k < job.height
    ensures SourceRow(job, j) == k <==> SourceRow(job, k) == j
  {
  }

  /** The conversion that only mirrors the rows. */
  predicate OnlyMirrors(job: Job)
  {
    job.dataSize == 4 && job.wide && job.invert && !job.overwrite
  }

  lemma ConvertKeeps(job: Job, p: seq<Byte>)
    requires OnlyMirrors(job) && |p| == 4
    ensures Convert(job, p) == p
  {
  }

  lemma PixelOfTwice(job: Job, s: seq<Byte>, j: nat, i: nat)
    requires OnlyMirrors(job) && job.Fits(s) && job.Fits(Converted(job, s)) && j < job.height && i < job.width
    ensures Pixel(job, Converted(job, s), j, i) == Slot(s, 4, job.width, job.height, j, i)
  {
    hide Off, Converted, Slot, Convert;
    var t, mirrored := Converted(job, s), job.height - 1 - j;
    ConversionPlacesPixels(job, s, mirrored, i);
    ConvertKeeps(job, Slot(s, 4, job.width, job.height, j, i));
    ConvertKeeps(job, Slot(t, 4, job.width, job.height, mirrored, i));
  }

  lemma {:induction false} RowOfTwice(job: Job, s: seq<Byte>, j: nat, i: nat)
    requires OnlyMirrors(job) && job.Fits(s) && job.Fits(Converted(job, s)) && j < job.height && i <= job.width
    ensures OutOff(job, j, i) <= OutOff(job, j + 1, 0) <= |s|
    ensures RowFrom(job, Converted(job, s), j, i) == s[OutOff(job, j, i)..OutOff(job, j + 1, 0)]
    decreases job.width - i
  {
    hide Off, Converted, Pixel;
    OffOrder(4, job.width, j + 1, job.height);
    OffSteps(4, job.width, j, i);
    if i < job.width {
      OffFits(4, job.width, job.height, j, i);
      RowOfTwice(job, s, j, i + 1);
      PixelOfTwice(job, s, j, i);
    }
  }

  lemma {:induction false} RowsOfTwice(job: Job, s: seq<Byte>, j: nat)
    requires OnlyMirrors(job) && job.Fits(s) && job.Fits(Converted(job, s)) && j <= job.height
    ensures OutOff(job, j, 0) <= |s| && RowsFrom(job, Converted(job, s), j) == s[OutOff(job, j, 0)..]
    decreases job.height - j
  {
    hide Off, Converted, RowFrom;
    OffOrder(4, job.width, j, job.height);
    if j < job.height {
      OffOrder(4, job.width, j, j + 1);
      RowsOfTwice(job, s, j + 1);
      RowOfTwice(job, s, j, 0);
    }
  }

  /** Mirroring twice gives the screenshot back. */
  lemma MirroringTwice(job: Job, s: seq<Byte>)
    requires OnlyMirrors(job) && job.Fits(s)
    ensures job.Fits(Converted(job, s)) && Converted(job, Converted(job, s)) == s
  {
    hide Off, RowsFrom;
    OffSteps(4, job.width, 0, 0);
    RowsLength(job, s, 0);
    RowsOfTwice(job, s, 0);
  }

  // ---- The method ----

  datatype Status = Done | BadDepth | TooSmall | Unsupported

  /** The loop that looks for the bytes per pixel; without pixels it would not end on any data. */
  method FindDataSize(size: nat, pixelCount: nat) returns (dataSize: nat)
    requires pixelCount > 0 || size == 0
    ensures dataSize >= 2 && size <= dataSize * pixelCount
    ensures dataSize > 2 ==> (dataSize - 1) * pixelCount < size
  {
    dataSize := 2;
    while size > dataSize * pixelCount
      invariant dataSize >= 2 && (dataSize > 2 ==> (dataSize - 1) * pixelCount < size)
      decreases size - dataSize * pixelCount
    {
      assert (dataSize + 1) * pixelCount == dataSize * pixelCount + pixelCount;
      dataSize := dataSize + 1;
    }
  }

  /** Exactly the two supported sizes pass both checks. */
  lemma Accepts(size: nat, pixelCount: nat, dataSize: nat)
    requires pixelCount > 0 && dataSize >= 2 && size <= dataSize * pixelCount
    requires dataSize > 2 ==> (dataSize - 1) * pixelCount < size
    ensures size == 2 * pixelCount ==> dataSize == 2
    ensures size == 4 * pixelCount ==> dataSize == 4
  {
    if dataSize > 2 {
      MulOrder(pixelCount, 2, dataSize - 1);
    }
    if dataSize < 4 {
      MulOrder(pixelCount, dataSize, 3);
    }
    if dataSize > 4 {
      MulOrder(pixelCount, 4, dataSize - 1);
    }
  }

  function Times(d: nat, pixelCount: nat): nat
  {
    d * pixelCount
  }

  /** A whole number of bytes per pixel, two at least. */
  ghost predicate EvenlySized(size: nat, pixelCount: nat)
  {
    exists d: nat :: d >= 2 && size == Times(d, pixelCount)
  }

  lemma SizesBetween(size: nat, pixelCount: nat, dataSize: nat)
    requires dataSize >= 2 && size < dataSize * pixelCount
    requires dataSize > 2 ==> (dataSize - 1) * pixelCount < size
    ensures !EvenlySized(size, pixelCount)
  {
    forall d: nat | d >= 2
      ensures size != Times(d, pixelCount)
    {
      if d < dataSize {
        MulOrder(pixelCount, d, dataSize - 1);
      } else {
        MulOrder(pixelCount, dataSize, d);
      }
    }
  }

  /** The bytes of one output pixel, written one by one. */
  method WritePixel(buf: array<Byte>, write: nat, job: Job, p: seq<Byte>)
    requires (|p| == 2 || |p| == 4) && write + job.PixelSize() <= buf.Length
    modifies buf
    ensures buf[write..write + job.PixelSize()] == Convert(job, p)
    ensures forall k :: 0 <= k < write ==> buf[k] == old(buf[k])
  {
    if |p| == 2 {
      var value := Val16(p, 0);
      if job.wide {
        buf[write + 3] := if job.overwrite then job.alpha else 0xFF;
      }
      buf[write + 2] := value / 2048 % 32 * 255 / 31;
      buf[write + 1] := value / 32 % 64 * 255 / 63;
      buf[write] := value % 32 * 255 / 31;
    } else {
      if job.wide {
        buf[write + 3] := if job.overwrite then job.alpha else p[3];
      }
      buf[write + 2] := p[2];
      buf[write + 1] := p[1];
      buf[write] := p[0];
    }
  }

  lemma Distribute(a: nat, x: nat, y: nat)
    ensures a * (x + y) == a * x + a * y
  {
  }

  /** Counting back from the last pixel is counting in the mirrored row. */
  lemma MirroredIndex(width: nat, height: nat, j: nat, i: nat)
    requires j < height
    ensures Times(width, height) - 1 - (width - 1 - i + Times(width, j)) == Times(width, height - 1 - j) + i
  {
    Distribute(width, height - 1 - j, j + 1);
    Distribute(width, j, 1);
  }

  /** The position read for row j, column i; inverted images are read from their last row on. */
  method SourceIndex(job: Job, j: nat, i: nat) returns (k: nat)
    requires j < job.height && i < job.width
    ensures k == Times(job.width, SourceRow(job, j)) + i
  {
    hide Times;
    var width, pixelCount := job.width, Times(job.width, job.height);
    MirroredIndex(width, job.height, j, i);
    k := if job.invert then pixelCount - 1 - (width - 1 - i + Times(width, j)) else Times(width, j) + i;
  }

  lemma SlotAt(job: Job, s: seq<Byte>, j: nat, i: nat, k: nat)
    requires job.Fits(s) && j < job.height && i < job.width && k == Times(job.width, SourceRow(job, j)) + i
    ensures job.dataSize * k + job.dataSize <= |s|
    ensures s[job.dataSize * k..job.dataSize * k + job.dataSize]
      == Slot(s, job.dataSize, job.width, job.height, SourceRow(job, j), i)
  {
    OffFits(job.dataSize, job.width, job.height, SourceRow(job, j), i);
  }

  /** The inner loop: one row, behind what is already written. */
  method WriteRow(buf: array<Byte>, ghost from: nat, at: nat, job: Job, s: seq<Byte>, j: nat, ghost later: seq<Byte>)
    returns (write: nat)
    requires job.Fits(s) && j < job.height && from <= at <= buf.Length
    requires at + |RowFrom(job, s, j, 0)| <= buf.Length
    modifies buf
    ensures write == at + |RowFrom(job, s, j, 0)|
    ensures buf[from..write] + later == old(buf[from..at]) + (RowFrom(job, s, j, 0) + later)
  {
    hide Job.Fits, Pixel, Slot, Convert, Off, Times, SourceRow;
    write := at;
    ghost var all := buf[from..at] + RowFrom(job, s, j, 0);
    for i := 0 to job.width
      invariant from <= write && write + |RowFrom(job, s, j, i)| == at + |RowFrom(job, s, j, 0)|
      invariant buf[from..write] + RowFrom(job, s, j, i) == all
    {
      var k := SourceIndex(job, j, i);
      SlotAt(job, s, j, i, k);
      ghost var before := buf[from..write];
      PixelIs(job, s, j, i);
      WritePixel(buf, write, job, s[job.dataSize * k..job.dataSize * k + job.dataSize]);
      ghost var next := write + job.PixelSize();
      assert buf[from..write] == before;
      assert buf[from..next] == before + buf[write..next];
      write := write + job.PixelSize();
    }
    assert all + later == old(buf[from..at]) + (RowFrom(job, s, j, 0) + later);
  }

  lemma PixelIs(job: Job, s: seq<Byte>, j: nat, i: nat)
    requires job.Fits(s) && j < job.height && i < job.width
    ensures job.dataSize == 2 || job.dataSize == 4
    ensures Pixel(job, s, j, i) == Convert(job, Slot(s, job.dataSize, job.width, job.height, SourceRow(job, j), i))
  {
  }

  method WriteRows(buf: array<Byte>, from: nat, job: Job, s: seq<Byte>)
    requires job.Fits(s) && from + |Converted(job, s)| <= buf.Length
    modifies buf
    ensures buf[from..from + |Converted(job, s)|] == Converted(job, s)
  {
    hide Job.Fits, RowFrom;
    var write := from;
    ghost var all := Converted(job, s);
    for j := 0 to job.height
      invariant from <= write && write + |RowsFrom(job, s, j)| == from + |all|
      invariant buf[from..write] + RowsFrom(job, s, j) == all
    {
      write := WriteRow(buf, from, write, job, s, j, RowsFrom(job, s, j + 1));
    }
  }

  /** The checks on the size, in the order of the original. */
  method CheckDataSize(size: nat, pixelCount: nat) returns (r: Status, dataSize: nat)
    requires pixelCount > 0 || size == 0
    ensures r == Done <==> size == Times(2, pixelCount) || size == Times(4, pixelCount)
    ensures r == Done ==> (dataSize == 2 || dataSize == 4) && size == Times(dataSize, pixelCount)
    ensures r == TooSmall <==> !EvenlySized(size, pixelCount)
    ensures r != BadDepth
  {
    hide EvenlySized;
    dataSize := FindDataSize(size, pixelCount);
    if pixelCount > 0 {
      Accepts(size, pixelCount, dataSize);
    }
    if size < pixelCount * dataSize {
      SizesBetween(size, pixelCount, dataSize);
      return TooSmall, dataSize;
    }
    EvenlySizedBy(size, pixelCount, dataSize);
    return if dataSize != 2 && dataSize != 4 then Unsupported else Done, dataSize;
  }

  /** Makes room and writes the rows behind the offset. */
  method WriteImage(job: Job, screenshot: Data, buffer: Data, offset: nat, pixelCount: nat)
    requires screenshot != buffer && screenshot.Valid() && buffer.Valid() && Apart(buffer, screenshot)
    requires job.Fits(screenshot.Contents()) && pixelCount == job.width * job.height
    modifies buffer, buffer.m_data
    ensures screenshot.Valid() && buffer.Valid() && screenshot.Contents() == old(screenshot.Contents())
    ensures offset <= |buffer.Contents()|
    ensures buffer.Contents()[offset..] == Converted(job, screenshot.Contents())
  {
    hide Job.Fits, Converted;
    var s, total := screenshot.Contents(), pixelCount * job.PixelSize() + offset;
    TotalSize(job, s);
    buffer.GetBuffer(total);
    WriteRows(buffer.m_data, offset, job, s);
    buffer.ReleaseBuffer(total);
  }

  lemma FitsBySize(job: Job, s: seq<Byte>)
    requires (job.dataSize == 2 || job.dataSize == 4) && |s| == Times(job.dataSize, job.width * job.height)
    ensures job.Fits(s)
  {
    assert Off(job.dataSize, job.width, job.height, 0) == Times(job.dataSize, job.width * job.height);
  }

  /** Succeeds exactly on 2 or 4 bytes per pixel, at depth 24 or 32. */
  method ScreenshotToRGB(width: Word16, height: Word16, screenshot: Data, buffer: Data, offset: nat, depth: int,
                         invert: bool, overwriteAlpha: bool, alpha: Byte)
    returns (r: Status, job: Job)
    requires screenshot != buffer && screenshot.Valid() && buffer.Valid() && Apart(buffer, screenshot)
    requires width * height <= INT_MAX && (width * height > 0 || screenshot.m_datasize == 0)
    modifies buffer, buffer.m_data
    ensures screenshot.Valid() && buffer.Valid() && screenshot.Contents() == old(screenshot.Contents())
    ensures r == BadDepth <==> depth != 24 && depth != 32
    ensures
      var size, pixelCount := |screenshot.Contents()|, width * height;
      && (r == Done <==> (depth == 24 || depth == 32) && (size == Times(2, pixelCount) || size == Times(4, pixelCount)))
      && (r == TooSmall <==> (depth == 24 || depth == 32) && !EvenlySized(size, pixelCount))
    ensures r != Done ==> buffer.Contents() == old(buffer.Contents())
    ensures r == Done ==>
      && job == Job(width, height, job.dataSize, depth == 32, invert, overwriteAlpha, alpha)
      && job.Fits(screenshot.Contents()) && offset <= |buffer.Contents()|
      && buffer.Contents()[offset..] == Converted(job, screenshot.Contents())
  {
    hide Converted, EvenlySized, Times, Job.Fits;
    job := Job(width, height, 0, depth == 32, invert, overwriteAlpha, alpha);
    if depth != 24 && depth != 32 {
      return BadDepth, job;
    }
    var pixelCount, dataSize := width * height, 0;
    r, dataSize := CheckDataSize(screenshot.m_datasize, pixelCount);
    if r == Done {
      job := job.(dataSize := dataSize);
      FitsBySize(job, screenshot.Contents());
      WriteImage(job, screenshot, buffer, offset, pixelCount);
    }
  }

  lemma EvenlySizedBy(size: nat, pixelCount: nat, d: nat)
    requires d >= 2 && size == Times(d, pixelCount)
    ensures EvenlySized(size, pixelCount)
  {
  }

  lemma TotalSize(job: Job, s: seq<Byte>)
    requires job.Fits(s)
    ensures |Converted(job, s)| == job.width * job.height * job.PixelSize()
  {
    hide RowsFrom;
    RowsLength(job, s, 0);
    OffSteps(job.PixelSize(), job.width, 0, 0);
  }
}
