/** The generated .ico: its directory and blobs, and the 32-bit DIB form of one image. */
module Ico {
  import opened Prelude

  type Byte = x: int | 0 <= x < 256

  const U32 := 0x1_0000_0000

  /** `to_le_bytes` after a cast: the low bytes of `n`. */
  function Le16(n: nat): (e: seq<Byte>)
    ensures |e| == 2
  {
    [n % 256, n / 256 % 256]
  }

  function Le32(n: nat): (e: seq<Byte>)
    ensures |e| == 4
  {
    [n % 256, n / 256 % 256, n / 65536 % 256, n / 16777216 % 256]
  }

  function Read16(b: seq<Byte>, at: nat): nat
    requires at + 2 <= |b|
  {
    b[at] as int + 256 * b[at + 1] as int
  }

  function Read32(b: seq<Byte>, at: nat): nat
    requires at + 4 <= |b|
  {
    b[at] as int + 256 * b[at + 1] as int + 65536 * b[at + 2] as int + 16777216 * b[at + 3] as int
  }

  // ---------------------------------------------------------------- the container

  datatype Image = Image(size: nat, blob: seq<Byte>)

  /** 256 and above are written as 0. */
  function Dim(size: nat): Byte { if size >= 256 then 0 else size }

  function Header(count: nat): seq<Byte> { Le16(0) + Le16(1) + Le16(count) }

  function Entry(im: Image, offset: nat): (e: seq<Byte>)
    ensures |e| == 16
  {
    [Dim(im.size), Dim(im.size), 0, 0] + Le16(1) + Le16(32) + Le32(|im.blob|) + Le32(offset)
  }

  /** The total length of the first `k` blobs. */
  function Total(images: seq<Image>, k: nat): nat
    requires k <= |images|
  {
    if k == 0 then 0 else Total(images, k - 1) + |images[k - 1].blob|
  }

  /** Where blob `k` starts in the file. */
  function Offset(images: seq<Image>, k: nat): nat
    requires k <= |images|
  {
    6 + 16 * |images| + Total(images, k)
  }

  function Entries(images: seq<Image>, k: nat): (e: seq<Byte>)
    requires k <= |images|
    ensures |e| == 16 * k
  {
    if k == 0 then [] else Entries(images, k - 1) + Entry(images[k - 1], Offset(images, k - 1))
  }

  function Blobs(images: seq<Image>, k: nat): (b: seq<Byte>)
    requires k <= |images|
    ensures |b| == Total(images, k)
  {
    if k == 0 then [] else Blobs(images, k - 1) + images[k - 1].blob
  }

  function File(images: seq<Image>): seq<Byte> {
    Header(|images|) + Entries(images, |images|) + Blobs(images, |images|)
  }

  /** `assemble_ico`. The running offset is a 32-bit number. */
  method AssembleIco(images: seq<Image>) returns (out: seq<Byte>)
    ensures out == File(images)
  {
    hide Entry, Total;
    out := Le16(0) + Le16(1) + Le16(|images|);
    assert out == Header(|images|);
    hide Header, Le16;
    var offset := (6 + 16 * |images|) % U32;
    assert Total(images, 0) == 0 by { NothingYet(images); }
    for k := 0 to |images|
      invariant offset == Offset(images, k) % U32
      invariant out == Header(|images|) + Entries(images, k)
    {
      EntryWraps(images[k], Offset(images, k));
      OffsetWraps(images, k);
      out := out + Entry(images[k], offset);
      offset := (offset + |images[k].blob| % U32) % U32;
    }
    for k := 0 to |images|
      invariant out == Header(|images|) + Entries(images, |images|) + Blobs(images, k)
    {
      out := out + images[k].blob;
    }
  }

  lemma NothingYet(images: seq<Image>)
    ensures Total(images, 0) == 0
  {}

  lemma EntryWraps(im: Image, offset: nat)
    ensures Entry(im, offset % U32) == Entry(im, offset)
  {
    Le32Wraps(offset);
    hide Le32;
  }

  lemma OffsetWraps(images: seq<Image>, k: nat)
    requires k < |images|
    ensures (Offset(images, k) % U32 + |images[k].blob| % U32) % U32 == Offset(images, k + 1) % U32
  {
    assert Offset(images, k + 1) == Offset(images, k) + |images[k].blob|;
    hide Offset;
    AddWraps(Offset(images, k), |images[k].blob|);
  }

  lemma AddWraps(x: nat, y: nat)
    ensures (x % U32 + y % U32) % U32 == (x + y) % U32
  {}

  lemma Shift256(y: nat, r: nat)
    ensures (256 * y + r) % 256 == r % 256
    ensures (256 * y + r) / 256 == y + r / 256
  {}

  lemma Shift65536(y: nat, r: nat)
    ensures (65536 * y + r) / 65536 == y + r / 65536
  {}

  lemma Shift16777216(y: nat, r: nat)
    ensures (16777216 * y + r) / 16777216 == y + r / 16777216
  {}

  lemma Le32Wraps(n: nat)
    ensures Le32(n % U32) == Le32(n)
  {
    var q, r := n / U32, n % U32;
    assert n == q * U32 + r;
    Shift256(q * 16777216, r);
    Shift256(q * 65536, r / 256);
    Shift65536(q * 65536, r);
    Shift256(q * 256, r / 65536);
    Shift16777216(q * 256, r);
    Shift256(q, r / 16777216);
  }

  lemma Le32Reads(n: nat)
    requires n < U32
    ensures Read32(Le32(n), 0) == n
  {
    var n1, n2, n3 := n / 256, n / 65536, n / 16777216;
    assert n2 == n1 / 256 && n3 == n2 / 256 && n3 < 256;
    assert n == 256 * n1 + n % 256 && n1 == 256 * n2 + n1 % 256 && n2 == 256 * n3 + n2 % 256;
  }

  /** An icon loader: the images by dimension byte and bytes, if the file has the form. */
  function ReadIcon(b: seq<Byte>, i: nat): Option<(Byte, seq<Byte>)> {
    var at := 6 + 16 * i;
    if at + 16 > |b| then None
    else
      var size, offset := Read32(b, at + 8), Read32(b, at + 12);
      if b[at] != b[at + 1] || Read16(b, at + 6) != 32 || offset + size > |b| then None
      else Some((b[at], b[offset..offset + size]))
  }

  lemma SliceLeft(a: seq<Byte>, b: seq<Byte>, from: nat, to: nat)
    requires from <= to <= |a|
    ensures (a + b)[from..to] == a[from..to]
  {}

  lemma SliceRight(a: seq<Byte>, b: seq<Byte>, from: nat, to: nat)
    requires from <= to <= |b|
    ensures (a + b)[|a| + from..|a| + to] == b[from..to]
  {}

  lemma {:induction false} EntryIsThere(images: seq<Image>, i: nat, k: nat)
    requires i < k <= |images|
    ensures Entries(images, k)[16 * i..16 * i + 16] == Entry(images[i], Offset(images, i))
  {
    var before, last, from := Entries(images, k - 1), Entry(images[k - 1], Offset(images, k - 1)), 16 * i;
    assert Entries(images, k) == before + last && |before| == 16 * (k - 1);
    if i < k - 1 {
      EntryIsThere(images, i, k - 1);
      hide *;
      SliceLeft(before, last, from, from + 16);
    } else {
      hide *;
      SliceRight(before, last, 0, 16);
      assert last[0..16] == last;
    }
  }

  lemma {:induction false} BlobIsThere(images: seq<Image>, i: nat, k: nat)
    requires i < k <= |images|
    ensures Total(images, i) + |images[i].blob| <= Total(images, k)
    ensures Blobs(images, k)[Total(images, i)..Total(images, i) + |images[i].blob|] == images[i].blob
  {
    var before, last := Blobs(images, k - 1), images[k - 1].blob;
    assert Blobs(images, k) == before + last;
    if i < k - 1 {
      BlobIsThere(images, i, k - 1);
      SliceLeft(before, last, Total(images, i), Total(images, i) + |images[i].blob|);
    } else {
      SliceRight(before, last, 0, |last|);
    }
  }

  lemma EntryInFile(images: seq<Image>, i: nat)
    requires i < |images|
    ensures var at := 6 + 16 * i;
      at + 16 <= |File(images)| && File(images)[at..at + 16] == Entry(images[i], Offset(images, i))
  {
    var n := |images|;
    EntryIsThere(images, i, n);
    hide Entry, Offset, Entries, Blobs;
    var front := Header(n) + Entries(images, n);
    SliceRight(Header(n), Entries(images, n), 16 * i, 16 * i + 16);
    SliceLeft(front, Blobs(images, n), 6 + 16 * i, 6 + 16 * i + 16);
  }

  lemma BlobInFile(images: seq<Image>, i: nat)
    requires i < |images|
    ensures var from := Offset(images, i);
      from + |images[i].blob| <= |File(images)| && File(images)[from..from + |images[i].blob|] == images[i].blob
    ensures |File(images)| == Offset(images, |images|)
  {
    var n := |images|;
    BlobIsThere(images, i, n);
    hide Entries, Blobs, Total;
    SliceRight(Header(n) + Entries(images, n), Blobs(images, n), Total(images, i), Total(images, i) + |images[i].blob|);
  }

  lemma EntryReads(e: seq<Byte>, im: Image, offset: nat)
    requires e == Entry(im, offset) && |im.blob| < U32 && offset < U32
    ensures e[0] == e[1] == Dim(im.size) && Read16(e, 6) == 32
    ensures Read32(e, 8) == |im.blob| && Read32(e, 12) == offset
  {
    Le32Reads(|im.blob|);
    Le32Reads(offset);
    var front := [Dim(im.size), Dim(im.size), 0, 0] + Le16(1) + Le16(32);
    assert e[8..12] == Le32(|im.blob|) && e[12..16] == Le32(offset);
    assert e[6..8] == Le16(32);
    assert forall j :: 0 <= j < 4 ==> e[8 + j] == e[8..12][j] && e[12 + j] == e[12..16][j];
    assert e[6] == e[6..8][0] && e[7] == e[6..8][1];
  }

  lemma ReadSlice(b: seq<Byte>, at: nat)
    requires at + 16 <= |b|
    ensures var e := b[at..at + 16];
      && e[0] == b[at] && e[1] == b[at + 1] && Read16(e, 6) == Read16(b, at + 6)
      && Read32(e, 8) == Read32(b, at + 8) && Read32(e, 12) == Read32(b, at + 12)
  {}

  /**
    The round trip: while everything fits in 32 bits, the directory counts the
    images and gives back each one's dimension byte and exactly its bytes. The
    blobs follow one another without a gap and end at the end of the file.
   */
  lemma DirectoryRoundTrip(images: seq<Image>, i: nat)
    requires |images| < 65536 && Offset(images, |images|) < U32
    requires i < |images|
    ensures Read16(File(images), 4) == |images|
    ensures ReadIcon(File(images), i) == Some((Dim(images[i].size), images[i].blob))
    ensures Offset(images, i) + |images[i].blob| == Offset(images, i + 1)
    ensures Offset(images, 0) == 6 + 16 * |images| && Offset(images, |images|) == |File(images)|
  {
    DirectoryEntryReads(images, i);
    BlobInFile(images, i);
    CountReads(images);
    hide File, Read16;
    NothingYet(images);
  }

  lemma DirectoryEntryReads(images: seq<Image>, i: nat)
    requires |images| < 65536 && Offset(images, |images|) < U32 && i < |images|
    ensures ReadIcon(File(images), i) == Some((Dim(images[i].size), images[i].blob))
  {
    EntryInFile(images, i);
    BlobInFile(images, i);
    hide *;
    OffsetsFit(images, i);
    EntryLeadsToBlob(File(images), i, images[i], Offset(images, i));
  }

  lemma OffsetsFit(images: seq<Image>, i: nat)
    requires i < |images|
    ensures Offset(images, i) + |images[i].blob| <= Offset(images, |images|)
  {
    BlobIsThere(images, i, |images|);
    hide Total, Blobs;
  }

  lemma EntryLeadsToBlob(b: seq<Byte>, i: nat, im: Image, offset: nat)
    requires 6 + 16 * i + 16 <= |b| && b[6 + 16 * i..6 + 16 * i + 16] == Entry(im, offset)
    requires offset + |im.blob| <= |b| && b[offset..offset + |im.blob|] == im.blob
    requires |im.blob| < U32 && offset < U32
    ensures ReadIcon(b, i) == Some((Dim(im.size), im.blob))
  {
    hide Entry, Read16, Read32, Dim;
    EntryReads(b[6 + 16 * i..6 + 16 * i + 16], im, offset);
    ReadSlice(b, 6 + 16 * i);
  }

  lemma CountReads(images: seq<Image>)
    requires |images| < 65536
    ensures |File(images)| >= 6 && Read16(File(images), 4) == |images|
    ensures Read16(File(images), 0) == 0 && Read16(File(images), 2) == 1
  {
    var b, h := File(images), Header(|images|);
    hide Entries, Blobs;
    assert b[0] == h[0] && b[1] == h[1] && b[2] == h[2] && b[3] == h[3] && b[4] == h[4] && b[5] == h[5];
  }

  /** The file says that it is an icon; and each entry has no palette, one plane and 32 bits. */
  lemma DirectoryForm(images: seq<Image>, i: nat)
    requires |images| < 65536 && i < |images|
    ensures var b, at := File(images), 6 + 16 * i;
      && |b| >= at + 16 && Read16(b, 0) == 0 && Read16(b, 2) == 1
      && b[at + 2] == 0 && b[at + 3] == 0 && Read16(b, at + 4) == 1 && Read16(b, at + 6) == 32
      && b[at] == b[at + 1] == if images[i].size < 256 then images[i].size else 0
  {
    var b, at := File(images), 6 + 16 * i;
    CountReads(images);
    EntryInFile(images, i);
    hide File, Offset;
    var e := b[at..at + 16];
    EntryForm(e, images[i], Offset(images, i));
    assert e[0] == b[at] && e[1] == b[at + 1] && e[2] == b[at + 2] && e[3] == b[at + 3];
    assert e[4] == b[at + 4] && e[5] == b[at + 5] && e[6] == b[at + 6] && e[7] == b[at + 7];
  }

  lemma EntryForm(e: seq<Byte>, im: Image, offset: nat)
    requires e == Entry(im, offset)
    ensures e[0] == e[1] == if im.size < 256 then im.size else 0
    ensures e[2] == 0 && e[3] == 0 && Read16(e, 4) == 1 && Read16(e, 6) == 32
  {
    hide Le32;
  }

  // ------------------------------------------------------------------ one image

  /** One channel out of premultiplied form. */
  function Un(c: Byte, a: Byte): Byte {
    if a == 0 then 0
    else
      var v := (c * 255 + a / 2) / a;
      if v < 255 then v else 255
  }

  lemma Divides(n: nat, a: nat)
    requires a > 0
    ensures n / a * a <= n < n / a * a + a
  {}

  /** Premultiplied channels never exceed alpha. For them the clamp never cuts, and premultiplying again gives the channel back. */
  lemma UnPremultiplyIsExact(c: Byte, a: Byte)
    requires 0 < a && c <= a
    ensures (c * 255 + a / 2) / a <= 255
    ensures (Un(c, a) * a + 127) / 255 == c
  {
    var n := c * 255 + a / 2;
    var u := n / a;
    Divides(n, a);
    if u > 255 { Grows(256, u, a); }
    assert u <= 255;
    var p := u * a;
    assert 255 * c <= p + 127 < 255 * c + 255;
  }

  lemma Grows(x: nat, y: nat, a: nat)
    requires x <= y
    ensures x * a <= y * a
  {}

  /** Channel `c` of the pixel at `at`, in the order Windows wants: blue, green, red, alpha. */
  function Channel(rgba: seq<Byte>, at: nat, c: nat): Byte
    requires at + 4 <= |rgba| && c < 4
  {
    if c == 3 then rgba[at + 3] else Un(rgba[at + 2 - c], rgba[at + 3])
  }

  function Bgra(rgba: seq<Byte>, at: nat): (p: seq<Byte>)
    requires at + 4 <= |rgba|
    ensures |p| == 4
  {
    [Channel(rgba, at, 0), Channel(rgba, at, 1), Channel(rgba, at, 2), Channel(rgba, at, 3)]
  }

  /** The first `n` pixels of a row, straightened. */
  function BgraRow(row: seq<Byte>, n: nat): (out: seq<Byte>)
    requires 4 * n <= |row|
    ensures |out| == 4 * n
  {
    if n == 0 then [] else BgraRow(row, n - 1) + Bgra(row, 4 * (n - 1))
  }

  /** Where row `y` starts in a bitmap of `size` by `size` pixels of four bytes. */
  function RowStart(size: nat, y: nat): nat { y * (4 * size) }

  lemma RowsFollow(size: nat, y: nat, k: nat)
    requires y < k
    ensures RowStart(size, y) + 4 * size == RowStart(size, y + 1) <= RowStart(size, k)
  {
    Grows(y + 1, k, 4 * size);
  }

  function SourceRow(size: nat, rgba: seq<Byte>, y: nat): (row: seq<Byte>)
    requires y < size && |rgba| >= RowStart(size, size)
    ensures |row| == 4 * size
  {
    RowsFollow(size, y, size);
    rgba[RowStart(size, y)..RowStart(size, y + 1)]
  }

  /** The first `k` rows of the colour bitmap: the source's, from the bottom up. */
  function Rows(size: nat, rgba: seq<Byte>, k: nat): (out: seq<Byte>)
    requires k <= size && |rgba| >= RowStart(size, size)
    ensures |out| == RowStart(size, k)
  {
    if k == 0 then []
    else
      RowsFollow(size, k - 1, k);
      Rows(size, rgba, k - 1) + BgraRow(SourceRow(size, rgba, size - k), size)
  }

  function MaskLength(size: nat): nat { (size + 31) / 32 * 4 * size }

  function Zeros(n: nat): (z: seq<Byte>)
    ensures |z| == n
  {
    seq(n, _ => 0)
  }

  function DibHeader(size: nat): (h: seq<Byte>)
    ensures |h| == 40
  {
    Le32(40) + Le32(size) + Le32(size * 2) + Le16(1) + Le16(32) + Le32(0)
      + Le32(RowStart(size, size) + MaskLength(size)) + Le32(0) + Le32(0) + Le32(0) + Le32(0)
  }

  function Dib(size: nat, rgba: seq<Byte>): seq<Byte>
    requires |rgba| >= RowStart(size, size)
  {
    DibHeader(size) + Rows(size, rgba, size) + Zeros(MaskLength(size))
  }

  /** `ico_dib_entry`. The sizes are 32-bit numbers, which bounds the image. */
  method IcoDibEntry(size: nat, rgba: seq<Byte>) returns (out: seq<Byte>)
    requires size < 0x8000 && |rgba| >= RowStart(size, size)
    ensures out == Dib(size, rgba)
  {
    hide DibHeader, RowStart, SourceRow, Channel, MaskLength;
    out := DibHeader(size);
    for k := 0 to size
      invariant out == DibHeader(size) + Rows(size, rgba, k)
    {
      var row := SourceRow(size, rgba, size - 1 - k);
      var line := StraightRow(size, row);
      assert out + line == DibHeader(size) + (Rows(size, rgba, k) + line);
      out := out + line;
    }
    out := out + Zeros(MaskLength(size));
  }

  /** One row, pixel by pixel. */
  method StraightRow(size: nat, row: seq<Byte>) returns (out: seq<Byte>)
    requires |row| == 4 * size
    ensures out == BgraRow(row, size)
  {
    out := [];
    for x := 0 to size
      invariant out == BgraRow(row, x)
    {
      var r, g, b, a := row[4 * x], row[4 * x + 1], row[4 * x + 2], row[4 * x + 3];
      out := out + [Un(b, a), Un(g, a), Un(r, a), a];
    }
  }

  lemma {:induction false} PixelIsThere(row: seq<Byte>, x: nat, n: nat, c: nat)
    requires x < n && 4 * n <= |row| && c < 4
    ensures BgraRow(row, n)[4 * x + c] == Channel(row, 4 * x, c)
  {
    hide Channel;
    if x < n - 1 { PixelIsThere(row, x, n - 1, c); }
  }

  lemma {:induction false} RowIsThere(size: nat, rgba: seq<Byte>, j: nat, k: nat, q: nat)
    requires j < k <= size && |rgba| >= RowStart(size, size) && q < 4 * size
    ensures RowStart(size, j) + 4 * size <= |Rows(size, rgba, k)|
    ensures Rows(size, rgba, k)[RowStart(size, j) + q] == BgraRow(SourceRow(size, rgba, size - 1 - j), size)[q]
  {
    hide *;
    RowsFollow(size, j, k);
    RowsStep(size, rgba, k);
    if j < k - 1 {
      RowIsThere(size, rgba, j, k - 1, q);
    } else {
      assert RowStart(size, j) == |Rows(size, rgba, k - 1)|;
    }
  }

  lemma RowsStep(size: nat, rgba: seq<Byte>, k: nat)
    requires 0 < k <= size && |rgba| >= RowStart(size, size)
    ensures Rows(size, rgba, k) == Rows(size, rgba, k - 1) + BgraRow(SourceRow(size, rgba, size - k), size)
  {
    hide RowStart, BgraRow, SourceRow;
  }

  /**
    The DIB form: a 40-byte header, then row `j` is the source's row
    `size - 1 - j`, pixel by pixel un-premultiplied into blue, green, red and
    alpha, then a mask of zeros, one bit a pixel in rows of whole words.
   */
  lemma DibLayout(size: nat, rgba: seq<Byte>, j: nat, x: nat, c: nat)
    requires |rgba| >= RowStart(size, size) && j < size && x < size && c < 4
    ensures var out, source := Dib(size, rgba), RowStart(size, size - 1 - j) + 4 * x;
      && |out| == 40 + RowStart(size, size) + MaskLength(size)
      && RowStart(size, j) + 4 * x + 4 <= RowStart(size, size) && source + 4 <= |rgba|
      && out[40 + RowStart(size, j) + 4 * x + c] ==
           (if c == 0 then Un(rgba[source + 2], rgba[source + 3])
            else if c == 1 then Un(rgba[source + 1], rgba[source + 3])
            else if c == 2 then Un(rgba[source], rgba[source + 3])
            else rgba[source + 3])
  {
    hide *;
    RowsFollow(size, j, size);
    ColourIsThere(size, rgba, RowStart(size, j) + 4 * x + c);
    SourceIsThere(size, rgba, size - 1 - j, x, c);
    ChannelsAre(rgba, RowStart(size, size - 1 - j) + 4 * x, c);
    RowIsThere(size, rgba, j, size, 4 * x + c);
    PixelIsThere(SourceRow(size, rgba, size - 1 - j), x, size, c);
  }

  /** Blue, green, red and alpha of a pixel whose bytes are red, green, blue and alpha. */
  lemma ChannelsAre(rgba: seq<Byte>, at: nat, c: nat)
    requires c < 4 && at + 4 <= |rgba|
    ensures Channel(rgba, at, c) ==
      if c == 0 then Un(rgba[at + 2], rgba[at + 3]) else if c == 1 then Un(rgba[at + 1], rgba[at + 3])
      else if c == 2 then Un(rgba[at], rgba[at + 3]) else rgba[at + 3]
  {
    hide Un;
  }

  /** Un-premultiplying gives the nearest byte to 255 times channel over alpha; nothing without alpha, and white where the channel exceeds it. */
  lemma UnRounds(c: Byte, a: Byte)
    ensures a == 0 ==> Un(c, a) == 0
    ensures 0 < a < c ==> Un(c, a) == 255
    ensures 0 < a && c <= a ==> 510 * c - a <= 2 * (Un(c, a) * a) <= 510 * c + a
  {
    if 0 < a {
      var n := c * 255 + a / 2;
      Divides(n, a);
      if a < c {
        if n / a < 255 { Grows(n / a + 1, 255, a); }
      } else {
        UnPremultiplyIsExact(c, a);
      }
    }
  }

  /** The length in numbers: the header, four bytes a pixel, and a mask of one bit a pixel in rows of whole words. */
  lemma DibLength(size: nat, rgba: seq<Byte>)
    requires |rgba| >= RowStart(size, size)
    ensures var words := (size + 31) / 32;
      && |Dib(size, rgba)| == 40 + size * (4 * size) + words * 4 * size
      && 32 * words >= size && (words > 0 ==> 32 * (words - 1) < size)
  {
    hide Rows, DibHeader;
  }

  /** Row `y` starts where `y` rows of four bytes a pixel end. */
  lemma RowStarts(size: nat, y: nat)
    ensures RowStart(size, y) == y * (4 * size)
  {}

  lemma ColourIsThere(size: nat, rgba: seq<Byte>, i: nat)
    requires |rgba| >= RowStart(size, size) && i < RowStart(size, size)
    ensures |Dib(size, rgba)| == 40 + RowStart(size, size) + MaskLength(size)
    ensures Dib(size, rgba)[40 + i] == Rows(size, rgba, size)[i]
  {
    hide RowStart, Rows, DibHeader, MaskLength;
  }

  lemma SourceIsThere(size: nat, rgba: seq<Byte>, y: nat, x: nat, c: nat)
    requires |rgba| >= RowStart(size, size) && y < size && x < size && c < 4
    ensures RowStart(size, y) + 4 * x + 4 <= |rgba|
    ensures Channel(SourceRow(size, rgba, y), 4 * x, c) == Channel(rgba, RowStart(size, y) + 4 * x, c)
  {
    RowsFollow(size, y, size);
    hide RowStart, Un;
  }

  /** Behind the colours there is only the zero mask. */
  lemma DibMask(size: nat, rgba: seq<Byte>, i: nat)
    requires |rgba| >= RowStart(size, size)
    ensures i < MaskLength(size) ==> Dib(size, rgba)[40 + RowStart(size, size) + i] == 0
  {
    hide RowStart, Rows, DibHeader, MaskLength;
  }

  lemma Read32Slice(b: seq<Byte>, at: nat, n: nat)
    requires n < U32 && at + 4 <= |b| && b[at..at + 4] == Le32(n)
    ensures Read32(b, at) == n
  {
    Le32Reads(n);
    var w := b[at..at + 4];
    assert b[at] == w[0] && b[at + 1] == w[1] && b[at + 2] == w[2] && b[at + 3] == w[3];
  }

  lemma DibHeaderWords(size: nat)
    ensures var h := DibHeader(size);
      && h[0..4] == Le32(40) && h[4..8] == Le32(size) && h[8..12] == Le32(size * 2)
      && h[12..16] == Le16(1) + Le16(32) && h[16..20] == Le32(0)
      && h[20..24] == Le32(RowStart(size, size) + MaskLength(size))
      && h[24..28] == Le32(0) && h[28..32] == Le32(0) && h[32..36] == Le32(0) && h[36..40] == Le32(0)
  {
    hide Le16, Le32, RowStart, MaskLength;
  }

  /** What a reader of the header finds: its length, the width, twice the height, 32 bits a pixel, and the length of all that follows. */
  lemma DibHeaderReads(size: nat)
    requires RowStart(size, size) + MaskLength(size) < U32 && 2 * size < U32
    ensures var h := DibHeader(size);
      && Read32(h, 0) == 40 && Read32(h, 4) == size && Read32(h, 8) == 2 * size
      && Read16(h, 12) == 1 && Read16(h, 14) == 32 && Read32(h, 16) == 0
      && Read32(h, 20) == RowStart(size, size) + MaskLength(size)
      && Read32(h, 24) == 0 && Read32(h, 28) == 0 && Read32(h, 32) == 0 && Read32(h, 36) == 0
  {
    var h, body := DibHeader(size), RowStart(size, size) + MaskLength(size);
    DibHeaderWords(size);
    hide DibHeader, RowStart, MaskLength, Le32, Read32;
    assert forall i :: 0 <= i < 4 ==> h[12 + i] == h[12..16][i];
    Read32Slice(h, 0, 40);
    Read32Slice(h, 4, size);
    Read32Slice(h, 8, size * 2);
    Read32Slice(h, 16, 0);
    Read32Slice(h, 20, body);
    Read32Slice(h, 24, 0);
    Read32Slice(h, 28, 0);
    Read32Slice(h, 32, 0);
    Read32Slice(h, 36, 0);
  }
}
