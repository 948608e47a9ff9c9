/** The two conversion loops of the screen-capture codec over plain arrays, what they compute, and
    the round trip through both for whole images. */
module ColorConversion {
  import opened Bytes
  import opened ColorMath
  import opened PlaneLayout

  type Image = Bytes  // BGRA, 4 bytes a pixel

  // ----- What the encoder computes ------------------------------------------------------------------

  predicate IsImage(src: Image, w: nat, h: nat) {
    |src| == w * h * 4
  }

  /** Channel `c` (0 blue, 1 green, 2 red, 3 alpha) of a pixel. */
  function Channel(src: Image, w: nat, h: nat, row: nat, col: nat, c: nat): Byte
    requires IsImage(src, w, h) && row < h && col < w && c < 4
  {
    Flatten(row, col, w, h);
    src[(row * w + col) * 4 + c]
  }

  /** The byte a site receives; a chroma site samples the top-left pixel of its block. */
  function ValueAt(src: Image, w: nat, h: nat, s: Site): Byte
    requires IsImage(src, w, h) && Visited(s, w, h)
  {
    match s
    case LumaSite(row, col) =>
      Luma(Channel(src, w, h, row, col, 2), Channel(src, w, h, row, col, 1), Channel(src, w, h, row, col, 0))
    case CbSite(r, c) =>
      Cb(Channel(src, w, h, 2 * r, 2 * c, 2), Channel(src, w, h, 2 * r, 2 * c, 1), Channel(src, w, h, 2 * r, 2 * c, 0))
    case CrSite(r, c) =>
      Cr(Channel(src, w, h, 2 * r, 2 * c, 2), Channel(src, w, h, 2 * r, 2 * c, 1), Channel(src, w, h, 2 * r, 2 * c, 0))
  }

  /** The I420 image of `src`: at every index, the value of the one site that owns it. */
  function I420(src: Image, w: nat, h: nat): Bytes
    requires IsImage(src, w, h) && Even(w) && Even(h)
  {
    seq(w * h * 3 / 2, k requires 0 <= k < w * h * 3 / 2 =>
      EveryIndexIsWritten(k, w, h);
      ValueAt(src, w, h, SiteOf(k, w, h)))
  }

  lemma I420At(src: Image, w: nat, h: nat, s: Site)
    requires IsImage(src, w, h) && Even(w) && Even(h) && Visited(s, w, h)
    ensures Index(s, w, h) < |I420(src, w, h)| == w * h * 3 / 2
    ensures I420(src, w, h)[Index(s, w, h)] == ValueAt(src, w, h, s)
  {
    NoIndexIsWrittenTwice(s, w, h);
  }

  /** In terms of the standard: a pixel is blue, green, red and alpha, in this order; its luma stands in the
      first plane, and the chroma of the top-left pixel of each block in the second and third. */
  lemma EncodesPixelsByTheStandard(src: Image, w: nat, h: nat, row: nat, col: nat)
    requires IsImage(src, w, h) && Even(w) && Even(h) && row < h && col < w
    ensures var p, k := (row * w + col) * 4, row * w + col;
            && 0 <= p && p + 3 < |src| && 0 <= k < |I420(src, w, h)|
            && StandardLuma(I420(src, w, h)[k], src[p + 2], src[p + 1], src[p])
  {
    PixelInBounds(src, w, h, row, col);
    I420At(src, w, h, LumaSite(row, col));
    var p := (row * w + col) * 4;
    EncodesByTheStandard(src[p + 2], src[p + 1], src[p]);
  }

  lemma EncodesBlocksByTheStandard(src: Image, w: nat, h: nat, row: nat, col: nat, r: nat, c: nat)
    requires IsImage(src, w, h) && Even(w) && Even(h) && row < h && col < w && row == 2 * r && col == 2 * c
    ensures var p, n, blocks, k := (row * w + col) * 4, w * h, w * h / 4, r * (w / 2) + c;
            && 0 <= p && p + 3 < |src| && |I420(src, w, h)| == n + 2 * blocks && 0 <= k < blocks
            && StandardChroma(I420(src, w, h)[n + k], I420(src, w, h)[n + blocks + k], src[p + 2], src[p + 1], src[p])
  {
    var p, n, blocks, k := (row * w + col) * 4, w * h, w * h / 4, r * (w / 2) + c;
    BlockBytes(src, w, h, row, col, r, c, p, n, blocks, k);
    EncodesByTheStandard(src[p + 2], src[p + 1], src[p]);
  }

  lemma BlockBytes(src: Image, w: nat, h: nat, row: nat, col: nat, r: nat, c: nat, p: int, n: int, blocks: int, k: int)
    requires IsImage(src, w, h) && Even(w) && Even(h) && row < h && col < w && row == 2 * r && col == 2 * c
    requires p == (row * w + col) * 4 && n == w * h && blocks == w * h / 4 && k == r * (w / 2) + c
    ensures 0 <= p && p + 3 < |src| && |I420(src, w, h)| == n + 2 * blocks && 0 <= n && 0 <= k < blocks
    ensures I420(src, w, h)[n + k] == Cb(src[p + 2], src[p + 1], src[p])
    ensures I420(src, w, h)[n + blocks + k] == Cr(src[p + 2], src[p + 1], src[p])
  {
    ChromaValues(src, w, h, row, col, r, c);
    ChromaAt(src, w, h, r, c);
  }

  // ----- What a sequence of writes leaves behind -----------------------------------------------------

  /** One write of the encoder into the buffer. */
  function Put(src: Image, w: nat, h: nat, buf: Bytes, s: Site): Bytes
    requires IsImage(src, w, h)
  {
    if Visited(s, w, h) && Index(s, w, h) < |buf| then buf[Index(s, w, h) := ValueAt(src, w, h, s)] else buf
  }

  /** The buffer after the writes of `log`, the first one first. */
  function Replay(src: Image, w: nat, h: nat, base: Bytes, log: seq<Site>): (r: Bytes)
    requires IsImage(src, w, h)
    ensures |r| == |base|
  {
    if log == [] then base else Put(src, w, h, Replay(src, w, h, base, log[..|log| - 1]), log[|log| - 1])
  }

  lemma ReplayOneMore(src: Image, w: nat, h: nat, base: Bytes, log: seq<Site>, s: Site)
    requires IsImage(src, w, h)
    ensures Replay(src, w, h, base, log + [s]) == Put(src, w, h, Replay(src, w, h, base, log), s)
  {
    assert (log + [s])[..|log|] == log;
  }

  /** Write `i` is the last one to index `k`. */
  predicate WritesLast(w: nat, h: nat, log: seq<Site>, i: nat, k: nat) {
    i < |log| && Index(log[i], w, h) == k && forall j :: i < j < |log| ==> Index(log[j], w, h) != k
  }

  lemma PutAt(src: Image, w: nat, h: nat, buf: Bytes, s: Site, k: nat)
    requires IsImage(src, w, h) && k < |buf| && Visited(s, w, h)
    ensures Put(src, w, h, buf, s)[k] == if Index(s, w, h) == k then ValueAt(src, w, h, s) else buf[k]
  {
  }

  /** The last write to an index stands; an index never written keeps what the buffer held. */
  lemma {:induction false} LastWriteStands(src: Image, w: nat, h: nat, base: Bytes, log: seq<Site>, k: nat)
    requires IsImage(src, w, h) && k < |base| && forall s :: s in log ==> Visited(s, w, h)
    ensures forall i: nat :: WritesLast(w, h, log, i, k) ==>
              Visited(log[i], w, h) && Replay(src, w, h, base, log)[k] == ValueAt(src, w, h, log[i])
    ensures (forall s :: s in log ==> Index(s, w, h) != k) ==> Replay(src, w, h, base, log)[k] == base[k]
  {
    if log == [] {
    } else {
      var before, s := log[..|log| - 1], log[|log| - 1];
      assert log == before + [s] && s in log;
      LastWriteStands(src, w, h, base, before, k);
      PutAt(src, w, h, Replay(src, w, h, base, before), s, k);
      forall i: nat | WritesLast(w, h, log, i, k)
        ensures if Index(s, w, h) == k then i == |before| else i < |before| && WritesLast(w, h, before, i, k)
      {
        assert i < |before| ==> log[|before|] == s;
      }
    }
  }

  lemma {:induction false} SomeWriteIsLast(w: nat, h: nat, log: seq<Site>, s: Site) returns (i: nat)
    requires s in log
    ensures WritesLast(w, h, log, i, Index(s, w, h))
  {
    var last := log[|log| - 1];
    if Index(last, w, h) == Index(s, w, h) {
      i := |log| - 1;
    } else {
      var before := log[..|log| - 1];
      assert log == before + [last];
      i := SomeWriteIsLast(w, h, before, s);
    }
  }

  /** For even sizes the scheduled writes leave the I420 image, whatever the buffer held. */
  lemma ScheduleMakesI420(src: Image, w: nat, h: nat, base: Bytes)
    requires IsImage(src, w, h) && Even(w) && Even(h) && |base| == w * h * 3 / 2
    ensures Replay(src, w, h, base, Schedule(w, h)) == I420(src, w, h)
  {
    forall k | 0 <= k < w * h * 3 / 2
      ensures Replay(src, w, h, base, Schedule(w, h))[k] == I420(src, w, h)[k]
    {
      ScheduledByte(src, w, h, base, k);
    }
  }

  lemma ScheduledByte(src: Image, w: nat, h: nat, base: Bytes, k: nat)
    requires IsImage(src, w, h) && Even(w) && Even(h) && k < |base| == w * h * 3 / 2
    ensures Replay(src, w, h, base, Schedule(w, h))[k] == I420(src, w, h)[k]
  {
    var log, s := Schedule(w, h), SiteOf(k, w, h);
    EveryIndexIsWritten(k, w, h);
    ScheduleIsComplete(s, w, h);
    var i := SomeWriteIsLast(w, h, log, s);
    forall t | t in log ensures Visited(t, w, h) {
      ScheduleIsComplete(t, w, h);
    }
    LastWriteStands(src, w, h, base, log, k);
    NoIndexIsWrittenTwice(log[i], w, h);
  }

  /** Both chroma bytes of a block stand at the same offset of their planes. */
  lemma ChromaAt(src: Image, w: nat, h: nat, r: nat, c: nat)
    requires IsImage(src, w, h) && Even(w) && Even(h) && r < h / 2 && c < w / 2
    ensures var yuv, n, blocks, k := I420(src, w, h), w * h, w * h / 4, r * (w / 2) + c;
            && |yuv| == n + 2 * blocks && 0 <= k < blocks
            && yuv[n + k] == ValueAt(src, w, h, CbSite(r, c))
            && yuv[n + blocks + k] == ValueAt(src, w, h, CrSite(r, c))
  {
    CellOfFlat(r, c, w / 2, h / 2);
    EvenArea(w, h);
    I420At(src, w, h, CbSite(r, c));
    I420At(src, w, h, CrSite(r, c));
  }

  // ----- The encoder ---------------------------------------------------------------------------------

  function Resized(buf: Bytes, len: nat): Bytes {
    seq(len, i requires 0 <= i < len => if i < |buf| then buf[i] else 0)
  }

  /** `Vec::resize(len, 0)`: what was there stays, what is new is zero. */
  method Resize(buf: array<Byte>, len: nat) returns (r: array<Byte>)
    ensures r == buf || fresh(r)
    ensures r[..] == Resized(buf[..], len)
    ensures forall i :: 0 <= i < len ==> r[i] == if i < buf.Length then buf[i] else 0
  {
    if buf.Length == len {
      return buf;
    }
    r := new Byte[len];
    for i := 0 to len
      invariant forall j :: 0 <= j < i ==> r[j] == if j < buf.Length then buf[j] else 0
    {
      r[i] := if i < buf.Length then buf[i] else 0;
    }
  }

  lemma PixelInBounds(src: Image, w: nat, h: nat, row: nat, col: nat)
    requires IsImage(src, w, h) && row < h && col < w
    ensures 0 <= row * w + col < w * h && (row * w + col) * 4 + 3 < |src|
  {
    Flatten(row, col, w, h);
  }

  /** The body of the first loop nest. */
  method WriteLuma(src: Image, w: nat, h: nat, row: nat, col: nat, dst: array<Byte>)
    requires IsImage(src, w, h) && row < h && col < w && dst.Length == w * h * 3 / 2
    modifies dst
    ensures dst[..] == Put(src, w, h, old(dst[..]), LumaSite(row, col))
  {
    PixelInBounds(src, w, h, row, col);
    LumaFits(row, col, w, h);
    var p := (row * w + col) * 4;
    var b, g, r := src[p], src[p + 1], src[p + 2];
    dst[row * w + col] := Luma(r, g, b);
  }

  /** One row of pixels. */
  method WriteLumaRow(src: Image, w: nat, h: nat, row: nat, dst: array<Byte>, ghost base: Bytes, ghost done: seq<Site>)
    requires IsImage(src, w, h) && row < h && dst.Length == w * h * 3 / 2
    requires dst[..] == Replay(src, w, h, base, done)
    modifies dst
    ensures dst[..] == Replay(src, w, h, base, done + LumaRow(row, w))
  {
    assert done + [] == done;
    for col := 0 to w
      invariant dst[..] == Replay(src, w, h, base, done + LumaRow(row, col))
    {
      WriteLuma(src, w, h, row, col, dst);
      PixelReplayed(src, w, h, base, done, row, col);
    }
  }

  /** The first loop nest: the Y plane. */
  method LumaPass(src: Image, w: nat, h: nat, dst: array<Byte>)
    requires IsImage(src, w, h) && dst.Length == w * h * 3 / 2
    modifies dst
    ensures dst[..] == Replay(src, w, h, old(dst[..]), LumaRows(h, w))
  {
    ghost var base: Bytes := dst[..];
    for row := 0 to h
      invariant dst[..] == Replay(src, w, h, base, LumaRows(row, w))
    {
      WriteLumaRow(src, w, h, row, dst, base, LumaRows(row, w));
    }
  }

  lemma PixelReplayed(src: Image, w: nat, h: nat, base: Bytes, done: seq<Site>, row: nat, col: nat)
    requires IsImage(src, w, h)
    ensures Replay(src, w, h, base, done + LumaRow(row, col + 1)) ==
            Put(src, w, h, Replay(src, w, h, base, done + LumaRow(row, col)), LumaSite(row, col))
  {
    ReplayOneMore(src, w, h, base, done + LumaRow(row, col), LumaSite(row, col));
    assert done + LumaRow(row, col + 1) == done + LumaRow(row, col) + [LumaSite(row, col)];
  }

  lemma ChromaValues(src: Image, w: nat, h: nat, row: nat, col: nat, r: nat, c: nat)
    requires IsImage(src, w, h) && row < h && col < w && row == 2 * r && col == 2 * c
    ensures var p := (row * w + col) * 4;
            && 0 <= p && p + 3 < |src|
            && ValueAt(src, w, h, CbSite(r, c)) == Cb(src[p + 2], src[p + 1], src[p])
            && ValueAt(src, w, h, CrSite(r, c)) == Cr(src[p + 2], src[p + 1], src[p])
  {
    PixelInBounds(src, w, h, row, col);
  }

  /** A checked write; outside the buffer it is a panic. */
  method Store(dst: array<Byte>, at: nat, value: Byte) returns (ok: bool)
    modifies dst
    ensures ok <==> at < dst.Length
    ensures dst[..] == if ok then old(dst[..])[at := value] else old(dst[..])
  {
    ok := at < dst.Length;
    if ok {
      dst[at] := value;
    }
  }

  /** Both chroma bytes of the block (r, c), from its top-left pixel (row, col). */
  method BlockColour(src: Image, w: nat, h: nat, row: nat, col: nat, ghost r: nat, ghost c: nat)
    returns (u: Byte, v: Byte)
    requires IsImage(src, w, h) && row < h && col < w && row == 2 * r && col == 2 * c
    ensures u == ValueAt(src, w, h, CbSite(r, c)) && v == ValueAt(src, w, h, CrSite(r, c))
  {
    ChromaValues(src, w, h, row, col, r, c);
    var p := (row * w + col) * 4;
    var b, g, red := src[p], src[p + 1], src[p + 2];
    return Cb(red, g, b), Cr(red, g, b);
  }

  /** The body of the second loop nest. */
  method WriteBlock(src: Image, w: nat, h: nat, row: nat, col: nat, dst: array<Byte>, ghost r: nat, ghost c: nat)
    returns (ok: bool)
    requires IsImage(src, w, h) && row < h && col < w && row == 2 * r && col == 2 * c
    modifies dst
    ensures ok <==> Index(CrSite(r, c), w, h) < dst.Length
    ensures ok ==> dst[..] == Put(src, w, h, Put(src, w, h, old(dst[..]), CbSite(r, c)), CrSite(r, c))
  {
    var u, v := BlockColour(src, w, h, row, col, r, c);
    var n, uv_r, uv_c, uv_w := w * h, row / 2, col / 2, w / 2;
    var u_at, v_at := n + uv_r * uv_w + uv_c, n + n / 4 + uv_r * uv_w + uv_c;
    assert u_at == Index(CbSite(r, c), w, h) && v_at == Index(CrSite(r, c), w, h);
    ok := Store(dst, u_at, u);
    if ok {
      ok := Store(dst, v_at, v);
    }
  }

  /** One row of blocks; if a write panics, `bad` is its site. */
  method WriteBlockRow(src: Image, w: nat, h: nat, row: nat, dst: array<Byte>, ghost r: nat, ghost cols: nat,
                       ghost base: Bytes, ghost done: seq<Site>)
    returns (ok: bool, ghost bad: Site)
    requires IsImage(src, w, h) && row < h && row == 2 * r && 2 * cols - 1 <= w <= 2 * cols
    requires dst[..] == Replay(src, w, h, base, done)
    modifies dst
    ensures ok ==> dst[..] == Replay(src, w, h, base, done + ChromaRow(r, cols))
    ensures ok && cols > 0 ==> Index(CrSite(r, cols - 1), w, h) < dst.Length
    ensures !ok ==> Visited(bad, w, h) && Index(bad, w, h) >= dst.Length
  {
    ghost var c := 0;
    var col := 0;
    assert done + [] == done;
    while col < w
      invariant col == 2 * c && c <= cols
      invariant dst[..] == Replay(src, w, h, base, done + ChromaRow(r, c))
      invariant c > 0 ==> Index(CrSite(r, c - 1), w, h) < dst.Length
    {
      ok := WriteBlock(src, w, h, row, col, dst, r, c);
      if !ok {
        bad := CrSite(r, c);
        return;
      }
      BlockReplayed(src, w, h, base, done, r, c);
      col, c := col + 2, c + 1;
    }
    assert c == cols;
    ok := true;
    bad := CrSite(0, 0);
  }

  lemma BlockReplayed(src: Image, w: nat, h: nat, base: Bytes, done: seq<Site>, r: nat, c: nat)
    requires IsImage(src, w, h)
    ensures Replay(src, w, h, base, done + ChromaRow(r, c + 1)) ==
            Put(src, w, h, Put(src, w, h, Replay(src, w, h, base, done + ChromaRow(r, c)), CbSite(r, c)), CrSite(r, c))
  {
    var log := done + ChromaRow(r, c);
    ReplayOneMore(src, w, h, base, log, CbSite(r, c));
    ReplayOneMore(src, w, h, base, log + [CbSite(r, c)], CrSite(r, c));
    assert done + ChromaRow(r, c + 1) == log + [CbSite(r, c)] + [CrSite(r, c)];
  }

  /** The second loop nest: both chroma planes, one byte each for every block; if a write panics, `bad`
      is its site. */
  method ChromaPass(src: Image, w: nat, h: nat, dst: array<Byte>, ghost rows: nat, ghost cols: nat,
                    ghost base: Bytes, ghost done: seq<Site>)
    returns (ok: bool, ghost bad: Site)
    requires IsImage(src, w, h) && 2 * cols - 1 <= w <= 2 * cols && 2 * rows - 1 <= h <= 2 * rows
    requires dst[..] == Replay(src, w, h, base, done)
    modifies dst
    ensures ok ==> dst[..] == Replay(src, w, h, base, done + ChromaRows(rows, cols))
    ensures ok && rows > 0 && cols > 0 ==> Index(CrSite(rows - 1, cols - 1), w, h) < dst.Length
    ensures !ok ==> Visited(bad, w, h) && Index(bad, w, h) >= dst.Length
  {
    ghost var r := 0;
    var row := 0;
    assert done + [] == done;
    while row < h
      invariant row == 2 * r && r <= rows
      invariant dst[..] == Replay(src, w, h, base, done + ChromaRows(r, cols))
      invariant r > 0 && cols > 0 ==> Index(CrSite(r - 1, cols - 1), w, h) < dst.Length
    {
      ok, bad := WriteBlockRow(src, w, h, row, dst, r, cols, base, done + ChromaRows(r, cols));
      if !ok {
        return;
      }
      NextRows(done, r, cols);
      row, r := row + 2, r + 1;
    }
    assert r == rows;
    ok := true;
    bad := CrSite(0, 0);
  }

  lemma NextRows(done: seq<Site>, r: nat, cols: nat)
    ensures done + ChromaRows(r, cols) + ChromaRow(r, cols) == done + ChromaRows(r + 1, cols)
  {
  }

  /** The encoder's conversion, for any size. It panics exactly for the sizes whose chroma does not fit.
      Otherwise the buffer holds what the writes leave, in their order, in what it held before; and for
      even sizes that is the I420 image, whatever it held and however long it was. */
  method BgraToI420(src: Image, w: nat, h: nat, buf: array<Byte>) returns (ok: bool, dst: array<Byte>)
    requires IsImage(src, w, h)
    modifies buf
    ensures dst == buf || fresh(dst)
    ensures ok <==> SizeFits(w, h)
    ensures ok ==> dst[..] == Replay(src, w, h, Resized(old(buf[..]), w * h * 3 / 2), Schedule(w, h))
    ensures Even(w) && Even(h) ==> ok && dst[..] == I420(src, w, h)
  {
    var len := w * h * 3 / 2;
    ghost var base := Resized(buf[..], len);
    dst := Resize(buf, len);
    assert dst.Length == |dst[..]| == len;
    LumaPass(src, w, h, dst);
    ghost var rows, cols, bad := (h + 1) / 2, (w + 1) / 2, CrSite(0, 0);
    ok, bad := ChromaPass(src, w, h, dst, rows, cols, base, LumaRows(h, w));
    OneSiteDecides(w, h, rows, cols, len, ok, bad);
    if Even(w) && Even(h) {
      ScheduleMakesI420(src, w, h, base);
    }
  }

  datatype Prepared = Rejected | Panicked | Ready

  /** The encoder's state that frames pass through: one buffer reused for every frame. */
  class Encoder {
    const width: nat
    const height: nat
    var yuv: array<Byte>
    var pts: int

    constructor (width: nat, height: nat)
      ensures this.width == width && this.height == height && pts == 0 && fresh(yuv)
    {
      this.width, this.height := width, height;
      yuv := new Byte[0];
      pts := 0;
    }

    /** `bim_encoder_encode` up to the call into libvpx: too short an input changes nothing; for the
        sizes that fit, the buffer holds what the first width * height pixels make of it, which for even
        sizes is their I420 image, whatever frames came before. */
    method PrepareFrame(bgra: Bytes) returns (outcome: Prepared)
      modifies this, yuv
      ensures outcome == Rejected <==> |bgra| < width * height * 4
      ensures outcome == Panicked <==> |bgra| >= width * height * 4 && !SizeFits(width, height)
      ensures outcome == Rejected ==> yuv == old(yuv) && yuv[..] == old(yuv[..])
      ensures pts == if outcome == Ready then old(pts) + 33 else old(pts)
      ensures outcome == Ready ==>
                var src, len := bgra[..width * height * 4], width * height * 3 / 2;
                && yuv[..] == Replay(src, width, height, Resized(old(yuv[..]), len), Schedule(width, height))
                && (Even(width) && Even(height) ==> yuv[..] == I420(src, width, height))
      ensures yuv == old(yuv) || fresh(yuv)
    {
      var expected := width * height * 4;
      if |bgra| < expected {
        return Rejected;
      }
      var ok, dst := BgraToI420(bgra[..expected], width, height, yuv);
      yuv := dst;
      if !ok {
        return Panicked;
      }
      pts := pts + 33;
      return Ready;
    }
  }

  // ----- The decoder ---------------------------------------------------------------------------------

  /** A plane holds `rows` rows of `cols` bytes, `stride` apart. */
  predicate Covers(plane: Bytes, stride: nat, rows: nat, cols: nat) {
    rows == 0 || cols == 0 || (rows - 1) * stride + cols <= |plane|
  }

  /** The three planes reach far enough for a w by h image; odd sizes round the chroma up. */
  predicate PlanesCover(y: Bytes, u: Bytes, v: Bytes, ys: nat, us: nat, vs: nat, w: nat, h: nat) {
    Covers(y, ys, h, w) && Covers(u, us, (h + 1) / 2, (w + 1) / 2) && Covers(v, vs, (h + 1) / 2, (w + 1) / 2)
  }

  lemma PlaneInBounds(plane: Bytes, stride: nat, rows: nat, cols: nat, row: nat, col: nat)
    requires Covers(plane, stride, rows, cols) && row < rows && col < cols
    ensures row * stride + col < |plane|
  {
    MulMono(row, rows - 1, stride);
  }

  lemma ReadsInBounds(y: Bytes, u: Bytes, v: Bytes, ys: nat, us: nat, vs: nat, w: nat, h: nat,
                      row: nat, col: nat)
    requires PlanesCover(y, u, v, ys, us, vs, w, h) && row < h && col < w
    ensures 0 <= row * ys + col < |y|
    ensures 0 <= (row / 2) * us + col / 2 < |u| && 0 <= (row / 2) * vs + col / 2 < |v|
  {
    PlaneInBounds(y, ys, h, w, row, col);
    PlaneInBounds(u, us, (h + 1) / 2, (w + 1) / 2, row / 2, col / 2);
    PlaneInBounds(v, vs, (h + 1) / 2, (w + 1) / 2, row / 2, col / 2);
  }

  /** Channel `c` of the pixel with luma `y` and chroma `u`, `v`. */
  function ChannelOf(y: Byte, u: Byte, v: Byte, c: nat): Byte {
    if c == 0 then Blue(y, u) else if c == 1 then Green(y, u, v) else if c == 2 then Red(y, v) else 255
  }

  /** Channel `c` of the decoded pixel. */
  function Decoded(y: Bytes, u: Bytes, v: Bytes, ys: nat, us: nat, vs: nat, w: nat, h: nat,
                   row: nat, col: nat, c: nat): Byte
    requires PlanesCover(y, u, v, ys, us, vs, w, h) && row < h && col < w && c < 4
  {
    ReadsInBounds(y, u, v, ys, us, vs, w, h, row, col);
    var y', u', v' := y[row * ys + col], u[(row / 2) * us + col / 2], v[(row / 2) * vs + col / 2];
    ChannelOf(y', u', v', c)
  }

  /** The decoded image, byte by byte. */
  function Bgra(y: Bytes, u: Bytes, v: Bytes, ys: nat, us: nat, vs: nat, w: nat, h: nat): Image
    requires PlanesCover(y, u, v, ys, us, vs, w, h)
  {
    seq(w * h * 4, k requires 0 <= k < w * h * 4 =>
      var (row, col) := Cell(k / 4, w, h);
      Decoded(y, u, v, ys, us, vs, w, h, row, col, k % 4))
  }

  lemma BgraAt(y: Bytes, u: Bytes, v: Bytes, ys: nat, us: nat, vs: nat, w: nat, h: nat,
               row: nat, col: nat, c: nat)
    requires PlanesCover(y, u, v, ys, us, vs, w, h) && row < h && col < w && c < 4
    ensures IsImage(Bgra(y, u, v, ys, us, vs, w, h), w, h)
    ensures Channel(Bgra(y, u, v, ys, us, vs, w, h), w, h, row, col, c) ==
            Decoded(y, u, v, ys, us, vs, w, h, row, col, c)
  {
    CellOfFlat(row, col, w, h);
    var k := (row * w + col) * 4 + c;
    assert k / 4 == row * w + col && k % 4 == c;
  }

  /** The four bytes of a decoded pixel: blue, green, red and an opaque alpha, in this order. */
  lemma DecodesToBgra(y: Bytes, u: Bytes, v: Bytes, ys: nat, us: nat, vs: nat, w: nat, h: nat, row: nat, col: nat)
    requires PlanesCover(y, u, v, ys, us, vs, w, h) && row < h && col < w
    ensures var out, p := Bgra(y, u, v, ys, us, vs, w, h), (row * w + col) * 4;
            && 0 <= row * ys + col < |y|
            && 0 <= (row / 2) * us + col / 2 < |u| && 0 <= (row / 2) * vs + col / 2 < |v|
            && 0 <= p && p + 3 < |out|
            && var luma, cb, cr := y[row * ys + col], u[(row / 2) * us + col / 2], v[(row / 2) * vs + col / 2];
            && out[p] == Clamp(RawBlue(luma, cb)) && out[p + 1] == Clamp(RawGreen(luma, cb, cr))
            && out[p + 2] == Clamp(RawRed(luma, cr)) && out[p + 3] == 255
  {
    ReadsInBounds(y, u, v, ys, us, vs, w, h, row, col);
    var out := Bgra(y, u, v, ys, us, vs, w, h);
    BgraAt(y, u, v, ys, us, vs, w, h, row, col, 0);
    BgraAt(y, u, v, ys, us, vs, w, h, row, col, 1);
    BgraAt(y, u, v, ys, us, vs, w, h, row, col, 2);
    BgraAt(y, u, v, ys, us, vs, w, h, row, col, 3);
    PixelInBounds(out, w, h, row, col);
  }

  /** The body of the decoder's loop nest. */
  method WritePixel(y: Bytes, u: Bytes, v: Bytes, ys: nat, us: nat, vs: nat, w: nat, h: nat,
                    row: nat, col: nat, out: array<Byte>)
    requires PlanesCover(y, u, v, ys, us, vs, w, h) && out.Length == w * h * 4 && row < h && col < w
    modifies out
    ensures forall k :: 0 <= k < out.Length ==>
              out[k] == if k / 4 == row * w + col then Bgra(y, u, v, ys, us, vs, w, h)[k] else old(out[k])
  {
    CellOfFlat(row, col, w, h);
    ReadsInBounds(y, u, v, ys, us, vs, w, h, row, col);
    var y_val := y[row * ys + col];
    var u_val := u[(row / 2) * us + col / 2];
    var v_val := v[(row / 2) * vs + col / 2];
    BgraAt(y, u, v, ys, us, vs, w, h, row, col, 0);
    BgraAt(y, u, v, ys, us, vs, w, h, row, col, 1);
    BgraAt(y, u, v, ys, us, vs, w, h, row, col, 2);
    BgraAt(y, u, v, ys, us, vs, w, h, row, col, 3);
    var idx := (row * w + col) * 4;
    out[idx] := Blue(y_val, u_val);
    out[idx + 1] := Green(y_val, u_val, v_val);
    out[idx + 2] := Red(y_val, v_val);
    out[idx + 3] := 255;
  }

  /** The decoder's conversion, for any strides and any size, odd ones too. */
  method I420PlanesToBgra(y: Bytes, u: Bytes, v: Bytes, ys: nat, us: nat, vs: nat, w: nat, h: nat,
                          out: array<Byte>)
    requires PlanesCover(y, u, v, ys, us, vs, w, h) && out.Length == w * h * 4
    modifies out
    ensures out[..] == Bgra(y, u, v, ys, us, vs, w, h)
  {
    ghost var goal := Bgra(y, u, v, ys, us, vs, w, h);
    ghost var done := 0;
    for row := 0 to h
      invariant done == row * w <= w * h
      invariant forall k :: 0 <= k < 4 * done ==> out[k] == goal[k]
    {
      MulMono(row + 1, h, w);
      ghost var start := done;
      for col := 0 to w
        invariant done == start + col <= w * h
        invariant forall k :: 0 <= k < 4 * done ==> out[k] == goal[k]
      {
        WritePixel(y, u, v, ys, us, vs, w, h, row, col, out);
        done := done + 1;
      }
    }
  }

  // ----- Whole images through both conversions --------------------------------------------------------

  /** Decoding the tightly packed planes of the encoded image. */
  function RoundTrip(src: Image, w: nat, h: nat): Image
    requires IsImage(src, w, h) && Even(w) && Even(h)
  {
    var yuv, n, blocks := I420(src, w, h), w * h, w * h / 4;
    PackedPlanesCover(yuv, w, h);
    Bgra(yuv[..n], yuv[n..n + blocks], yuv[n + blocks..], w, w / 2, w / 2, w, h)
  }

  lemma PlaneCovers(plane: Bytes, cols: nat, rows: nat)
    requires |plane| == cols * rows
    ensures Covers(plane, cols, rows, cols)
  {
    if rows > 0 {
      OneRowLess(rows, cols);
    }
  }

  lemma PackedPlanesCover(yuv: Bytes, w: nat, h: nat)
    requires Even(w) && Even(h) && |yuv| == w * h * 3 / 2
    ensures w * h + w * h / 4 <= |yuv|
    ensures PlanesCover(yuv[..w * h], yuv[w * h..w * h + w * h / 4], yuv[w * h + w * h / 4..], w, w / 2, w / 2, w, h)
  {
    EvenArea(w, h);
    PlaneCovers(yuv[..w * h], w, h);
    PlaneCovers(yuv[w * h..w * h + w * h / 4], w / 2, h / 2);
    PlaneCovers(yuv[w * h + w * h / 4..], w / 2, h / 2);
    assert (h + 1) / 2 == h / 2 && (w + 1) / 2 == w / 2;
  }

  /** The decoder's value on packed planes, in terms of where it reads in the whole buffer. */
  lemma PackedDecoded(yuv: Bytes, n: nat, blocks: nat, ys: nat, us: nat, w: nat, h: nat,
                      row: nat, col: nat, c: nat, at: nat, k: nat)
    requires |yuv| == n + 2 * blocks && at < n && k < blocks && row < h && col < w && c < 4
    requires PlanesCover(yuv[..n], yuv[n..n + blocks], yuv[n + blocks..], ys, us, us, w, h)
    requires at == row * ys + col && k == (row / 2) * us + col / 2
    ensures var y, u, v := yuv[at], yuv[n + k], yuv[n + blocks + k];
            Decoded(yuv[..n], yuv[n..n + blocks], yuv[n + blocks..], ys, us, us, w, h, row, col, c) ==
            ChannelOf(y, u, v, c)
  {
  }

  /** Where the decoder reads, the packed planes hold what the encoder's sites received. */
  lemma PackedReads(src: Image, w: nat, h: nat, row: nat, col: nat) returns (n: nat, blocks: nat, at: nat, k: nat)
    requires IsImage(src, w, h) && Even(w) && Even(h) && row < h && col < w
    ensures n == w * h && blocks == w * h / 4 && at == row * w + col && k == (row / 2) * (w / 2) + col / 2
    ensures var yuv := I420(src, w, h);
            && |yuv| == n + 2 * blocks && at < n && k < blocks
            && yuv[at] == ValueAt(src, w, h, LumaSite(row, col))
            && yuv[n + k] == ValueAt(src, w, h, CbSite(row / 2, col / 2))
            && yuv[n + blocks + k] == ValueAt(src, w, h, CrSite(row / 2, col / 2))
  {
    n, blocks, at, k := w * h, w * h / 4, row * w + col, (row / 2) * (w / 2) + col / 2;
    ChromaAt(src, w, h, row / 2, col / 2);
    PixelInBounds(src, w, h, row, col);
    I420At(src, w, h, LumaSite(row, col));
  }

  lemma RoundTripDecodes(src: Image, w: nat, h: nat, row: nat, col: nat, c: nat, n: nat, blocks: nat, at: nat, k: nat)
    requires IsImage(src, w, h) && Even(w) && Even(h) && row < h && col < w && c < 4
    requires n == w * h && blocks == w * h / 4 && |I420(src, w, h)| == n + 2 * blocks
    requires at == row * w + col && k == (row / 2) * (w / 2) + col / 2 && at < n && k < blocks
    ensures IsImage(RoundTrip(src, w, h), w, h)
    ensures var yuv := I420(src, w, h);
            Channel(RoundTrip(src, w, h), w, h, row, col, c) == ChannelOf(yuv[at], yuv[n + k], yuv[n + blocks + k], c)
  {
    var yuv := I420(src, w, h);
    PackedPlanesCover(yuv, w, h);
    assert RoundTrip(src, w, h) == Bgra(yuv[..n], yuv[n..n + blocks], yuv[n + blocks..], w, w / 2, w / 2, w, h);
    BgraAt(yuv[..n], yuv[n..n + blocks], yuv[n + blocks..], w, w / 2, w / 2, w, h, row, col, c);
    PackedDecoded(yuv, n, blocks, w, w / 2, w, h, row, col, c, at, k);
  }

  /** What the decoder sees at a pixel: the pixel's own luma and its block's chroma. */
  lemma RoundTripAt(src: Image, w: nat, h: nat, row: nat, col: nat, c: nat)
    requires IsImage(src, w, h) && Even(w) && Even(h) && row < h && col < w && c < 4
    ensures IsImage(RoundTrip(src, w, h), w, h)
    ensures var y := ValueAt(src, w, h, LumaSite(row, col));
            var u, v := ValueAt(src, w, h, CbSite(row / 2, col / 2)), ValueAt(src, w, h, CrSite(row / 2, col / 2));
            Channel(RoundTrip(src, w, h), w, h, row, col, c) ==
            ChannelOf(y, u, v, c)
  {
    var n, blocks, at, k := PackedReads(src, w, h, row, col);
    RoundTripDecodes(src, w, h, row, col, c, n, blocks, at, k);
  }

  /** Every pixel equals the top-left pixel of its 2x2 block. */
  ghost predicate ConstantOnBlocks(src: Image, w: nat, h: nat)
    requires IsImage(src, w, h)
  {
    forall row: nat, col: nat, c: nat | row < h && col < w && c < 3 ::
      Channel(src, w, h, row, col, c) == Channel(src, w, h, 2 * (row / 2), 2 * (col / 2), c)
  }

  ghost predicate Grey(src: Image, w: nat, h: nat)
    requires IsImage(src, w, h)
  {
    forall row: nat, col: nat, c: nat | row < h && col < w && c < 3 ::
      Channel(src, w, h, row, col, c) == Channel(src, w, h, row, col, 0)
  }

  /** An image that is constant on 2x2 blocks comes back with red and green within 2, blue at most 2 below
      and 3 above, and alpha 255. */
  lemma BlockImagesSurvive(src: Image, w: nat, h: nat, row: nat, col: nat)
    requires IsImage(src, w, h) && Even(w) && Even(h) && row < h && col < w
    requires ConstantOnBlocks(src, w, h)
    ensures IsImage(RoundTrip(src, w, h), w, h)
    ensures Within(Channel(RoundTrip(src, w, h), w, h, row, col, 2), Channel(src, w, h, row, col, 2), 2)
    ensures Within(Channel(RoundTrip(src, w, h), w, h, row, col, 1), Channel(src, w, h, row, col, 1), 2)
    ensures BlueWithinBounds(Channel(RoundTrip(src, w, h), w, h, row, col, 0), Channel(src, w, h, row, col, 0))
    ensures Channel(RoundTrip(src, w, h), w, h, row, col, 3) == 255
  {
    PixelRoundTrip(Channel(src, w, h, row, col, 2), Channel(src, w, h, row, col, 1), Channel(src, w, h, row, col, 0));
    RoundTripAt(src, w, h, row, col, 0);
    RoundTripAt(src, w, h, row, col, 1);
    RoundTripAt(src, w, h, row, col, 2);
    RoundTripAt(src, w, h, row, col, 3);
  }

  /** Images of one grey meet both conditions, at any size. */
  lemma UniformImages(k: Byte, w: nat, h: nat)
    ensures IsImage(seq(w * h * 4, _ => k), w, h)
    ensures Grey(seq(w * h * 4, _ => k), w, h) && ConstantOnBlocks(seq(w * h * 4, _ => k), w, h)
  {
    var src: Image := seq(w * h * 4, _ => k);
    assert IsImage(src, w, h);
    forall row: nat, col: nat, c: nat | row < h && col < w && c < 4 ensures Channel(src, w, h, row, col, c) == k {
      PixelInBounds(src, w, h, row, col);
    }
  }

  lemma GreyPixel(src: Image, w: nat, h: nat, row: nat, col: nat)
    requires IsImage(src, w, h) && Grey(src, w, h) && row < h && col < w
    ensures Channel(src, w, h, row, col, 1) == Channel(src, w, h, row, col, 0) == Channel(src, w, h, row, col, 2)
  {
  }

  lemma GreyHasNoChroma(src: Image, w: nat, h: nat, row: nat, col: nat)
    requires IsImage(src, w, h) && Grey(src, w, h) && row < h && col < w
    ensures ValueAt(src, w, h, CbSite(row / 2, col / 2)) == 128 == ValueAt(src, w, h, CrSite(row / 2, col / 2))
  {
    GreyPixel(src, w, h, 2 * (row / 2), 2 * (col / 2));
    GreyRoundTrip(Channel(src, w, h, 2 * (row / 2), 2 * (col / 2), 0));
  }

  /** A grey image comes back with every channel within 1, whatever its blocks look like. */
  lemma GreyImagesSurvive(src: Image, w: nat, h: nat, row: nat, col: nat, c: nat)
    requires IsImage(src, w, h) && Even(w) && Even(h) && row < h && col < w && c < 3
    requires Grey(src, w, h)
    ensures IsImage(RoundTrip(src, w, h), w, h)
    ensures Within(Channel(RoundTrip(src, w, h), w, h, row, col, c), Channel(src, w, h, row, col, c), 1)
    ensures Channel(RoundTrip(src, w, h), w, h, row, col, 3) == 255
  {
    GreyPixel(src, w, h, row, col);
    GreyHasNoChroma(src, w, h, row, col);
    GreyRoundTrip(Channel(src, w, h, row, col, 0));
    RoundTripAt(src, w, h, row, col, c);
    RoundTripAt(src, w, h, row, col, 3);
  }
}
