/** Where the encoder puts each byte of the I420 buffer: the Y plane, then Cb, then Cr, each chroma
    plane with one byte per 2x2 block. */
module PlaneLayout {

  /** A write of the encoder; chroma coordinates count blocks. */
  datatype Site =
    | LumaSite(row: nat, col: nat)
    | CbSite(row: nat, col: nat)
    | CrSite(row: nat, col: nat)

  /** The sites the two loop nests visit; the second one steps by 2. */
  predicate Visited(s: Site, w: nat, h: nat) {
    match s
    case LumaSite(row, col) => row < h && col < w
    case CbSite(row, col) => 2 * row < h && 2 * col < w
    case CrSite(row, col) => 2 * row < h && 2 * col < w
  }

  /** The index the encoder computes for a write; the divisions round down, for odd sizes too. */
  function Index(s: Site, w: nat, h: nat): nat {
    match s
    case LumaSite(row, col) => row * w + col
    case CbSite(row, col) => w * h + row * (w / 2) + col
    case CrSite(row, col) => w * h + w * h / 4 + row * (w / 2) + col
  }

  predicate Even(n: nat) { n % 2 == 0 }

  // ----- Nonlinear arithmetic, once --------------------------------------------------------------

  lemma MulMono(a: nat, b: nat, c: nat)
    requires a <= b
    ensures a * c <= b * c
  {
  }

  lemma UniqueQuotient(d: nat, q: nat, r: nat, q': nat, r': nat)
    requires r < d && r' < d && q * d + r == q' * d + r'
    ensures q == q' && r == r'
  {
    if q < q' {
      MulMono(q + 1, q', d);
    } else if q' < q {
      MulMono(q' + 1, q, d);
    }
  }

  lemma DivModUnique(d: nat, q: nat, r: nat)
    requires r < d
    ensures (q * d + r) / d == q && (q * d + r) % d == r
  {
    var n := q * d + r;
    UniqueQuotient(d, q, r, n / d, n % d);
  }

  lemma Flatten(row: nat, col: nat, w: nat, h: nat)
    requires row < h && col < w
    ensures row * w + col < w * h
    ensures (row * w + col) / w == row && (row * w + col) % w == col
  {
    MulMono(row + 1, h, w);
    DivModUnique(w, row, col);
  }

  lemma Unflatten(k: nat, w: nat, h: nat)
    requires k < w * h
    ensures w > 0 && k / w < h && k % w < w && (k / w) * w + k % w == k
  {
    if k / w >= h {
      MulMono(h, k / w, w);
    }
  }

  /** For even sizes the areas divide out. */
  lemma EvenArea(w: nat, h: nat)
    requires Even(w) && Even(h)
    ensures w * h / 4 == (w / 2) * (h / 2)
    ensures w * h * 3 / 2 == w * h + 2 * ((w / 2) * (h / 2))
  {
    var a, b := w / 2, h / 2;
    assert w * h == (2 * a) * (2 * b) == 4 * (a * b);
  }

  // ----- The writes partition the buffer ------------------------------------------------------------

  /** Row and column of the k-th cell of a plane, row by row. */
  function Cell(k: nat, w: nat, h: nat): (rc: (nat, nat))
    requires k < w * h
    ensures rc.0 < h && rc.1 < w && rc.0 * w + rc.1 == k
  {
    Unflatten(k, w, h);
    (k / w, k % w)
  }

  lemma CellOfFlat(row: nat, col: nat, w: nat, h: nat)
    requires row < h && col < w
    ensures row * w + col < w * h && Cell(row * w + col, w, h) == (row, col)
  {
    Flatten(row, col, w, h);
  }

  /** The site whose byte stands at index `k`. */
  function SiteOf(k: nat, w: nat, h: nat): Site
    requires Even(w) && Even(h) && k < w * h * 3 / 2
  {
    EvenArea(w, h);
    var n, blocks := w * h, (w / 2) * (h / 2);
    if k < n then
      var (row, col) := Cell(k, w, h);
      LumaSite(row, col)
    else if k < n + blocks then
      var (row, col) := Cell(k - n, w / 2, h / 2);
      CbSite(row, col)
    else
      var (row, col) := Cell(k - n - blocks, w / 2, h / 2);
      CrSite(row, col)
  }

  /** Every index of the buffer is written ... */
  lemma EveryIndexIsWritten(k: nat, w: nat, h: nat)
    requires Even(w) && Even(h) && k < w * h * 3 / 2
    ensures Visited(SiteOf(k, w, h), w, h) && Index(SiteOf(k, w, h), w, h) == k
  {
    EvenArea(w, h);
  }

  lemma LumaIndex(row: nat, col: nat, w: nat, h: nat)
    requires Even(w) && Even(h) && row < h && col < w
    ensures var k := row * w + col;
            k < w * h * 3 / 2 && SiteOf(k, w, h) == LumaSite(row, col)
  {
    CellOfFlat(row, col, w, h);
  }

  lemma CbIndex(row: nat, col: nat, w: nat, h: nat)
    requires Even(w) && Even(h) && row < h / 2 && col < w / 2
    ensures var k := w * h + (row * (w / 2) + col);
            k < w * h * 3 / 2 && SiteOf(k, w, h) == CbSite(row, col)
  {
    CellOfFlat(row, col, w / 2, h / 2);
    EvenArea(w, h);
  }

  lemma CrIndex(row: nat, col: nat, w: nat, h: nat)
    requires Even(w) && Even(h) && row < h / 2 && col < w / 2
    ensures var k := w * h + w * h / 4 + (row * (w / 2) + col);
            k < w * h * 3 / 2 && SiteOf(k, w, h) == CrSite(row, col)
  {
    CellOfFlat(row, col, w / 2, h / 2);
    EvenArea(w, h);
  }

  /** ... inside the buffer, and by one site only. */
  lemma NoIndexIsWrittenTwice(s: Site, w: nat, h: nat)
    requires Even(w) && Even(h) && Visited(s, w, h)
    ensures Index(s, w, h) < w * h * 3 / 2 && SiteOf(Index(s, w, h), w, h) == s
  {
    match s {
      case LumaSite(row, col) => LumaIndex(row, col, w, h);
      case CbSite(row, col) => CbIndex(row, col, w, h);
      case CrSite(row, col) => CrIndex(row, col, w, h);
    }
  }

  // ----- The order of the writes ---------------------------------------------------------------------

  function LumaRow(row: nat, cols: nat): seq<Site> {
    if cols == 0 then [] else LumaRow(row, cols - 1) + [LumaSite(row, cols - 1)]
  }

  function LumaRows(rows: nat, w: nat): seq<Site> {
    if rows == 0 then [] else LumaRows(rows - 1, w) + LumaRow(rows - 1, w)
  }

  function ChromaRow(row: nat, cols: nat): seq<Site> {
    if cols == 0 then [] else ChromaRow(row, cols - 1) + [CbSite(row, cols - 1), CrSite(row, cols - 1)]
  }

  function ChromaRows(rows: nat, cols: nat): seq<Site> {
    if rows == 0 then [] else ChromaRows(rows - 1, cols) + ChromaRow(rows - 1, cols)
  }

  /** The writes of both loop nests, in order, for any size: odd sizes round the blocks up. */
  function Schedule(w: nat, h: nat): seq<Site> {
    LumaRows(h, w) + ChromaRows((h + 1) / 2, (w + 1) / 2)
  }

  lemma InConcat(s: Site, a: seq<Site>, b: seq<Site>)
    ensures s in a + b <==> s in a || s in b
  {
  }

  lemma {:induction false} InLumaRow(s: Site, row: nat, cols: nat)
    ensures s in LumaRow(row, cols) <==> s.LumaSite? && s.row == row && s.col < cols
  {
    if cols == 0 {
    } else {
      InLumaRow(s, row, cols - 1);
      InConcat(s, LumaRow(row, cols - 1), [LumaSite(row, cols - 1)]);
    }
  }

  lemma {:induction false} InLumaRows(s: Site, rows: nat, w: nat)
    ensures s in LumaRows(rows, w) <==> s.LumaSite? && s.row < rows && s.col < w
  {
    if rows == 0 {
    } else {
      InLumaRows(s, rows - 1, w);
      InLumaRow(s, rows - 1, w);
      InConcat(s, LumaRows(rows - 1, w), LumaRow(rows - 1, w));
    }
  }

  lemma {:induction false} InChromaRow(s: Site, row: nat, cols: nat)
    ensures s in ChromaRow(row, cols) <==> !s.LumaSite? && s.row == row && s.col < cols
  {
    if cols == 0 {
    } else {
      InChromaRow(s, row, cols - 1);
      InConcat(s, ChromaRow(row, cols - 1), [CbSite(row, cols - 1), CrSite(row, cols - 1)]);
    }
  }

  lemma {:induction false} InChromaRows(s: Site, rows: nat, cols: nat)
    ensures s in ChromaRows(rows, cols) <==> !s.LumaSite? && s.row < rows && s.col < cols
  {
    if rows == 0 {
    } else {
      InChromaRows(s, rows - 1, cols);
      InChromaRow(s, rows - 1, cols);
      InConcat(s, ChromaRows(rows - 1, cols), ChromaRow(rows - 1, cols));
    }
  }

  /** Every site is scheduled. */
  lemma ScheduleIsComplete(s: Site, w: nat, h: nat)
    ensures s in Schedule(w, h) <==> Visited(s, w, h)
  {
    InLumaRows(s, h, w);
    InChromaRows(s, (h + 1) / 2, (w + 1) / 2);
    InConcat(s, LumaRows(h, w), ChromaRows((h + 1) / 2, (w + 1) / 2));
  }

  // ----- Odd sizes -----------------------------------------------------------------------------------

  predicate Collide(s: Site, t: Site, w: nat, h: nat) {
    s != t && Visited(s, w, h) && Visited(t, w, h) && Index(s, w, h) == Index(t, w, h)
  }

  /** Odd height: the last block row of Cb runs into the first row of Cr. */
  lemma OddHeightCollision(w: nat, h: nat)
    requires w > 0 && Even(w) && !Even(h)
    ensures Collide(CbSite(h / 2, w / 4), CrSite(0, 0), w, h)
  {
    var m, k := w / 2, h / 2;
    assert w * h == (2 * m) * (2 * k + 1) == 4 * (k * m) + 2 * m;
  }

  /** Odd width: the last block column of one row is the first of the next, or the first of Cr. */
  lemma OddWidthCollision(w: nat, h: nat) returns (s: Site, t: Site)
    requires h > 0 && !Even(w)
    ensures Collide(s, t, w, h)
  {
    if h > 2 {
      s, t := CbSite(0, w / 2), CbSite(1, 0);
    } else {
      s, t := CbSite(0, w * h / 4), CrSite(0, 0);
      assert h == 1 || h == 2;
    }
  }

  /** The planes are laid out without overlap exactly for even sizes. */
  lemma OverlapFreeExactlyWhenEven(w: nat, h: nat)
    requires w > 0 && h > 0
    ensures (Even(w) && Even(h)) <==> !exists s, t :: Collide(s, t, w, h)
  {
    if Even(w) && Even(h) {
      forall s, t | Collide(s, t, w, h) ensures false {
        NoIndexIsWrittenTwice(s, w, h);
        NoIndexIsWrittenTwice(t, w, h);
      }
    } else if Even(w) {
      OddHeightCollision(w, h);
    } else {
      var s, t := OddWidthCollision(w, h);
    }
  }

  // ----- Which sizes stay inside the buffer ----------------------------------------------------------

  /** Offset of the last chroma write in its plane. */
  function LastBlock(w: nat, h: nat): nat
    requires w > 0 && h > 0
  {
    ((h - 1) / 2) * (w / 2) + (w - 1) / 2
  }

  /** The last write, to Cr, falls inside the buffer. */
  predicate LastWriteFits(w: nat, h: nat) {
    w == 0 || h == 0 || w * h / 4 + LastBlock(w, h) < w * h / 2
  }

  /** The condition in terms of the size alone. */
  predicate SizeFits(w: nat, h: nat) {
    w == 0 || Even(h) || w == 2 || (!Even(w) && w < h)
  }

  /** A size in whole blocks and odd rests. */
  lemma Area(m: nat, p: nat, k: nat, q: nat)
    ensures (2 * m + p) * (2 * k + q) == 4 * (k * m) + 2 * (k * p) + 2 * (m * q) + p * q
  {
  }

  lemma OneRowLess(k: nat, m: nat)
    requires k > 0
    ensures (k - 1) * m == k * m - m
  {
  }

  lemma QuarterAndHalf(blocks: nat, rest: nat)
    ensures (4 * blocks + rest) / 4 == blocks + rest / 4
    ensures (4 * blocks + rest) / 2 == 2 * blocks + rest / 2
  {
  }

  lemma FitsBothEven(m: nat, k: nat)
    requires m > 0 && k > 0
    ensures LastWriteFits(2 * m, 2 * k)
  {
    var blocks := k * m;
    Area(m, 0, k, 0);
    OneRowLess(k, m);
    QuarterAndHalf(blocks, 0);
    assert (2 * k - 1) / 2 == k - 1 && (2 * m - 1) / 2 == m - 1 && 2 * m / 2 == m;
    assert LastBlock(2 * m, 2 * k) == blocks - 1;
  }

  lemma FitsOddWidth(m: nat, k: nat)
    requires k > 0
    ensures LastWriteFits(2 * m + 1, 2 * k)
  {
    var blocks := k * m;
    Area(m, 1, k, 0);
    OneRowLess(k, m);
    QuarterAndHalf(blocks, 2 * k);
    assert (2 * k - 1) / 2 == k - 1 && (2 * m + 1) / 2 == m;
    assert LastBlock(2 * m + 1, 2 * k) == blocks;
  }

  lemma FitsOddHeight(m: nat, k: nat)
    requires m > 0
    ensures LastWriteFits(2 * m, 2 * k + 1) <==> m == 1
  {
    var blocks := k * m;
    Area(m, 0, k, 1);
    QuarterAndHalf(blocks, 2 * m);
    assert 2 * k / 2 == k && (2 * m - 1) / 2 == m - 1 && 2 * m / 2 == m;
    assert LastBlock(2 * m, 2 * k + 1) == blocks + m - 1;
  }

  lemma FitsBothOdd(m: nat, k: nat)
    ensures LastWriteFits(2 * m + 1, 2 * k + 1) <==> m < k
  {
    var blocks, rest := k * m, 2 * k + 2 * m + 1;
    Area(m, 1, k, 1);
    QuarterAndHalf(blocks, rest);
    assert 2 * k / 2 == k && (2 * m + 1) / 2 == m && 2 * m / 2 == m;
    assert LastBlock(2 * m + 1, 2 * k + 1) == blocks + m;
  }

  lemma LastWriteFitsExactly(w: nat, h: nat)
    ensures LastWriteFits(w, h) <==> SizeFits(w, h)
  {
    var m, k := w / 2, h / 2;
    if w == 0 || h == 0 {
    } else if Even(w) && Even(h) {
      FitsBothEven(m, k);
    } else if Even(h) {
      FitsOddWidth(m, k);
    } else if Even(w) {
      FitsOddHeight(m, k);
    } else {
      FitsBothOdd(m, k);
    }
  }

  /** No chroma site is written behind the last one. */
  lemma ChromaIndexBound(row: nat, col: nat, w: nat, h: nat)
    requires 2 * row < h && 2 * col < w
    ensures row * (w / 2) + col <= LastBlock(w, h)
  {
    MulMono(row, (h - 1) / 2, w / 2);
    assert col <= (w - 1) / 2;
  }

  lemma HalfMore(n: nat)
    ensures n * 3 / 2 == n + n / 2
  {
  }

  lemma LumaFits(row: nat, col: nat, w: nat, h: nat)
    requires row < h && col < w
    ensures row * w + col < w * h * 3 / 2
  {
    Flatten(row, col, w, h);
    HalfMore(w * h);
  }

  lemma ChromaFits(row: nat, col: nat, w: nat, h: nat)
    requires 2 * row < h && 2 * col < w && LastWriteFits(w, h)
    ensures w * h + w * h / 4 + (row * (w / 2) + col) < w * h * 3 / 2
  {
    ChromaIndexBound(row, col, w, h);
    HalfMore(w * h);
  }

  lemma SiteFits(s: Site, w: nat, h: nat)
    requires Visited(s, w, h) && LastWriteFits(w, h)
    ensures Index(s, w, h) < w * h * 3 / 2
  {
    match s {
      case LumaSite(row, col) => LumaFits(row, col, w, h);
      case CbSite(row, col) => ChromaFits(row, col, w, h);
      case CrSite(row, col) => ChromaFits(row, col, w, h);
    }
  }

  lemma LastSiteDoesNotFit(w: nat, h: nat)
    requires !LastWriteFits(w, h)
    ensures var s := CrSite((h - 1) / 2, (w - 1) / 2);
            Visited(s, w, h) && Index(s, w, h) >= w * h * 3 / 2
  {
    HalfMore(w * h);
  }

  /** For any size, all writes fall inside the buffer exactly when the height is even, or the width is 2,
      or both are odd and the image is higher than wide (or it is empty); otherwise the encoder panics. */
  lemma WritesFitExactly(w: nat, h: nat)
    ensures (forall s :: Visited(s, w, h) ==> Index(s, w, h) < w * h * 3 / 2) <==> SizeFits(w, h)
  {
    LastWriteFitsExactly(w, h);
    if LastWriteFits(w, h) {
      forall s | Visited(s, w, h) ensures Index(s, w, h) < w * h * 3 / 2 {
        SiteFits(s, w, h);
      }
    } else {
      LastSiteDoesNotFit(w, h);
    }
  }

  /** A write outside decides for all; and if there is one, the last write to Cr is outside too. */
  lemma SitesDecide(w: nat, h: nat, s: Site)
    ensures Visited(s, w, h) && Index(s, w, h) >= w * h * 3 / 2 ==> !SizeFits(w, h)
    ensures !SizeFits(w, h) ==> w > 0 && h > 0 && Index(CrSite((h - 1) / 2, (w - 1) / 2), w, h) >= w * h * 3 / 2
  {
    LastWriteFitsExactly(w, h);
    if LastWriteFits(w, h) {
      if Visited(s, w, h) {
        SiteFits(s, w, h);
      }
    } else {
      LastSiteDoesNotFit(w, h);
    }
  }

  /** So does what the encoder's loops find out: about the last write to Cr, or about one outside. */
  lemma OneSiteDecides(w: nat, h: nat, rows: nat, cols: nat, len: nat, ok: bool, bad: Site)
    ensures rows == (h + 1) / 2 && cols == (w + 1) / 2 && len == w * h * 3 / 2
            && (ok && rows > 0 && cols > 0 ==> Index(CrSite(rows - 1, cols - 1), w, h) < len)
            && (!ok ==> Visited(bad, w, h) && Index(bad, w, h) >= len)
            ==> (ok <==> SizeFits(w, h))
  {
    SitesDecide(w, h, bad);
    if w > 0 && h > 0 && rows == (h + 1) / 2 && cols == (w + 1) / 2 {
      assert CrSite(rows - 1, cols - 1) == CrSite((h - 1) / 2, (w - 1) / 2);
    }
  }
}
