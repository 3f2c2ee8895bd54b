/** The glyph atlas: shelves on one square page, and the glyphs that live on it. */
module Atlas {
  import opened Wrappers
  import opened Bytes

  datatype Page = Page(size: nat, shelfY: nat, shelfH: nat, cursorX: nat)

  datatype Rect = Rect(x: nat, y: nat, w: nat, h: nat)

  function EmptyPage(size: nat): Page {
    Page(size, 0, 0, 0)
  }

  predicate FitsRow(p: Page, w: nat) {
    p.cursorX + w <= p.size
  }

  /** The page after placing a `w` by `h` bitmap, and where it went; a page that refuses stays as it was. */
  function Placed(p: Page, w: nat, h: nat): (Page, Option<Rect>) {
    if w > p.size || h > p.size then (p, None)
    else
      var top := if FitsRow(p, w) then p.shelfY else p.shelfY + p.shelfH;
      var left := if FitsRow(p, w) then p.cursorX else 0;
      var tall := if FitsRow(p, w) then p.shelfH else 0;
      if top + h > p.size then (p, None)
      else (Page(p.size, top, if h > tall then h else tall, left + w), Some(Rect(left, top, w, h)))
  }

  predicate Inside(r: Rect, size: nat) {
    r.x + r.w <= size && r.y + r.h <= size
  }

  predicate Disjoint(a: Rect, b: Rect) {
    a.x + a.w <= b.x || b.x + b.w <= a.x || a.y + a.h <= b.y || b.y + b.h <= a.y
  }

  /** On a shelf already closed, or on the open shelf left of the cursor. */
  predicate Behind(p: Page, r: Rect) {
    r.y + r.h <= p.shelfY || (r.y == p.shelfY && r.x + r.w <= p.cursorX && r.h <= p.shelfH)
  }

  ghost predicate Tidy(p: Page, rects: seq<Rect>) {
    && p.shelfY + p.shelfH <= p.size && p.cursorX <= p.size
    && (forall i | 0 <= i < |rects| :: Inside(rects[i], p.size) && Behind(p, rects[i]))
    && (forall i, j | 0 <= i < j < |rects| :: Disjoint(rects[i], rects[j]))
  }

  /** Whatever the sizes, a placed rectangle is on the page and apart from all placed before it. */
  lemma PlacedIsTidy(p: Page, rects: seq<Rect>, w: nat, h: nat)
    requires Tidy(p, rects)
    ensures var (after, spot) := Placed(p, w, h);
            && after.size == p.size
            && (spot == None ==> after == p)
            && (spot.Some? ==> spot.value.w == w && spot.value.h == h && Tidy(after, rects + [spot.value])
                               && forall i | 0 <= i < |rects| :: Disjoint(rects[i], spot.value))
  {
  }

  /** Advancing the cursor by any width the page admits stays within 16 bits. */
  predicate CursorFits(p: Page) {
    p.cursorX + p.size < 0x1_0000
  }

  /** 16-bit sums never overflow, whatever has been placed, if and only if the page is at most 32767 wide. */
  lemma SumsFitExactly(size: nat)
    requires size < 0x1_0000
    ensures (forall p: Page, rects | p.size == size && Tidy(p, rects) :: CursorFits(p)) <==> size <= 0x7fff
  {
    var p := Placed(EmptyPage(size), size, 0).0;
    PlacedIsTidy(EmptyPage(size), [], size, 0);
    assert Tidy(p, [] + [Rect(0, 0, size, 0)]);
    assert CursorFits(p) <==> size <= 0x7fff;
  }

  // The allocator from its requests alone

  datatype Size = Size(w: nat, h: nat)

  function PageAfter(size: nat, sizes: seq<Size>): Page {
    if sizes == [] then EmptyPage(size)
    else
      var last := sizes[|sizes| - 1];
      Placed(PageAfter(size, sizes[..|sizes| - 1]), last.w, last.h).0
  }

  /** Where a request made after `sizes` goes. */
  function SpotAfter(size: nat, sizes: seq<Size>, w: nat, h: nat): Option<Rect> {
    Placed(PageAfter(size, sizes), w, h).1
  }

  /** What `sizes` were given, refusals left out. */
  function Given(size: nat, sizes: seq<Size>): seq<Rect> {
    if sizes == [] then []
    else
      var before, last := sizes[..|sizes| - 1], sizes[|sizes| - 1];
      match SpotAfter(size, before, last.w, last.h)
      case None => Given(size, before)
      case Some(r) => Given(size, before) + [r]
  }

  /** The lowest edge of some rectangles. */
  function Bottom(rects: seq<Rect>): nat {
    if rects == [] then 0
    else
      var above, r := Bottom(rects[..|rects| - 1]), rects[|rects| - 1];
      if r.y + r.h > above then r.y + r.h else above
  }

  /** The right upper corner of the last rectangle. */
  function Corner(rects: seq<Rect>): (nat, nat) {
    if rects == [] then (0, 0)
    else
      var r := rects[|rects| - 1];
      (r.x + r.w, r.y)
  }

  predicate Follows(p: Page, size: nat, rects: seq<Rect>) {
    p.size == size && (p.cursorX, p.shelfY) == Corner(rects) && p.shelfY + p.shelfH == Bottom(rects)
  }

  lemma FollowsNext(p: Page, size: nat, rects: seq<Rect>, w: nat, h: nat)
    requires Follows(p, size, rects)
    ensures var (after, spot) := Placed(p, w, h);
            Follows(after, size, if spot.Some? then rects + [spot.value] else rects)
  {
    var (after, spot) := Placed(p, w, h);
    if spot.Some? {
      assert (rects + [spot.value])[..|rects|] == rects;
    }
  }

  lemma {:induction false} PageFollows(size: nat, sizes: seq<Size>)
    ensures Follows(PageAfter(size, sizes), size, Given(size, sizes))
    decreases |sizes|
  {
    if sizes != [] {
      var before, last := sizes[..|sizes| - 1], sizes[|sizes| - 1];
      PageFollows(size, before);
      FollowsNext(PageAfter(size, before), size, Given(size, before), last.w, last.h);
    }
  }

  /** After any requests: the next goes right of the last one given if that leaves it on the page, else to the left
      edge below everything given so far; and it is refused exactly if it is larger than the page, or neither place
      leaves it on the page. */
  lemma NextSpotExactly(size: nat, sizes: seq<Size>, w: nat, h: nat)
    ensures var rects, spot := Given(size, sizes), SpotAfter(size, sizes, w, h);
            var right, below := Rect(Corner(rects).0, Corner(rects).1, w, h), Rect(0, Bottom(rects), w, h);
            && (spot == None <==> !Inside(right, size) && !Inside(below, size))
            && (spot.Some? ==> spot.value == if Inside(right, size) then right else below)
  {
    PageFollows(size, sizes);
    CornerIsAboveBottom(size, sizes);
  }

  lemma CornerIsAboveBottom(size: nat, sizes: seq<Size>)
    ensures Corner(Given(size, sizes)).1 <= Bottom(Given(size, sizes))
  {
  }

  // Requests of one size fill the page as a grid

  /** `count` lengths of `n` one after the other. */
  function Times(count: nat, n: nat): nat {
    if count == 0 then 0 else Times(count - 1, n) + n
  }

  lemma {:induction false} TimesIs(count: nat, n: nat)
    ensures Times(count, n) == count * n
  {
    if count > 0 {
      TimesIs(count - 1, n);
      assert (count - 1) * n + n == count * n;
    }
  }

  lemma {:induction false} TimesGrows(a: nat, b: nat, n: nat)
    requires a <= b
    ensures Times(a, n) <= Times(b, n)
    decreases b
  {
    if a < b {
      TimesGrows(a, b - 1, n);
    }
  }

  /** `count` of length `n` go into `size`, and no more. */
  predicate Counts(size: nat, n: nat, count: nat) {
    Times(count, n) <= size < Times(count, n) + n
  }

  lemma QuotientCounts(size: nat, n: nat)
    requires 0 < n <= size
    ensures Counts(size, n, size / n) && size / n > 0
  {
    assert size == size / n * n + size % n;
    TimesIs(size / n, n);
  }

  lemma FitsExactly(size: nat, n: nat, count: nat, i: nat)
    requires Counts(size, n, count)
    ensures Times(i, n) + n <= size <==> i < count
  {
    assert Times(i + 1, n) == Times(i, n) + n;
    if i < count {
      TimesGrows(i + 1, count, n);
    } else {
      TimesGrows(count, i, n);
    }
  }

  function Same(w: nat, h: nat, n: nat): (sizes: seq<Size>)
    ensures |sizes| == n
  {
    if n == 0 then [] else Same(w, h, n - 1) + [Size(w, h)]
  }

  lemma PageAfterSame(size: nat, w: nat, h: nat, n: nat)
    ensures PageAfter(size, Same(w, h, n + 1)) == Placed(PageAfter(size, Same(w, h, n)), w, h).0
  {
    var sizes := Same(w, h, n + 1);
    assert sizes[..|sizes| - 1] == Same(w, h, n);
  }

  /** The page once place `(row, col)` of the grid is taken. */
  function GridPage(size: nat, w: nat, h: nat, row: nat, col: nat): Page {
    Page(size, Times(row, h), h, Times(col, w) + w)
  }

  ghost predicate Grid(size: nat, w: nat, h: nat, columns: nat, rows: nat) {
    0 < w <= size && 0 < h <= size && Counts(size, w, columns) && Counts(size, h, rows) && columns > 0 && rows > 0
  }

  lemma NextInRow(size: nat, w: nat, h: nat, columns: nat, rows: nat, row: nat, col: nat, next: nat)
    requires Grid(size, w, h, columns, rows) && next == col + 1 < columns && row < rows
    ensures Placed(GridPage(size, w, h, row, col), w, h) ==
            (GridPage(size, w, h, row, next), Some(Rect(Times(next, w), Times(row, h), w, h)))
  {
    FitsExactly(size, w, columns, next);
    FitsExactly(size, h, rows, row);
  }

  lemma NextRow(size: nat, w: nat, h: nat, columns: nat, rows: nat, row: nat, next: nat, last: nat)
    requires Grid(size, w, h, columns, rows) && next == row + 1 <= rows && last == columns - 1
    ensures Placed(GridPage(size, w, h, row, last), w, h) ==
            if next < rows then (GridPage(size, w, h, next, 0), Some(Rect(0, Times(next, h), w, h)))
            else (GridPage(size, w, h, row, last), None)
  {
    FitsExactly(size, w, columns, columns);
    FitsExactly(size, h, rows, next);
  }

  lemma GridStart(size: nat, w: nat, h: nat)
    requires 0 < w <= size && 0 < h <= size
    ensures Placed(EmptyPage(size), w, h) == (GridPage(size, w, h, 0, 0), Some(Rect(0, 0, w, h)))
  {
  }

  /** The pages before request 0, 1, 2 and so on of one size. */
  ghost predicate Pages(size: nat, w: nat, h: nat, pages: nat -> Page) {
    pages(0) == EmptyPage(size) && forall k {:trigger NextPage(w, h, pages, k)} :: NextPage(w, h, pages, k)
  }

  predicate NextPage(w: nat, h: nat, pages: nat -> Page, k: nat) {
    pages(k + 1) == Placed(pages(k), w, h).0
  }

  lemma PagesNext(size: nat, w: nat, h: nat, pages: nat -> Page, k: nat, next: nat)
    requires Pages(size, w, h, pages) && next == k + 1
    ensures pages(next) == Placed(pages(k), w, h).0
  {
    assert NextPage(w, h, pages, k);
  }

  lemma {:induction false} AlongRow(size: nat, w: nat, h: nat, columns: nat, rows: nat, pages: nat -> Page, row: nat,
      col: nat, k: nat, last: nat)
    requires Grid(size, w, h, columns, rows) && Pages(size, w, h, pages) && row < rows && col < columns
    requires pages(k) == GridPage(size, w, h, row, 0) && last == k + col
    ensures pages(last) == GridPage(size, w, h, row, col)
    decreases col
  {
    if col > 0 {
      AlongRow(size, w, h, columns, rows, pages, row, col - 1, k, last - 1);
      NextInRow(size, w, h, columns, rows, row, col - 1, col);
      PagesNext(size, w, h, pages, last - 1, last);
    }
  }

  /** The request that opens a row is the one after the rows before it. */
  lemma {:induction false} DownRows(size: nat, w: nat, h: nat, columns: nat, rows: nat, pages: nat -> Page, row: nat)
    requires Grid(size, w, h, columns, rows) && Pages(size, w, h, pages) && row < rows
    ensures pages(Times(row, columns) + 1) == GridPage(size, w, h, row, 0)
    decreases row, 0
  {
    PagesNext(size, w, h, pages, Times(row, columns), Times(row, columns) + 1);
    if row == 0 {
      GridStart(size, w, h);
    } else {
      EndOfRow(size, w, h, columns, rows, pages, row - 1);
      NextRow(size, w, h, columns, rows, row - 1, row, columns - 1);
    }
  }

  lemma {:induction false} EndOfRow(size: nat, w: nat, h: nat, columns: nat, rows: nat, pages: nat -> Page, row: nat)
    requires Grid(size, w, h, columns, rows) && Pages(size, w, h, pages) && row < rows
    ensures pages(Times(row + 1, columns)) == GridPage(size, w, h, row, columns - 1)
    decreases row, 1
  {
    DownRows(size, w, h, columns, rows, pages, row);
    AlongRow(size, w, h, columns, rows, pages, row, columns - 1, Times(row, columns) + 1, Times(row + 1, columns));
  }

  /** A full grid stays as it is. */
  lemma {:induction false} GridFull(size: nat, w: nat, h: nat, columns: nat, rows: nat, pages: nat -> Page, k: nat)
    requires Grid(size, w, h, columns, rows) && Pages(size, w, h, pages) && k >= Times(rows, columns)
    ensures pages(k) == GridPage(size, w, h, rows - 1, columns - 1)
    decreases k
  {
    if k == Times(rows, columns) {
      EndOfRow(size, w, h, columns, rows, pages, rows - 1);
    } else {
      GridFull(size, w, h, columns, rows, pages, k - 1);
      NextRow(size, w, h, columns, rows, rows - 1, rows, columns - 1);
      PagesNext(size, w, h, pages, k - 1, k);
    }
  }

  lemma FirstOfRow(size: nat, w: nat, h: nat, columns: nat, rows: nat, pages: nat -> Page, row: nat)
    requires Grid(size, w, h, columns, rows) && Pages(size, w, h, pages) && row < rows
    ensures Placed(pages(Times(row, columns)), w, h).1 == Some(Rect(0, Times(row, h), w, h))
  {
    if row > 0 {
      EndOfRow(size, w, h, columns, rows, pages, row - 1);
      NextRow(size, w, h, columns, rows, row - 1, row, columns - 1);
    } else {
      GridStart(size, w, h);
    }
  }

  lemma PlaceInGrid(size: nat, w: nat, h: nat, columns: nat, rows: nat, pages: nat -> Page, row: nat, col: nat, k: nat)
    requires Grid(size, w, h, columns, rows) && Pages(size, w, h, pages)
    requires row < rows && col < columns && k == Times(row, columns) + col
    ensures Placed(pages(k), w, h).1 == Some(Rect(Times(col, w), Times(row, h), w, h))
  {
    if col == 0 {
      FirstOfRow(size, w, h, columns, rows, pages, row);
    } else {
      DownRows(size, w, h, columns, rows, pages, row);
      AlongRow(size, w, h, columns, rows, pages, row, col - 1, Times(row, columns) + 1, k);
      NextInRow(size, w, h, columns, rows, row, col - 1, col);
    }
  }

  lemma RefusedPastGrid(size: nat, w: nat, h: nat, columns: nat, rows: nat, pages: nat -> Page, k: nat)
    requires Grid(size, w, h, columns, rows) && Pages(size, w, h, pages) && k >= Times(rows, columns)
    ensures Placed(pages(k), w, h).1 == None
  {
    GridFull(size, w, h, columns, rows, pages, k);
    NextRow(size, w, h, columns, rows, rows - 1, rows, columns - 1);
  }

  lemma SamePages(size: nat, w: nat, h: nat) returns (pages: nat -> Page)
    ensures Pages(size, w, h, pages) && forall k: nat :: pages(k) == PageAfter(size, Same(w, h, k))
  {
    pages := (k: nat) => PageAfter(size, Same(w, h, k));
    forall k: nat ensures NextPage(w, h, pages, k) {
      PageAfterSame(size, w, h, k);
    }
  }

  /** Requests of one size: as many as go into the width stand side by side, as many such rows as go into the height on
      top of each other, in the order in which they are made; and every request after that is refused. */
  lemma SameSizeFillsTheGrid(size: nat, w: nat, h: nat, row: nat, col: nat, k: nat)
    requires 0 < w <= size && 0 < h <= size && col < size / w && k == row * (size / w) + col
    ensures SpotAfter(size, Same(w, h, k), w, h) ==
            if row < size / h then Some(Rect(col * w, row * h, w, h)) else None
  {
    QuotientCounts(size, w);
    QuotientCounts(size, h);
    TimesIs(row, size / w);
    var pages := SamePages(size, w, h);
    if row < size / h {
      PlaceInGrid(size, w, h, size / w, size / h, pages, row, col, k);
      TimesIs(col, w);
      TimesIs(row, h);
    } else {
      TimesGrows(size / h, row, size / w);
      RefusedPastGrid(size, w, h, size / w, size / h, pages, k);
    }
  }

  class AtlasPage {
    const size: u16
    var shelfY: u16
    var shelfH: u16
    var cursorX: u16
    ghost var rects: seq<Rect>

    function Contents(): Page
      reads this
    {
      Page(size as nat, shelfY as nat, shelfH as nat, cursorX as nat)
    }

    ghost predicate Valid()
      reads this
    {
      size <= 0x7fff && Tidy(Contents(), rects)
    }

    constructor (size: u16)
      requires size <= 0x7fff
      ensures Valid() && Contents() == EmptyPage(size as nat) && rects == []
    {
      this.size, shelfY, shelfH, cursorX, rects := size, 0, 0, 0, [];
    }

    method Place(w: u16, h: u16) returns (spot: Option<(u16, u16)>)
      requires Valid()
      modifies this
      ensures Valid()
      ensures Contents() == Placed(old(Contents()), w as nat, h as nat).0
      ensures match Placed(old(Contents()), w as nat, h as nat).1
              case None => spot == None && rects == old(rects)
              case Some(r) =>
                && spot.Some? && spot.value.0 as nat == r.x && spot.value.1 as nat == r.y
                && rects == old(rects) + [r]
    {
      PlacedIsTidy(Contents(), rects, w as nat, h as nat);
      if w > size || h > size { return None; }
      if cursorX + w > size {
        var nextY := shelfY + shelfH;
        if nextY + h > size { return None; }
        shelfY, shelfH, cursorX := nextY, 0, 0;
      }
      if shelfY + h > size { return None; }
      spot := Some((cursorX, shelfY));
      rects := rects + [Rect(cursorX as nat, shelfY as nat, w as nat, h as nat)];
      cursorX := cursorX + w;
      if h > shelfH {
        shelfH := h;
      }
    }
  }

  // The atlas

  datatype GlyphKey = GlyphKey(family: string, px: nat, codepoint: nat)

  datatype Slot = Slot(at: Rect, left: int, top: int)

  datatype Bitmap = Bitmap(w: u16, h: u16, left: int, top: int, coverage: seq<byte>)

  datatype Error = RasterFailed | PageFull | UploadFailed

  /** Pixel `(i, j)` of a bitmap. */
  function Pixel(b: Bitmap, i: nat, j: nat): byte {
    var at := j * (b.w as nat) + i;
    if at < |b.coverage| then b.coverage[at] else 0
  }

  /** What the page's texture shows at a point. */
  type Texture = (nat, nat) -> byte

  predicate Covers(r: Rect, x: nat, y: nat) {
    r.x <= x < r.x + r.w && r.y <= y < r.y + r.h
  }

  function Drawn(texture: Texture, r: Rect, b: Bitmap): Texture {
    (x: nat, y: nat) => if Covers(r, x, y) then Pixel(b, x - r.x, y - r.y) else texture(x, y)
  }

  /** A failed upload may have left anything on its own rectangle. */
  function Spoiled(texture: Texture, r: Rect, noise: Texture): Texture {
    (x: nat, y: nat) => if Covers(r, x, y) then noise(x, y) else texture(x, y)
  }

  ghost predicate Shows(texture: Texture, r: Rect, b: Bitmap) {
    r.w == b.w as nat && r.h == b.h as nat && forall x: nat, y: nat | Covers(r, x, y) ::
      texture(x, y) == Pixel(b, x - r.x, y - r.y)
  }

  /** The atlas, with every rectangle ever placed and the raster each slot was made from. */
  datatype State = State(
    page: Page,
    rects: seq<Rect>,
    slots: map<GlyphKey, Slot>,
    rasters: map<GlyphKey, Bitmap>,
    texture: Texture)

  function EmptyAtlas(size: nat, texture: Texture): State {
    State(EmptyPage(size), [], map[], map[], texture)
  }

  /** One request, with what rastering would give and how uploading would end. */
  datatype Call = Call(key: GlyphKey, raster: Option<Bitmap>, uploads: bool, noise: Texture)

  function Ensured(s: State, call: Call): (State, Result<Slot, Error>) {
    if call.key in s.slots then (s, Ok(s.slots[call.key]))
    else if call.raster == None then (s, Err(RasterFailed))
    else
      var b := call.raster.value;
      var (page, spot) := Placed(s.page, b.w as nat, b.h as nat);
      if spot == None then (s, Err(PageFull))
      else
        var r := spot.value;
        if !call.uploads then
          (s.(page := page, rects := s.rects + [r], texture := Spoiled(s.texture, r, call.noise)), Err(UploadFailed))
        else
          var slot := Slot(r, b.left, b.top);
          (State(page, s.rects + [r], s.slots[call.key := slot], s.rasters[call.key := b], Drawn(s.texture, r, b)),
            Ok(slot))
  }

  /** Every slot is a placed rectangle showing its raster. */
  ghost predicate Faithful(s: State) {
    && Tidy(s.page, s.rects) && s.slots.Keys == s.rasters.Keys
    && (forall key | key in s.slots :: s.slots[key].at in s.rects && Shows(s.texture, s.slots[key].at, s.rasters[key]))
  }

  lemma ElsewhereUnchanged(before: Texture, after: Texture, r: Rect, other: Rect, b: Bitmap)
    requires Shows(before, other, b) && Disjoint(other, r)
    requires forall x: nat, y: nat | !Covers(r, x, y) :: after(x, y) == before(x, y)
    ensures Shows(after, other, b)
  {
  }

  /** An upload, whether it succeeds or not, leaves every other slot's pixels alone. */
  lemma OthersStillShow(s: State, r: Rect, after: Texture)
    requires Faithful(s) && (forall i | 0 <= i < |s.rects| :: Disjoint(s.rects[i], r))
    requires forall x: nat, y: nat | !Covers(r, x, y) :: after(x, y) == s.texture(x, y)
    ensures forall key | key in s.slots :: Shows(after, s.slots[key].at, s.rasters[key])
  {
    forall key | key in s.slots ensures Shows(after, s.slots[key].at, s.rasters[key]) {
      var i :| 0 <= i < |s.rects| && s.rects[i] == s.slots[key].at;
      ElsewhereUnchanged(s.texture, after, r, s.slots[key].at, s.rasters[key]);
    }
  }

  lemma SpoiledIsFaithful(s: State, page: Page, r: Rect, noise: Texture)
    requires Faithful(s) && Tidy(page, s.rects + [r]) && (forall i | 0 <= i < |s.rects| :: Disjoint(s.rects[i], r))
    ensures Faithful(s.(page := page, rects := s.rects + [r], texture := Spoiled(s.texture, r, noise)))
  {
    OthersStillShow(s, r, Spoiled(s.texture, r, noise));
    assert forall other | other in s.rects :: other in s.rects + [r];
  }

  lemma UploadedIsFaithful(s: State, page: Page, r: Rect, key: GlyphKey, b: Bitmap)
    requires Faithful(s) && Tidy(page, s.rects + [r]) && (forall i | 0 <= i < |s.rects| :: Disjoint(s.rects[i], r))
    requires key !in s.slots && r.w == b.w as nat && r.h == b.h as nat
    ensures Faithful(State(page, s.rects + [r], s.slots[key := Slot(r, b.left, b.top)], s.rasters[key := b],
            Drawn(s.texture, r, b)))
  {
    OthersStillShow(s, r, Drawn(s.texture, r, b));
    var rects := s.rects + [r];
    assert forall other | other in s.rects :: other in rects;
    assert rects[|s.rects|] == r;
    assert Shows(Drawn(s.texture, r, b), r, b);
  }

  lemma EnsuredIsFaithful(s: State, call: Call)
    requires Faithful(s)
    ensures Faithful(Ensured(s, call).0)
  {
    if call.key !in s.slots && call.raster.Some? {
      var b := call.raster.value;
      var (page, spot) := Placed(s.page, b.w as nat, b.h as nat);
      PlacedIsTidy(s.page, s.rects, b.w as nat, b.h as nat);
      if spot.Some? {
        if call.uploads {
          UploadedIsFaithful(s, page, spot.value, call.key, b);
        } else {
          SpoiledIsFaithful(s, page, spot.value, call.noise);
        }
      }
    }
  }

  /** A request never moves or redraws a slot that is there. */
  lemma SlotsStay(s: State, call: Call, key: GlyphKey)
    requires Faithful(s) && key in s.slots
    ensures var t := Ensured(s, call).0;
            key in t.slots && t.slots[key] == s.slots[key] && key in t.rasters && t.rasters[key] == s.rasters[key]
  {
  }

  class GlyphAtlas {
    const page: AtlasPage
    var slots: map<GlyphKey, Slot>
    var texture: Texture
    ghost var rasters: map<GlyphKey, Bitmap>

    ghost function Contents(): State
      reads this, page
    {
      State(page.Contents(), page.rects, slots, rasters, texture)
    }

    ghost predicate Valid()
      reads this, page
    {
      page.Valid() && Faithful(Contents())
    }

    constructor (size: u16, texture: Texture)
      requires size <= 0x7fff
      ensures Valid() && fresh(page) && Contents() == EmptyAtlas(size as nat, texture)
    {
      page := new AtlasPage(size);
      this.texture := texture;
      slots, rasters := map[], map[];
    }

    /** The slot for a glyph, rastered and uploaded at most once for each key. */
    method Ensure(call: Call) returns (r: Result<Slot, Error>)
      requires Valid()
      modifies this, page
      ensures Valid() && (Contents(), r) == Ensured(old(Contents()), call)
    {
      EnsuredIsFaithful(Contents(), call);
      if call.key in slots { return Ok(slots[call.key]); }
      if call.raster == None { return Err(RasterFailed); }
      var bitmap := call.raster.value;
      var spot := page.Place(bitmap.w, bitmap.h);
      if spot == None { return Err(PageFull); }
      var at := Rect(spot.value.0 as nat, spot.value.1 as nat, bitmap.w as nat, bitmap.h as nat);
      if !call.uploads {
        texture := Spoiled(texture, at, call.noise);
        return Err(UploadFailed);
      }
      texture := Drawn(texture, at, bitmap);
      var slot := Slot(at, bitmap.left, bitmap.top);
      slots := slots[call.key := slot];
      rasters := rasters[call.key := bitmap];
      r := Ok(slot);
    }
  }

  // Whole runs

  function EnsuredAll(s: State, calls: seq<Call>): State {
    if calls == [] then s else Ensured(EnsuredAll(s, calls[..|calls| - 1]), calls[|calls| - 1]).0
  }

  lemma {:induction false} AlwaysFaithful(s: State, calls: seq<Call>)
    requires Faithful(s)
    ensures Faithful(EnsuredAll(s, calls))
    decreases |calls|
  {
    if calls != [] {
      AlwaysFaithful(s, calls[..|calls| - 1]);
      EnsuredIsFaithful(EnsuredAll(s, calls[..|calls| - 1]), calls[|calls| - 1]);
    }
  }

  /** Permanence: a slot once returned for a key keeps showing that key's raster through any later calls,
      with any sizes and any failures among them, and the key keeps its slot. */
  lemma {:induction false} SlotsArePermanent(s: State, calls: seq<Call>, key: GlyphKey)
    requires Faithful(s) && key in s.slots
    ensures var t := EnsuredAll(s, calls);
            && key in t.slots && t.slots[key] == s.slots[key]
            && Shows(t.texture, s.slots[key].at, s.rasters[key])
            && key in t.rasters && t.rasters[key] == s.rasters[key]
    decreases |calls|
  {
    if calls != [] {
      var init := calls[..|calls| - 1];
      SlotsArePermanent(s, init, key);
      AlwaysFaithful(s, init);
      SlotsStay(EnsuredAll(s, init), calls[|calls| - 1], key);
      AlwaysFaithful(s, calls);
    }
  }

  /** Rectangles placed over any run, for slots or for failed uploads, stay on the page and apart. */
  lemma {:induction false} RectanglesStayApart(size: nat, texture: Texture, calls: seq<Call>)
    ensures var t := EnsuredAll(EmptyAtlas(size, texture), calls);
            && (forall i | 0 <= i < |t.rects| :: Inside(t.rects[i], size))
            && (forall i, j | 0 <= i < j < |t.rects| :: Disjoint(t.rects[i], t.rects[j]))
            && (forall a, b | a in t.slots && b in t.slots && t.slots[a].at != t.slots[b].at ::
               Disjoint(t.slots[a].at, t.slots[b].at))
  {
    var s := EmptyAtlas(size, texture);
    AlwaysFaithful(s, calls);
    SizeStays(s, calls);
    var t := EnsuredAll(s, calls);
    forall a, b | a in t.slots && b in t.slots && t.slots[a].at != t.slots[b].at
      ensures Disjoint(t.slots[a].at, t.slots[b].at)
    {
      var i :| 0 <= i < |t.rects| && t.rects[i] == t.slots[a].at;
      var j :| 0 <= j < |t.rects| && t.rects[j] == t.slots[b].at;
      assert i < j || j < i;
    }
  }

  lemma {:induction false} SizeStays(s: State, calls: seq<Call>)
    ensures EnsuredAll(s, calls).page.size == s.page.size
    decreases |calls|
  {
    if calls != [] {
      SizeStays(s, calls[..|calls| - 1]);
    }
  }

  // One request after any others

  lemma {:induction false} AlwaysFollows(size: nat, texture: Texture, calls: seq<Call>)
    ensures var s := EnsuredAll(EmptyAtlas(size, texture), calls); Follows(s.page, size, s.rects)
    decreases |calls|
  {
    if calls != [] {
      var init, last := calls[..|calls| - 1], calls[|calls| - 1];
      AlwaysFollows(size, texture, init);
      var s := EnsuredAll(EmptyAtlas(size, texture), init);
      if last.raster.Some? {
        FollowsNext(s.page, size, s.rects, last.raster.value.w as nat, last.raster.value.h as nat);
      }
    }
  }

  /** There is room for a bitmap right of the last rectangle, or below all of them. */
  predicate HasRoom(size: nat, rects: seq<Rect>, b: Bitmap) {
    || Inside(Rect(Corner(rects).0, Corner(rects).1, b.w as nat, b.h as nat), size)
    || Inside(Rect(0, Bottom(rects), b.w as nat, b.h as nat), size)
  }

  /** Any request, after any others: what it is answered, and that nothing is lost by it. A known key needs nothing; a
      new one needs its raster, room for it, and its upload, in that order. */
  lemma AnswerExactly(size: nat, texture: Texture, calls: seq<Call>, call: Call)
    ensures var s := EnsuredAll(EmptyAtlas(size, texture), calls); var (t, r) := Ensured(s, call);
            && (call.key in s.slots ==> r == Ok(s.slots[call.key]))
            && (call.key !in s.slots ==>
              && (r == Err(RasterFailed) <==> call.raster == None)
              && (r == Err(PageFull) <==> call.raster.Some? && !HasRoom(size, s.rects, call.raster.value))
              && (r == Err(UploadFailed) <==>
                   call.raster.Some? && HasRoom(size, s.rects, call.raster.value) && !call.uploads))
            && (r.Ok? ==> call.key in t.slots && t.slots[call.key] == r.value)
            && (r.Err? ==> t.slots == s.slots)
            && (call.key in s.slots || call.raster == None || r == Err(PageFull) ==> t == s)
  {
    AlwaysFollows(size, texture, calls);
    AlwaysTidy(size, texture, calls);
  }

  lemma AlwaysTidy(size: nat, texture: Texture, calls: seq<Call>)
    ensures Tidy(EnsuredAll(EmptyAtlas(size, texture), calls).page, EnsuredAll(EmptyAtlas(size, texture), calls).rects)
  {
    AlwaysFaithful(EmptyAtlas(size, texture), calls);
  }

  lemma ServedSlot(s: State, call: Call)
    requires Faithful(s) && call.key !in s.slots && Ensured(s, call).1.Ok?
    ensures var (t, slot, b) := (Ensured(s, call).0, Ensured(s, call).1.value, call.raster.value);
            && Faithful(t) && call.key in t.slots && t.slots[call.key] == slot && t.rasters[call.key] == b
            && slot.at.w == b.w as nat && slot.at.h == b.h as nat && slot.left == b.left && slot.top == b.top
  {
    EnsuredIsFaithful(s, call);
    PlacedIsTidy(s.page, s.rects, call.raster.value.w as nat, call.raster.value.h as nat);
  }

  lemma ShownAt(texture: Texture, r: Rect, b: Bitmap, i: nat, j: nat, at: nat)
    requires Shows(texture, r, b) && i < r.w && j < r.h && at == j * (b.w as nat) + i
    ensures texture(r.x + i, r.y + j) == if at < |b.coverage| then b.coverage[at] else 0
  {
    assert Covers(r, r.x + i, r.y + j);
  }

  /** A glyph once served: whatever is requested after it, its key gives the same slot, with the bearings of its bitmap,
      and the page shows the bitmap there, row by row. */
  lemma ServedGlyphStays(s: State, call: Call, t: State, slot: Slot, b: Bitmap, later: seq<Call>, i: nat, j: nat,
      at: nat)
    requires Faithful(s) && call.key !in s.slots && call.raster == Some(b) && Ensured(s, call) == (t, Ok(slot))
    requires i < b.w as nat && j < b.h as nat && at == j * (b.w as nat) + i
    ensures slot.at.w == b.w as nat && slot.at.h == b.h as nat && slot.left == b.left && slot.top == b.top
    ensures var u := EnsuredAll(t, later);
            && call.key in u.slots && u.slots[call.key] == slot
            && u.texture(slot.at.x + i, slot.at.y + j) == if at < |b.coverage| then b.coverage[at] else 0
  {
    ServedSlot(s, call);
    SlotIsShown(t, later, call.key, slot, b, i, j, at);
  }

  lemma SlotIsShown(t: State, later: seq<Call>, key: GlyphKey, slot: Slot, b: Bitmap, i: nat, j: nat, at: nat)
    requires at == j * (b.w as nat) + i
    requires Faithful(t) && key in t.slots && t.slots[key] == slot && t.rasters[key] == b
    requires slot.at.w == b.w as nat && slot.at.h == b.h as nat && i < slot.at.w && j < slot.at.h
    ensures var u := EnsuredAll(t, later);
            && key in u.slots && u.slots[key] == slot
            && u.texture(slot.at.x + i, slot.at.y + j) == if at < |b.coverage| then b.coverage[at] else 0
  {
    SlotsArePermanent(t, later, key);
    ShownAt(EnsuredAll(t, later).texture, slot.at, b, i, j, at);
  }
}
