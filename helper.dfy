/** helper.py: cutting a slide image into a grid of equal tiles (`crop_tma`)
    and the two lookup tables between channel indices and marker names
    (`NUM_CHANNEL`, `CHANNEL_NUM`). */
module Helper {
  import opened Wrappers
  import opened Grids

  // ---------------------------------------------------------------- crop

  /** An n-dimensional image: a 2-D plane, or a stack along a leading axis. */
  datatype Image = Plane(pixels: Grid) | Stack(layers: seq<Image>)

  /** The last two axes are `h` by `w` in every plane, and no leading axis
      has length 0. */
  predicate Shaped(img: Image, h: nat, w: nat) {
    match img
    case Plane(g) => IsShape(g, h, w)
    case Stack(ls) => |ls| > 0 && forall k :: 0 <= k < |ls| ==> Shaped(ls[k], h, w)
  }

  /** `img.shape[-2]`. */
  function Height(img: Image): nat {
    match img
    case Plane(g) => |g|
    case Stack(ls) => if |ls| == 0 then 0 else Height(ls[0])
  }

  /** `img.shape[-1]`. */
  function Breadth(img: Image): nat {
    match img
    case Plane(g) => Width(g)
    case Stack(ls) => if |ls| == 0 then 0 else Breadth(ls[0])
  }

  /** `int(a / b)`: true division followed by truncation toward zero. */
  function TruncDiv(a: nat, b: int): (q: int)
    requires b != 0
    ensures b > 0 ==> q == a / b
    ensures b > 0 ==> q as real <= a as real / b as real < (q + 1) as real
    ensures b < 0 ==> (q - 1) as real < a as real / b as real <= q as real
  {
    if b > 0 then a / b else -(a / -b)
  }

  /** The index a Python slice bound denotes in a sequence of length n:
      negative bounds count from the end, and both ends are clamped. */
  function SliceIndex(n: nat, i: int): (k: nat)
    ensures k <= n
    ensures 0 <= i <= n ==> k == i
  {
    if i < 0 then (if i + n < 0 then 0 else i + n)
    else if i > n then n
    else i
  }

  /** `s[start:stop]` with Python's semantics for out-of-range bounds. */
  function Slice<T>(s: seq<T>, start: int, stop: int): (r: seq<T>)
    ensures 0 <= start <= stop <= |s| ==> r == s[start..stop]
  {
    var a := SliceIndex(|s|, start);
    var b := SliceIndex(|s|, stop);
    if a <= b then s[a..b] else []
  }

  /** `img[..., r0:r1, c0:c1]`: slices the last two axes of every plane. */
  function CropAll(img: Image, r0: int, r1: int, c0: int, c1: int): Image
    decreases img
  {
    match img
    case Plane(g) =>
      var rows := Slice(g, r0, r1);
      Plane(seq(|rows|, k requires 0 <= k < |rows| => Slice(rows[k], c0, c1)))
    case Stack(ls) =>
      Stack(seq(|ls|, k requires 0 <= k < |ls| => CropAll(ls[k], r0, r1, c0, c1)))
  }

  /** Dividing by a zero grid dimension raises ZeroDivisionError. */
  datatype CropError = ZeroGridDimension

  /** `crop_tma`: tile (row, col) of an nrows x ncols grid whose tiles have
      int(H / nrows) rows and int(W / ncols) columns. */
  function CropTma(img: Image, row: int := 0, col: int := 0, nrows: int := 3, ncols: int := 2)
    : (r: Result<Image, CropError>)
    ensures r.Failure? <==> nrows == 0 || ncols == 0
  {
    if nrows == 0 || ncols == 0 then Failure(ZeroGridDimension)
    else
      var vSize := TruncDiv(Height(img), nrows);
      var hSize := TruncDiv(Breadth(img), ncols);
      Success(CropAll(img, row * vSize, (row + 1) * vSize, col * hSize, (col + 1) * hSize))
  }

  /** `out` has the layout of `img` along the leading axes, and each of its
      planes is the hh x ww window of the matching plane of `img` whose
      top-left pixel is (r0, c0). */
  predicate CroppedFrom(out: Image, img: Image, r0: int, c0: int, hh: nat, ww: nat)
    decreases img
  {
    match img
    case Plane(g) =>
      out.Plane? && IsShape(out.pixels, hh, ww) &&
      forall r, c :: 0 <= r < hh && 0 <= c < ww ==>
        0 <= r0 + r < |g| && 0 <= c0 + c < |g[r0 + r]| && out.pixels[r][c] == g[r0 + r][c0 + c]
    case Stack(ls) =>
      out.Stack? && |out.layers| == |ls| &&
      forall k :: 0 <= k < |ls| ==> CroppedFrom(out.layers[k], ls[k], r0, c0, hh, ww)
  }

  lemma {:induction false} ShapedDims(img: Image, h: nat, w: nat)
    requires Shaped(img, h, w)
    ensures Height(img) == h
    ensures h > 0 ==> Breadth(img) == w
  {
    match img
    case Plane(g) =>
    case Stack(ls) => ShapedDims(ls[0], h, w);
  }

  /** Every plane of a crop inside the image is the window of the source. */
  lemma {:induction false} CropAllWindow(img: Image, h: nat, w: nat, r0: nat, c0: nat, hh: nat, ww: nat)
    requires Shaped(img, h, w) && r0 + hh <= h && c0 + ww <= w
    ensures CroppedFrom(CropAll(img, r0, r0 + hh, c0, c0 + ww), img, r0, c0, hh, ww)
    decreases img
  {
    match img
    case Plane(g) =>
      var rows := g[r0..r0 + hh];
      assert Slice(g, r0, r0 + hh) == rows;
      forall k | 0 <= k < hh
        ensures Slice(rows[k], c0, c0 + ww) == g[r0 + k][c0..c0 + ww]
      {
        assert rows[k] == g[r0 + k];
      }
    case Stack(ls) =>
      forall k | 0 <= k < |ls|
        ensures CroppedFrom(CropAll(img, r0, r0 + hh, c0, c0 + ww).layers[k], ls[k], r0, c0, hh, ww)
      {
        CropAllWindow(ls[k], h, w, r0, c0, hh, ww);
      }
  }

  /** Tile `row` of `nrows` ends inside the image: (row + 1) * (n / nrows) <= n. */
  lemma TileEnd(n: nat, row: nat, nrows: nat, q: nat)
    requires row < nrows && q == n / nrows
    ensures row * q + q <= n
  {
    MulMono(row, row, q);
    MulMono(row + 1, nrows, q);
    DivFloor(n, nrows);
  }

  /** Floor division rounds down: d * (n / d) <= n. */
  lemma DivFloor(n: nat, d: nat)
    requires d > 0
    ensures d * (n / d) <= n
  {
  }

  /** For an in-grid tile, the crop has floor(H / nrows) rows and
      floor(W / ncols) columns in every plane, the leading axes are kept, and
      crop[r][c] is img[row * v_size + r][col * h_size + c]. */
  lemma CropTmaInGrid(img: Image, h: nat, w: nat, row: nat, col: nat, nrows: nat, ncols: nat,
                      vSize: nat, hSize: nat)
    requires Shaped(img, h, w)
    requires row < nrows && col < ncols
    requires vSize == h / nrows && hSize == w / ncols
    ensures var r := CropTma(img, row, col, nrows, ncols);
      r.Success? && CroppedFrom(r.value, img, row * vSize, col * hSize, vSize, hSize)
  {
    if h > 0 {
      CropTmaWithRows(img, h, w, row, col, nrows, ncols, vSize, hSize);
    } else {
      assert vSize == 0 && row * vSize == 0;
      CropTmaNoRows(img, w, row, col, nrows, ncols, hSize);
    }
  }

  lemma CropTmaWithRows(img: Image, h: nat, w: nat, row: nat, col: nat, nrows: nat, ncols: nat,
                        vSize: nat, hSize: nat)
    requires Shaped(img, h, w) && h > 0
    requires row < nrows && col < ncols
    requires vSize == h / nrows && hSize == w / ncols
    ensures var r := CropTma(img, row, col, nrows, ncols);
      r.Success? && CroppedFrom(r.value, img, row * vSize, col * hSize, vSize, hSize)
  {
    TileEnd(h, row, nrows, vSize);
    TileEnd(w, col, ncols, hSize);
    CropTmaTile(img, h, w, row, col, nrows, ncols, vSize, hSize, row * vSize, col * hSize);
  }

  /** The tile whose top-left pixel is (r0, c0) and which lies inside the
      image is its window. */
  lemma CropTmaTile(img: Image, h: nat, w: nat, row: nat, col: nat, nrows: nat, ncols: nat,
                    vSize: nat, hSize: nat, r0: nat, c0: nat)
    requires Shaped(img, h, w) && h > 0 && nrows > 0 && ncols > 0
    requires vSize == h / nrows && hSize == w / ncols
    requires r0 == row * vSize && c0 == col * hSize
    requires r0 + vSize <= h && c0 + hSize <= w
    ensures var r := CropTma(img, row, col, nrows, ncols);
      r.Success? && CroppedFrom(r.value, img, r0, c0, vSize, hSize)
  {
    var out := CropAll(img, r0, r0 + vSize, c0, c0 + hSize);
    CropTmaShaped(img, h, w, row, col, nrows, ncols, vSize, hSize);
    CropAllWindow(img, h, w, r0, c0, vSize, hSize);
    SuccessCropped(CropTma(img, row, col, nrows, ncols), out, img, r0, c0, vSize, hSize);
  }

  // Proof-splitting helper: reads the crop out of a Success in its own context.
  lemma SuccessCropped(r: Result<Image, CropError>, out: Image, img: Image, r0: int, c0: int, hh: nat, ww: nat)
    requires r == Success(out) && CroppedFrom(out, img, r0, c0, hh, ww)
    ensures r.Success? && CroppedFrom(r.value, img, r0, c0, hh, ww)
  {
  }

  /** The bounds `crop_tma` slices with, for an image with rows. */
  lemma CropTmaShaped(img: Image, h: nat, w: nat, row: int, col: int, nrows: nat, ncols: nat,
                      vSize: nat, hSize: nat)
    requires Shaped(img, h, w) && h > 0 && nrows > 0 && ncols > 0
    requires vSize == h / nrows && hSize == w / ncols
    ensures CropTma(img, row, col, nrows, ncols)
      == Success(CropAll(img, row * vSize, row * vSize + vSize, col * hSize, col * hSize + hSize))
  {
    ShapedDims(img, h, w);
    CropTmaUnfold(img, row, col, nrows, ncols, vSize, hSize);
  }

  lemma CropTmaNoRows(img: Image, w: nat, row: nat, col: nat, nrows: nat, ncols: nat, hSize: nat)
    requires Shaped(img, 0, w) && nrows > 0 && ncols > 0
    ensures var r := CropTma(img, row, col, nrows, ncols);
      r.Success? && CroppedFrom(r.value, img, 0, col * hSize, 0, hSize)
  {
    ShapedDims(img, 0, w);
    var hb := Breadth(img) / ncols;
    CropTmaUnfold(img, row, col, nrows, ncols, 0, hb);
    CropZeroHeight(img, w, 0, col * hb, col * hb + hb, col * hSize, hSize);
  }

  /** The bounds `crop_tma` slices with, for positive grid dimensions. */
  lemma CropTmaUnfold(img: Image, row: int, col: int, nrows: nat, ncols: nat, vSize: nat, hSize: nat)
    requires nrows > 0 && ncols > 0
    requires vSize == Height(img) / nrows && hSize == Breadth(img) / ncols
    ensures CropTma(img, row, col, nrows, ncols)
      == Success(CropAll(img, row * vSize, row * vSize + vSize, col * hSize, col * hSize + hSize))
  {
    MulMono(row, row, vSize);
    MulMono(col, col, hSize);
  }

  /** A crop of an image without rows is empty whatever the column bounds. */
  lemma {:induction false} CropZeroHeight(img: Image, w: nat, r0: int, c0: int, c1: int, c0': int, ww: nat)
    requires Shaped(img, 0, w)
    ensures CroppedFrom(CropAll(img, r0, r0, c0, c1), img, r0, c0', 0, ww)
    decreases img
  {
    match img
    case Plane(g) =>
      assert Slice(g, r0, r0) == [];
    case Stack(ls) =>
      var out := CropAll(img, r0, r0, c0, c1).layers;
      forall k | 0 <= k < |ls|
        ensures CroppedFrom(out[k], ls[k], r0, c0', 0, ww)
      {
        assert out[k] == CropAll(ls[k], r0, r0, c0, c1);
        CropZeroHeight(ls[k], w, r0, c0, c1, c0', ww);
      }
  }

  /** Called without grid arguments, `crop_tma` returns the top-left tile of a
      3 x 2 grid. */
  lemma CropTmaDefault(img: Image, h: nat, w: nat)
    requires Shaped(img, h, w)
    ensures CropTma(img).Success?
    ensures CroppedFrom(CropTma(img).value, img, 0, 0, h / 3, w / 2)
  {
    CropTmaInGrid(img, h, w, 0, 0, 3, 2, h / 3, w / 2);
  }

  /** Pixel (y, x) lies in tile (row, col) of a grid with tiles vSize x hSize. */
  predicate InTile(y: int, x: int, row: int, col: int, vSize: nat, hSize: nat) {
    row * vSize <= y < row * vSize + vSize && col * hSize <= x < col * hSize + hSize
  }

  /** Distinct tiles cover disjoint pixels. */
  lemma TilesDisjoint(y: int, x: int, row: int, col: int, row': int, col': int, vSize: nat, hSize: nat)
    requires InTile(y, x, row, col, vSize, hSize) && InTile(y, x, row', col', vSize, hSize)
    ensures row == row' && col == col'
  {
    TileIndex(y, row, vSize);
    TileIndex(y, row', vSize);
    TileIndex(x, col, hSize);
    TileIndex(x, col', hSize);
  }

  /** The tile holding a coordinate is determined by floor division. */
  lemma TileIndex(y: int, row: int, size: nat)
    requires row * size <= y < row * size + size
    ensures size > 0 && row == y / size
  {
    var q := y / size;
    if row < q {
      MulMono(row + 1, q, size);
      assert false;
    } else if row > q {
      MulMono(q + 1, row, size);
      assert false;
    }
  }

  lemma MulMono(a: int, b: int, c: nat)
    requires a <= b
    ensures a * c <= b * c && a * c + c == (a + 1) * c
  {
  }

  /** Every pixel of the nrows*vSize x ncols*hSize top-left block lies in an
      in-grid tile, namely the one found by floor division. */
  lemma TileOfPixel(y: nat, x: nat, nrows: nat, ncols: nat, vSize: nat, hSize: nat)
    requires y < nrows * vSize && x < ncols * hSize
    ensures vSize > 0 && hSize > 0
    ensures y / vSize < nrows && x / hSize < ncols
    ensures InTile(y, x, y / vSize, x / hSize, vSize, hSize)
  {
    assert vSize > 0 && hSize > 0;
    FloorBlock(y, vSize, nrows);
    FloorBlock(x, hSize, ncols);
  }

  lemma FloorBlock(y: nat, size: nat, n: nat)
    requires y < n * size
    ensures size > 0 && y / size < n
    ensures (y / size) * size <= y < (y / size) * size + size
  {
    assert size > 0;
    var q := y / size;
    if q >= n {
      MulMono(n, q, size);
      assert false;
    }
  }

  /** The remainder rows (H mod nrows) and columns (W mod ncols) lie in no
      in-grid tile. */
  lemma RemainderInNoTile(y: nat, x: nat, row: nat, col: nat, nrows: nat, ncols: nat, vSize: nat, hSize: nat)
    requires y >= nrows * vSize || x >= ncols * hSize
    requires row < nrows && col < ncols
    ensures !InTile(y, x, row, col, vSize, hSize)
  {
    MulMono(row + 1, nrows, vSize);
    MulMono(col + 1, ncols, hSize);
  }

  // ------------------------------------------------------ channel tables

  const DefaultChannel: string := "Hoechst"

  /** `NUM_CHANNEL`: channel index to marker name. */
  function NumChannel(markers: seq<string>): map<int, string> {
    map i | 0 <= i < |markers| :: markers[i]
  }

  /** `{marker: i for i, marker in enumerate(markers)}`: the entries are
      inserted in order, so a repeated marker keeps its last index. */
  function Enumerated(markers: seq<string>): map<string, int> {
    if |markers| == 0 then map[]
    else Enumerated(markers[..|markers| - 1])[markers[|markers| - 1] := |markers| - 1]
  }

  /** `CHANNEL_NUM`: marker name to channel index, with the default channel
      pinned to index 0. */
  function ChannelNum(markers: seq<string>): map<string, int> {
    Enumerated(markers)[DefaultChannel := 0]
  }

  lemma {:induction false} EnumeratedKeys(markers: seq<string>, name: string)
    ensures name in Enumerated(markers) <==> name in markers
  {
    if |markers| > 0 {
      var init := markers[..|markers| - 1];
      EnumeratedKeys(init, name);
      assert markers == init + [markers[|markers| - 1]];
    }
  }

  /** `CHANNEL_NUM` has a key per marker and the default channel, which maps
      to 0 whatever the list holds. */
  lemma ChannelNumKeys(markers: seq<string>, name: string)
    ensures name in ChannelNum(markers) <==> name in markers || name == DefaultChannel
    ensures ChannelNum(markers)[DefaultChannel] == 0
  {
    EnumeratedKeys(markers, name);
  }

  /** Each marker maps to the index of its last occurrence. */
  lemma {:induction false} EnumeratedLast(markers: seq<string>, name: string)
    requires name in markers
    ensures name in Enumerated(markers)
    ensures var i := Enumerated(markers)[name];
      0 <= i < |markers| && markers[i] == name &&
      forall j :: i < j < |markers| ==> markers[j] != name
  {
    var n := |markers| - 1;
    if markers[n] != name {
      var init := markers[..n];
      assert name in init by {
        var j :| 0 <= j < |markers| && markers[j] == name;
        assert init[j] == name;
      }
      EnumeratedLast(init, name);
    }
  }

  /** `CHANNEL_NUM[m]` is the last index of marker m, except for the default
      channel, which is 0 whatever the list holds. */
  lemma ChannelNumIndex(markers: seq<string>, name: string)
    requires name in markers && name != DefaultChannel
    ensures name in ChannelNum(markers)
    ensures var i := ChannelNum(markers)[name];
      0 <= i < |markers| && markers[i] == name &&
      forall j :: i < j < |markers| ==> markers[j] != name
  {
    EnumeratedLast(markers, name);
  }

  /** Looking a marker up in `CHANNEL_NUM` and the index in `NUM_CHANNEL`
      gives the marker back. */
  lemma NameIndexName(markers: seq<string>, name: string)
    requires name in markers && name != DefaultChannel
    ensures name in ChannelNum(markers)
    ensures ChannelNum(markers)[name] in NumChannel(markers)
    ensures NumChannel(markers)[ChannelNum(markers)[name]] == name
  {
    ChannelNumIndex(markers, name);
  }

  /** With distinct markers, looking an index up in `NUM_CHANNEL` and the name
      in `CHANNEL_NUM` gives the index back, unless the name is the default
      channel at a non-zero index. */
  lemma IndexNameIndex(markers: seq<string>, i: int)
    requires 0 <= i < |markers|
    requires forall j, k :: 0 <= j < k < |markers| ==> markers[j] != markers[k]
    requires markers[i] != DefaultChannel || i == 0
    ensures NumChannel(markers)[i] in ChannelNum(markers)
    ensures ChannelNum(markers)[NumChannel(markers)[i]] == i
  {
    var name := markers[i];
    ChannelNumKeys(markers, name);
    if name != DefaultChannel {
      ChannelNumIndex(markers, name);
    }
  }

  /** Markers in order of first appearance: the order in which the dict
      comprehension inserts its keys. */
  function InsertionOrder(markers: seq<string>): seq<string> {
    if |markers| == 0 then []
    else
      var ks := InsertionOrder(markers[..|markers| - 1]);
      if markers[|markers| - 1] in ks then ks else ks + [markers[|markers| - 1]]
  }

  /** The order of `CHANNEL_NUM.keys()`: each marker at its first insertion,
      then the default channel if the list does not hold it. */
  function ChannelKeys(markers: seq<string>): seq<string> {
    var ks := InsertionOrder(markers);
    if DefaultChannel in ks then ks else ks + [DefaultChannel]
  }

  /** No two positions of `s` hold the same value. */
  predicate Distinct(s: seq<string>) {
    forall j, k :: 0 <= j < k < |s| ==> s[j] != s[k]
  }

  lemma DistinctAppend(s: seq<string>, x: string)
    requires Distinct(s) && x !in s
    ensures Distinct(s + [x])
  {
    var t := s + [x];
    forall j, k | 0 <= j < k < |t| ensures t[j] != t[k] {
      if k == |s| {
        assert t[j] == s[j];
      } else {
        assert t[j] == s[j] && t[k] == s[k];
      }
    }
  }

  lemma {:induction false} InsertionOrderProps(markers: seq<string>)
    ensures var ks := InsertionOrder(markers);
      Distinct(ks) && (forall name :: name in ks <==> name in markers)
  {
    if |markers| > 0 {
      var init := markers[..|markers| - 1];
      var x := markers[|markers| - 1];
      InsertionOrderProps(init);
      assert markers == init + [x];
      var ks := InsertionOrder(init);
      if x !in ks {
        DistinctAppend(ks, x);
      }
    }
  }

  /** Some occurrence of `a` in `markers` comes before every occurrence of `b`. */
  predicate SeenBefore(markers: seq<string>, a: string, b: string) {
    exists p :: 0 <= p < |markers| && markers[p] == a && b !in markers[..p]
  }

  /** Keys come in the order in which the markers are first seen. */
  lemma {:induction false} InsertionOrderFirstSeen(markers: seq<string>)
    ensures var ks := InsertionOrder(markers);
      forall j, k :: 0 <= j < k < |ks| ==> SeenBefore(markers, ks[j], ks[k])
  {
    if |markers| > 0 {
      var init := markers[..|markers| - 1];
      var x := markers[|markers| - 1];
      InsertionOrderFirstSeen(init);
      InsertionOrderProps(init);
      var ks := InsertionOrder(init);
      var ks' := InsertionOrder(markers);
      forall j, k | 0 <= j < k < |ks'|
        ensures SeenBefore(markers, ks'[j], ks'[k])
      {
        assert ks'[j] == ks[j];
        var p: int;
        if k < |ks| {
          assert ks'[k] == ks[k];
          assert SeenBefore(init, ks[j], ks[k]);
          p :| 0 <= p < |init| && init[p] == ks[j] && ks[k] !in init[..p];
        } else {
          assert ks[j] in init;
          p :| 0 <= p < |init| && init[p] == ks[j];
          assert ks'[k] == x && x !in init;
        }
        assert markers[..p] == init[..p] && markers[p] == init[p];
      }
    }
  }

  /** `CHANNEL_NUM.keys()` lists every key of `CHANNEL_NUM` exactly once. */
  lemma ChannelKeysProps(markers: seq<string>)
    ensures var ks := ChannelKeys(markers);
      Distinct(ks) && (forall name :: name in ks <==> name in ChannelNum(markers))
  {
    InsertionOrderProps(markers);
    var ks := InsertionOrder(markers);
    if DefaultChannel !in ks {
      DistinctAppend(ks, DefaultChannel);
    }
    forall name ensures name in ChannelNum(markers) <==> name in markers || name == DefaultChannel {
      ChannelNumKeys(markers, name);
    }
  }
}
