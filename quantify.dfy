/** `quantify_segmentation` in quantify.py: one record per label id 1..max of
    a label image, each made of the id and the merged outputs of the feature
    functions, then of the per-channel intensity sums. */
module Quantify {
  import opened Wrappers
  import opened Grids
  import opened Text
  import opened Features
  import Helper

  /** A column of the result table. `Sum(channel)` is the intensity sum of
      a channel, identified by its name without leading whitespace (the
      empty name for the column of the `intensity` feature itself). */
  datatype Column = Id | SizeColumn | Top | Bottom | Left | Right | BorderColumn | Sum(channel: string)

  /** The column's name in the table. */
  function ColumnName(col: Column): string {
    match col
    case Id => "id"
    case SizeColumn => "size"
    case Top => "top"
    case Bottom => "bottom"
    case Left => "left"
    case Right => "right"
    case BorderColumn => "border"
    case Sum(channel) => if channel == [] then "sum" else channel + " " + "sum"
  }

  /** The intensity column of a channel is the one named
      `f"{channel} sum".lstrip()`. */
  lemma IntensityColumnName(channel: string)
    ensures ColumnName(Sum(LStrip(channel))) == StatKey(channel, "sum")
  {
    StatKeyOfStripped(channel, "sum");
  }

  /** `name` ends in "sum", as every intensity column name does. */
  predicate EndsInSum(name: string) {
    |name| >= 3 && name[|name| - 3..] == "sum"
  }

  /** No fixed column name ends in "sum". */
  lemma FixedNameNotSum(col: Column)
    requires !col.Sum?
    ensures !EndsInSum(ColumnName(col))
  {
    match col
    case Id =>
    case SizeColumn => assert "size"[1..] == "ize";
    case Top =>
    case Bottom => assert "bottom"[3..] == "tom";
    case Left => assert "left"[1..] == "eft";
    case Right => assert "right"[2..] == "ght";
    case BorderColumn => assert "border"[3..] == "der";
  }

  /** Every intensity column name ends in "sum". */
  lemma SumNameEndsInSum(channel: string)
    ensures EndsInSum(ColumnName(Sum(channel)))
  {
    if channel != [] {
      var n := channel + " " + "sum";
      assert n[|n| - 3..] == "sum";
    }
  }

  /** Two channels give one intensity column name only when they are equal. */
  lemma SumNamesDistinct(a: string, b: string)
    requires a != b
    ensures ColumnName(Sum(a)) != ColumnName(Sum(b))
  {
    if a != [] && b != [] {
      assert ColumnName(Sum(a))[..|a|] == a;
    }
  }

  /** Distinct columns have distinct names, so a record keyed by columns is
      a record keyed by names. */
  lemma ColumnNamesDistinct(a: Column, b: Column)
    requires a != b
    ensures ColumnName(a) != ColumnName(b)
  {
    if a.Sum? && b.Sum? {
      SumNamesDistinct(a.channel, b.channel);
    } else if a.Sum? {
      FixedNameNotSum(b);
      SumNameEndsInSum(a.channel);
    } else if b.Sum? {
      FixedNameNotSum(a);
      SumNameEndsInSum(b.channel);
    }
  }

  /** One row of the result table. */
  type Record = map<Column, int>

  /** The integer-valued feature functions that can be passed in `funcs`. */
  datatype Feature = SizeFeature | BorderFeature | IntensityFeature

  /** The default `funcs` is [position, size, ellipse, border]; position and
      ellipse produce floating-point values and are not part of this model. */
  const DefaultFeatures: seq<Feature> := [SizeFeature, BorderFeature]

  /** `segmentation.max()` raises on an image without pixels. */
  datatype QuantifyError = EmptySegmentation

  /** `b` can be indexed by a mask of `a`'s shape. */
  predicate SameShape(a: Grid, b: Grid) {
    |a| == |b| && forall r :: 0 <= r < |a| ==> |a[r]| == |b[r]|
  }

  /** A label image with at least one pixel. */
  predicate NonEmpty(seg: Grid) {
    |seg| >= 1 && Width(seg) >= 1 && Rectangular(seg)
  }

  function RowMax(row: seq<int>): (m: int)
    requires |row| > 0
    ensures m in row && forall c :: 0 <= c < |row| ==> row[c] <= m
  {
    if |row| == 1 then row[0]
    else
      var m := RowMax(row[..|row| - 1]);
      assert row[..|row| - 1] < row;
      if row[|row| - 1] > m then row[|row| - 1] else m
  }

  /** `segmentation.max()`: the largest label. */
  function GridMax(seg: Grid): (m: int)
    requires NonEmpty(seg)
    ensures exists r, c :: 0 <= r < |seg| && 0 <= c < |seg[r]| && seg[r][c] == m
    ensures forall r, c :: 0 <= r < |seg| && 0 <= c < |seg[r]| ==> seg[r][c] <= m
  {
    if |seg| == 1 then RowMax(seg[0])
    else
      var init := seg[..|seg| - 1];
      assert NonEmpty(init) by {
        assert forall r :: 0 <= r < |init| ==> init[r] == seg[r];
      }
      var m := GridMax(init);
      var last := RowMax(seg[|seg| - 1]);
      if last > m then last else m
  }

  // ------------------------------------------------------------ records

  function SizeRecord(m: Mask): Record {
    map[SizeColumn := Size(m)]
  }

  function BorderRecord(m: Mask): Record
    requires |m| >= 1 && Width(m) >= 1 && Rectangular(m)
  {
    var f := Border(m);
    map[Top := f.top, Bottom := f.bottom, Left := f.left, Right := f.right, BorderColumn := f.border]
  }

  /** The integer part of `intensity`: the sum column, named after the channel. */
  function IntensityRecord(m: Mask, orig: Grid, channel: string): Record
    requires |m| == |orig| && forall r :: 0 <= r < |m| ==> |m[r]| == |orig[r]|
  {
    map[Sum(LStrip(channel)) := MaskedSum(m, orig)]
  }

  /** The columns each feature function writes. */
  function FeatureKeys(f: Feature): set<Column> {
    match f
    case SizeFeature => {SizeColumn}
    case BorderFeature => {Top, Bottom, Left, Right, BorderColumn}
    case IntensityFeature => {Sum("")}
  }

  /** Different features write different columns. */
  lemma FeatureKeysDisjoint(f: Feature, g: Feature, k: Column)
    requires k in FeatureKeys(f) && k in FeatureKeys(g)
    ensures f == g
  {
  }

  /** `func(img, original=original)` for one feature function. */
  function FeatureRecord(f: Feature, seg: Grid, original: Grid, i: int): (rec: Record)
    requires NonEmpty(seg)
    requires f == IntensityFeature ==> SameShape(seg, original)
  {
    var m := MaskOf(seg, i);
    match f
    case SizeFeature => SizeRecord(m)
    case BorderFeature => BorderRecord(m)
    case IntensityFeature => IntensityRecord(m, original, "")
  }

  /** Each feature function writes exactly its own columns. */
  lemma FeatureRecordKeys(f: Feature, seg: Grid, original: Grid, i: int)
    requires NonEmpty(seg)
    requires f == IntensityFeature ==> SameShape(seg, original)
    ensures FeatureRecord(f, seg, original, i).Keys == FeatureKeys(f)
  {
  }

  /** The inputs the feature functions need: a label image with pixels,
      and an original image of its shape when `intensity` is among them. */
  predicate Measurable(seg: Grid, original: Grid, funcs: seq<Feature>) {
    NonEmpty(seg) && (IntensityFeature in funcs ==> SameShape(seg, original))
  }

  /** `{"id": i}` updated with the output of each feature function in
      `funcs` order: a later output replaces an earlier entry. */
  function BaseRecord(seg: Grid, original: Grid, funcs: seq<Feature>, i: int): Record
    requires Measurable(seg, original, funcs)
  {
    if |funcs| == 0 then map[Id := i]
    else
      var n := |funcs| - 1;
      assert funcs[n] in funcs;
      BaseRecord(seg, original, funcs[..n], i) + FeatureRecord(funcs[n], seg, original, i)
  }

  /** `images[c]` is the image the experiment returns for channel `keys[c]`,
      and each can be indexed by the cell masks. */
  predicate ChannelsFit(seg: Grid, keys: seq<string>, images: seq<Grid>) {
    |images| == |keys| && forall c :: 0 <= c < |images| ==> SameShape(seg, images[c])
  }

  /** The channel dictionary of cell `i`: `intensity(img,
      original=channel_img, channel=channel)` per channel, merged in key order. */
  function ChannelSums(keys: seq<string>, images: seq<Grid>, seg: Grid, i: int): Record
    requires ChannelsFit(seg, keys, images)
  {
    if |keys| == 0 then map[]
    else
      var n := |keys| - 1;
      ChannelSums(keys[..n], images[..n], seg, i) + IntensityRecord(MaskOf(seg, i), images[n], keys[n])
  }

  /** Everything `quantify_segmentation` needs of its inputs: a label image
      with pixels, and images of its shape wherever an intensity is taken. */
  predicate Inputs(seg: Grid, original: Grid, funcs: seq<Feature>, channels: bool,
                   markers: seq<string>, images: seq<Grid>)
  {
    Measurable(seg, original, funcs) &&
    (channels ==> ChannelsFit(seg, Helper.ChannelKeys(markers), images))
  }

  /** The record of cell `i`. */
  function CellRecord(seg: Grid, original: Grid, funcs: seq<Feature>, channels: bool,
                      markers: seq<string>, images: seq<Grid>, i: int): Record
    requires Inputs(seg, original, funcs, channels, markers, images)
  {
    var base := BaseRecord(seg, original, funcs, i);
    if channels then base + ChannelSums(Helper.ChannelKeys(markers), images, seg, i)
    else base
  }

  /** The records of cells 1..n, in order. */
  function Table(seg: Grid, original: Grid, funcs: seq<Feature>, channels: bool,
                 markers: seq<string>, images: seq<Grid>, n: nat): seq<Record>
    requires Inputs(seg, original, funcs, channels, markers, images)
  {
    if n == 0 then []
    else
      Table(seg, original, funcs, channels, markers, images, n - 1) +
      [CellRecord(seg, original, funcs, channels, markers, images, n)]
  }

  /** The table of n cells has n records, the k-th being that of cell k + 1. */
  lemma {:induction false} TableCells(seg: Grid, original: Grid, funcs: seq<Feature>, channels: bool,
                                      markers: seq<string>, images: seq<Grid>, n: nat)
    requires Inputs(seg, original, funcs, channels, markers, images)
    ensures var t := Table(seg, original, funcs, channels, markers, images, n);
      |t| == n &&
      forall k :: 0 <= k < n ==> t[k] == CellRecord(seg, original, funcs, channels, markers, images, k + 1)
  {
    if n > 0 {
      TableCells(seg, original, funcs, channels, markers, images, n - 1);
    }
  }

  // ------------------------------------------------------------ methods

  /** `quantify_segmentation` on a label image and the images it measures:
      one record per id 1..max in increasing order, none for background. */
  method QuantifySegmentation(seg: Grid, original: Grid, markers: seq<string>,
                              images: seq<Grid>,
                              funcs: seq<Feature> := DefaultFeatures, channels: bool := false)
    returns (r: Result<seq<Record>, QuantifyError>)
    requires Rectangular(seg)
    requires |seg| >= 1 && Width(seg) >= 1 ==> Inputs(seg, original, funcs, channels, markers, images)
    ensures r.Failure? <==> |seg| == 0 || Width(seg) == 0
    ensures r.Success? ==> |r.value| == (if GridMax(seg) > 0 then GridMax(seg) else 0)
    ensures r.Success? ==> forall k :: 0 <= k < |r.value| ==>
      r.value[k] == CellRecord(seg, original, funcs, channels, markers, images, k + 1)
  {
    if |seg| == 0 || Width(seg) == 0 {
      return Failure(EmptySegmentation);
    }
    var top := GridMax(seg);
    var data := QuantifyCells(seg, original, funcs, channels, markers, images, top);
    TableCells(seg, original, funcs, channels, markers, images, if top > 0 then top else 0);
    return Success(data);
  }

  /** The loop over the ids 1..`top`, where `top` is `segmentation.max()`. */
  method QuantifyCells(seg: Grid, original: Grid, funcs: seq<Feature>, channels: bool,
                       markers: seq<string>, images: seq<Grid>, top: int)
    returns (data: seq<Record>)
    requires Inputs(seg, original, funcs, channels, markers, images)
    ensures data == Table(seg, original, funcs, channels, markers, images, if top > 0 then top else 0)
  {
    data := [];
    var i := 1;
    while i <= top
      invariant 1 <= i <= (if top > 0 then top + 1 else 1)
      invariant data == Table(seg, original, funcs, channels, markers, images, i - 1)
    {
      var dataDict := MeasureCell(seg, original, funcs, channels, markers, images, i);
      data := data + [dataDict];
      i := i + 1;
    }
  }

  /** The body of the loop over the ids: the record of cell `i`. */
  method MeasureCell(seg: Grid, original: Grid, funcs: seq<Feature>, channels: bool,
                     markers: seq<string>, images: seq<Grid>, i: int)
    returns (dataDict: Record)
    requires Inputs(seg, original, funcs, channels, markers, images)
    ensures dataDict == CellRecord(seg, original, funcs, channels, markers, images, i)
  {
    dataDict := FeatureLoop(seg, original, funcs, i);
    if channels {
      var channelDict := ChannelLoop(seg, Helper.ChannelKeys(markers), images, i);
      dataDict := dataDict + channelDict;
    }
  }

  /** The loop over `funcs` for cell `i`: `data_dict.update(func(img, ...))`. */
  method FeatureLoop(seg: Grid, original: Grid, funcs: seq<Feature>, i: int) returns (dataDict: Record)
    requires Measurable(seg, original, funcs)
    ensures dataDict == BaseRecord(seg, original, funcs, i)
  {
    dataDict := map[Id := i];
    var j := 0;
    while j < |funcs|
      invariant 0 <= j <= |funcs|
      invariant Measurable(seg, original, funcs[..j])
      invariant dataDict == BaseRecord(seg, original, funcs[..j], i)
    {
      var out := FeatureRecord(funcs[j], seg, original, i);
      assert funcs[..j + 1][..j] == funcs[..j];
      dataDict := dataDict + out;
      j := j + 1;
    }
    assert funcs[..|funcs|] == funcs;
  }

  /** The loop over the channels for cell `i`: the channel dictionary that
      is merged into the record last. */
  method ChannelLoop(seg: Grid, keys: seq<string>, images: seq<Grid>, i: int)
    returns (channelDict: Record)
    requires ChannelsFit(seg, keys, images)
    ensures channelDict == ChannelSums(keys, images, seg, i)
  {
    channelDict := map[];
    var c := 0;
    while c < |keys|
      invariant 0 <= c <= |keys|
      invariant channelDict == ChannelSums(keys[..c], images[..c], seg, i)
    {
      var out := IntensityRecord(MaskOf(seg, i), images[c], keys[c]);
      assert keys[..c + 1][..c] == keys[..c] && images[..c + 1][..c] == images[..c];
      channelDict := channelDict + out;
      c := c + 1;
    }
    assert keys[..|keys|] == keys && images[..|images|] == images;
  }

  // ------------------------------------------------------------- lemmas

  /** The columns of a base record: "id" and every column of every feature
      in `funcs`. */
  lemma {:induction false} BaseRecordKeys(seg: Grid, original: Grid, funcs: seq<Feature>, i: int, k: Column)
    requires Measurable(seg, original, funcs)
    ensures k in BaseRecord(seg, original, funcs, i) <==>
      k == Id || exists j :: 0 <= j < |funcs| && k in FeatureKeys(funcs[j])
  {
    if |funcs| > 0 {
      var n := |funcs| - 1;
      var init := funcs[..n];
      BaseRecordKeys(seg, original, init, i, k);
      assert funcs[n] in funcs;
      FeatureRecordKeys(funcs[n], seg, original, i);
      if exists j :: 0 <= j < n && k in FeatureKeys(init[j]) {
        var j :| 0 <= j < n && k in FeatureKeys(init[j]);
        assert funcs[j] == init[j];
      }
      if exists j :: 0 <= j < |funcs| && k in FeatureKeys(funcs[j]) {
        var j :| 0 <= j < |funcs| && k in FeatureKeys(funcs[j]);
        if j < n {
          assert init[j] == funcs[j];
        }
      }
    }
  }

  /** No feature writes the "id" column: the base record keeps its id. */
  lemma {:induction false} BaseRecordId(seg: Grid, original: Grid, funcs: seq<Feature>, i: int)
    requires Measurable(seg, original, funcs)
    ensures Id in BaseRecord(seg, original, funcs, i) && BaseRecord(seg, original, funcs, i)[Id] == i
  {
    if |funcs| > 0 {
      var n := |funcs| - 1;
      BaseRecordId(seg, original, funcs[..n], i);
      assert funcs[n] in funcs;
      FeatureRecordKeys(funcs[n], seg, original, i);
      assert Id !in FeatureKeys(funcs[n]);
    }
  }

  /** A column of feature `f` holds `f`'s value in the base record: no other
      feature writes it. */
  lemma {:induction false} BaseColumn(seg: Grid, original: Grid, funcs: seq<Feature>, i: int, f: Feature, k: Column)
    requires Measurable(seg, original, funcs)
    requires f in funcs && k in FeatureKeys(f)
    ensures k in BaseRecord(seg, original, funcs, i)
    ensures BaseRecord(seg, original, funcs, i)[k] == FeatureRecord(f, seg, original, i)[k]
  {
    var n := |funcs| - 1;
    var g := funcs[n];
    assert g in funcs;
    FeatureRecordKeys(g, seg, original, i);
    FeatureRecordKeys(f, seg, original, i);
    if k in FeatureKeys(g) {
      FeatureKeysDisjoint(f, g, k);
    } else {
      var init := funcs[..n];
      assert f in init by {
        var j :| 0 <= j < |funcs| && funcs[j] == f;
        assert j != n;
        assert init[j] == f;
      }
      BaseColumn(seg, original, init, i, f, k);
    }
  }

  /** The merged channel columns: one intensity column per distinct stripped
      channel name. */
  lemma {:induction false} ChannelSumsKeys(keys: seq<string>, images: seq<Grid>, seg: Grid, i: int, k: Column)
    requires ChannelsFit(seg, keys, images)
    ensures k in ChannelSums(keys, images, seg, i) <==>
      exists c :: 0 <= c < |keys| && k == Sum(LStrip(keys[c]))
  {
    if |keys| > 0 {
      var n := |keys| - 1;
      var init := keys[..n];
      ChannelSumsKeys(init, images[..n], seg, i, k);
      if k in ChannelSums(init, images[..n], seg, i) {
        var c :| 0 <= c < n && k == Sum(LStrip(init[c]));
        assert init[c] == keys[c];
      }
      if exists c :: 0 <= c < |keys| && k == Sum(LStrip(keys[c])) {
        var c :| 0 <= c < |keys| && k == Sum(LStrip(keys[c]));
        if c < n {
          assert init[c] == keys[c];
        }
      }
    }
  }

  /** A channel's intensity column holds the sum of that channel's image over
      the cell, unless a later channel has the same stripped name. */
  lemma {:induction false} ChannelSumsLast(keys: seq<string>, images: seq<Grid>, seg: Grid, i: int, c: int)
    requires ChannelsFit(seg, keys, images)
    requires 0 <= c < |keys|
    requires forall c' :: c < c' < |keys| ==> LStrip(keys[c']) != LStrip(keys[c])
    ensures var sums := ChannelSums(keys, images, seg, i);
      Sum(LStrip(keys[c])) in sums &&
      sums[Sum(LStrip(keys[c]))] == MaskedSum(MaskOf(seg, i), images[c])
  {
    var n := |keys| - 1;
    if c < n {
      var init := keys[..n];
      assert forall c' :: c < c' < n ==> init[c'] == keys[c'];
      ChannelSumsLast(init, images[..n], seg, i, c);
    }
  }

  /** Intensity sums never land in the "id", size or border columns. */
  lemma NotAChannelColumn(keys: seq<string>, images: seq<Grid>, seg: Grid, i: int, k: Column)
    requires ChannelsFit(seg, keys, images)
    requires !k.Sum?
    ensures k !in ChannelSums(keys, images, seg, i)
  {
    ChannelSumsKeys(keys, images, seg, i, k);
  }

  /** A record's columns other than intensity sums are those of its base. */
  lemma CellRecordColumn(seg: Grid, original: Grid, funcs: seq<Feature>, channels: bool,
                         markers: seq<string>, images: seq<Grid>, i: int, k: Column)
    requires Inputs(seg, original, funcs, channels, markers, images)
    requires !k.Sum?
    ensures var rec := CellRecord(seg, original, funcs, channels, markers, images, i);
      var base := BaseRecord(seg, original, funcs, i);
      (k in rec <==> k in base) && (k in rec ==> rec[k] == base[k])
  {
    if channels {
      NotAChannelColumn(Helper.ChannelKeys(markers), images, seg, i, k);
    }
  }

  /** Every record carries its own id: no feature overwrites the "id" column. */
  lemma CellRecordId(seg: Grid, original: Grid, funcs: seq<Feature>, channels: bool,
                     markers: seq<string>, images: seq<Grid>, i: int)
    requires Inputs(seg, original, funcs, channels, markers, images)
    ensures var rec := CellRecord(seg, original, funcs, channels, markers, images, i);
      Id in rec && rec[Id] == i
  {
    BaseRecordId(seg, original, funcs, i);
    CellRecordColumn(seg, original, funcs, channels, markers, images, i, Id);
  }

  /** The table has one record per id 1..n, in increasing order: the k-th
      record has id k + 1, so none is for the background label 0. */
  lemma TableIds(seg: Grid, original: Grid, funcs: seq<Feature>, channels: bool,
                 markers: seq<string>, images: seq<Grid>, n: nat)
    requires Inputs(seg, original, funcs, channels, markers, images)
    ensures var table := Table(seg, original, funcs, channels, markers, images, n);
      |table| == n &&
      (forall k :: 0 <= k < n ==> Id in table[k] && table[k][Id] == k + 1) &&
      (forall k, l :: 0 <= k < l < n ==> table[k][Id] < table[l][Id])
  {
    var table := Table(seg, original, funcs, channels, markers, images, n);
    TableCells(seg, original, funcs, channels, markers, images, n);
    forall k | 0 <= k < n ensures Id in table[k] && table[k][Id] == k + 1 {
      CellRecordId(seg, original, funcs, channels, markers, images, k + 1);
    }
  }

  /** The columns of a record: "id", every column of every feature in `funcs`,
      and with channels an intensity column per channel. */
  lemma CellRecordKeys(seg: Grid, original: Grid, funcs: seq<Feature>, channels: bool,
                       markers: seq<string>, images: seq<Grid>, i: int, k: Column)
    requires Inputs(seg, original, funcs, channels, markers, images)
    ensures k in CellRecord(seg, original, funcs, channels, markers, images, i) <==>
      k == Id || (exists j :: 0 <= j < |funcs| && k in FeatureKeys(funcs[j])) ||
      (channels && exists c :: 0 <= c < |Helper.ChannelKeys(markers)| && k == Sum(LStrip(Helper.ChannelKeys(markers)[c])))
  {
    BaseRecordKeys(seg, original, funcs, i, k);
    if channels {
      ChannelSumsKeys(Helper.ChannelKeys(markers), images, seg, i, k);
    }
  }

  /** With `size` among the features, a record's "size" is the number of
      pixels carrying its id; a label absent from the image gets size 0. */
  lemma CellRecordSize(seg: Grid, original: Grid, funcs: seq<Feature>, channels: bool,
                       markers: seq<string>, images: seq<Grid>, i: int)
    requires Inputs(seg, original, funcs, channels, markers, images)
    requires SizeFeature in funcs
    ensures var rec := CellRecord(seg, original, funcs, channels, markers, images, i);
      SizeColumn in rec && rec[SizeColumn] == multiset(Flatten(seg))[i]
  {
    BaseColumn(seg, original, funcs, i, SizeFeature, SizeColumn);
    SizeOfLabel(seg, i);
    CellRecordColumn(seg, original, funcs, channels, markers, images, i, SizeColumn);
  }

  /** With `border` among the features, a record's "border" is 1 exactly
      when the cell has a pixel on the outermost frame of the image. */
  lemma CellRecordBorder(seg: Grid, original: Grid, funcs: seq<Feature>, channels: bool,
                         markers: seq<string>, images: seq<Grid>, i: int)
    requires Inputs(seg, original, funcs, channels, markers, images)
    requires BorderFeature in funcs
    ensures var rec := CellRecord(seg, original, funcs, channels, markers, images, i);
      BorderColumn in rec && (rec[BorderColumn] == 1 <==>
        exists r, c :: 0 <= r < |seg| && 0 <= c < Width(seg) && seg[r][c] == i &&
          (r == 0 || r == |seg| - 1 || c == 0 || c == Width(seg) - 1))
  {
    BaseColumn(seg, original, funcs, i, BorderFeature, BorderColumn);
    CellRecordColumn(seg, original, funcs, channels, markers, images, i, BorderColumn);
    MaskBorder(seg, i);
  }

  /** The "border" value of a cell's mask, read on the label image. */
  lemma MaskBorder(seg: Grid, i: int)
    requires NonEmpty(seg)
    ensures var m := MaskOf(seg, i);
      |m| >= 1 && Width(m) >= 1 && Rectangular(m) &&
      (Border(m).border == 1 <==>
        exists r, c :: 0 <= r < |seg| && 0 <= c < Width(seg) && seg[r][c] == i &&
          (r == 0 || r == |seg| - 1 || c == 0 || c == Width(seg) - 1))
  {
    var m := MaskOf(seg, i);
    assert Width(m) == Width(seg);
    BorderOnFrame(m);
    forall r, c | 0 <= r < |seg| && 0 <= c < |seg[r]| ensures m[r][c] <==> seg[r][c] == i {
      assert m[r] == MaskRow(seg[r], i);
    }
  }

  /** With `intensity` among the features, a record's "sum" is the sum of
      the original image over the cell's pixels, unless a channel whose name
      is blank up to leading whitespace overwrites it. */
  lemma CellRecordSum(seg: Grid, original: Grid, funcs: seq<Feature>, channels: bool,
                      markers: seq<string>, images: seq<Grid>, i: int)
    requires Inputs(seg, original, funcs, channels, markers, images)
    requires IntensityFeature in funcs
    requires channels ==> forall c :: 0 <= c < |Helper.ChannelKeys(markers)| ==> LStrip(Helper.ChannelKeys(markers)[c]) != ""
    ensures var rec := CellRecord(seg, original, funcs, channels, markers, images, i);
      Sum("") in rec && rec[Sum("")] == MaskedSum(MaskOf(seg, i), original)
  {
    BaseColumn(seg, original, funcs, i, IntensityFeature, Sum(""));
    if channels {
      var keys := Helper.ChannelKeys(markers);
      ChannelSumsKeys(keys, images, seg, i, Sum(""));
    }
  }

  /** With channels, a channel's intensity column holds the sum of that
      channel's image over the cell, unless a later channel has the same
      name up to leading whitespace. */
  lemma CellRecordChannelSum(seg: Grid, original: Grid, funcs: seq<Feature>,
                             markers: seq<string>, images: seq<Grid>, i: int,
                             keys: seq<string>, c: int)
    requires Inputs(seg, original, funcs, true, markers, images)
    requires keys == Helper.ChannelKeys(markers)
    requires 0 <= c < |keys|
    requires forall c' :: c < c' < |keys| ==> LStrip(keys[c']) != LStrip(keys[c])
    ensures var rec := CellRecord(seg, original, funcs, true, markers, images, i);
      Sum(LStrip(keys[c])) in rec &&
      rec[Sum(LStrip(keys[c]))] == MaskedSum(MaskOf(seg, i), images[c])
  {
    ChannelSumsLast(keys, images, seg, i, c);
  }
}
