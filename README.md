# Label-image quantification and relabelling, in Dafny

This project models the integer core of a small microscopy-image analysis
package (the `codex` Python package). It covers three parts.

- **Per-cell quantification** (`quantify.py`). A label image is a 2-D integer
  grid where each positive value is one cell and 0 is background. For every
  id `1..max`, `quantify_segmentation` builds the boolean mask
  `segmentation == i` and starts a record `{"id": i}`. It merges in the output
  of each feature function in `funcs`, then, when `channels` is set, the
  intensity of every channel in `CHANNEL_NUM`. The feature functions modelled
  are `size` (pixel count), `border` (four side flags plus an aggregate) and
  the `sum` entry of `intensity`. `get_x_and_y` reads tile coordinates out of
  a file name.
- **Relabelling** (`segmentation.py`, `label_segmentation_mask`). This turns a
  label image into a cell-type image using an annotation table of
  (id, type) rows.
- **Tiles and channel tables** (`helper.py`). `crop_tma` cuts an image into an
  `nrows x ncols` grid of equal tiles. `NUM_CHANNEL` and `CHANNEL_NUM` are the
  lookup tables between channel indices and marker names.

Files and modules:

| file | module | contents |
|---|---|---|
| `wrappers.dfy` | `Wrappers` | `Result` with `:-` propagation |
| `text.dfy` | `Text` | the Python string operations the core uses: `split`, `lstrip`, `strip`, decimal numerals; plus `str(int)`, which the core does not call, used only to build names for the round trip of `int()` |
| `grids.dfy` | `Grids` | images as sequences of rows, shapes, row-major flattening, totals |
| `names.dfy` | `TileNames` | `os.path.splitext`, `int()`, `get_x_and_y` |
| `features.dfy` | `Features` | `segmentation == i`, `size`, `border`, the `sum` of `intensity`, column-name building |
| `quantify.dfy` | `Quantify` | the record loop of `quantify_segmentation` as methods, proved against the table functions |
| `helper.dfy` | `Helper` | `crop_tma` over n-dimensional images, `NUM_CHANNEL`, `CHANNEL_NUM` and its key order |
| `segmentation.dfy` | `Segmentation` | `label_segmentation_mask` on `array2<int>`, proved against `Relabel` |

`quantify_segmentation` and `label_segmentation_mask` are imperative in the
source, and are imperative here too.

- `Quantify.QuantifySegmentation` and its loop methods build the table
  record by record. Their `ensures` tie each result to the `Table`,
  `CellRecord`, `BaseRecord` and `ChannelSums` functions. The lemmas are
  stated about those functions.
- `Segmentation.LabelSegmentationMask` works on a copy of the image in
  place. It truncates the types into a new array, shifts that array in
  place, and writes each unique type through a mask taken on the original
  labels. It then zeroes the unannotated pixels. Its `ensures` says that
  every pixel holds `Relabel(annotation, label)`.

The other code is pure and is modelled with functions and lemmas.

A table column is the datatype `Quantify.Column`. An intensity column is
`Sum(c)`, where `c` is the channel name with its leading whitespace removed.
`Quantify.ColumnName` gives the string the source uses. Two lemmas justify
keying records by `Column` rather than by name:
- `Quantify.ColumnNamesDistinct` shows that distinct columns have distinct names.
- `Quantify.IntensityColumnName` shows that `Sum(LStrip(c))` is named
  `f"{c} sum".lstrip()`.

So two channels collide in a record exactly when the source's keys collide.

## Model

| member | source | states |
|---|---|---|
| Text.IndexOf | quantify.py:15 | the index of the first occurrence of a character, or -1 exactly when it is absent |
| Text.LastIndexOf | quantify.py:15 | the index of the last occurrence of a character: no later position holds it |
| Text.IndexOfUnique | quantify.py:15 | a position holding the character with none before it is the first occurrence |
| Text.Split | quantify.py:15 | `str.split(sep)` gives at least one field; a single field, the string itself, when there is no separator; and at least two when there is one |
| Text.SplitFieldsFree | quantify.py:15 | no field of `str.split(sep)` contains the separator |
| Text.JoinSplit | quantify.py:15 | joining the fields of a split with the separator gives the string back |
| Text.SplitAtFirst | quantify.py:15 | splitting cuts at the first separator and splits the rest |
| Text.SplitAppend | quantify.py:15 | splitting `a + sep + b` gives the fields of `a` followed by the fields of `b` |
| Text.LStrip | quantify.py:33-35 | `str.lstrip()`: drops the leading characters for which `str.isspace` holds; its properties are stated by `LStripProps` and `LStripAppend` |
| Text.LStripProps | quantify.py:33-35 | `lstrip` removes exactly a leading run of whitespace and leaves a string that does not start with whitespace |
| Text.LStripAppend | quantify.py:33-35 | `lstrip` of a concatenation reaches into the second part only when the first is all whitespace |
| Text.RStrip | quantify.py:16 | `rstrip` removes exactly a trailing run of whitespace |
| Text.StripUnpadded | quantify.py:16 | a string with no whitespace at either end is its own `strip` |
| Text.StripPadded | quantify.py:16 | `strip` removes whitespace padding on both sides and nothing of a body that starts and ends with a non-space |
| Text.Digits | quantify.py:16 | `str(n)` for n >= 0 is a numeral without a leading zero whose value is n |
| Text.ShowInt | quantify.py:16 | `str(n)` is non-empty, has no surrounding whitespace, and holds no `_`, `.` or `/` |
| TileNames.SplitExt | quantify.py:15 | `os.path.splitext`: stem and extension concatenate to the path; the extension starts with its only dot and lies in the last path component |
| TileNames.SplitExtNoDot | quantify.py:15 | no extension is split off when the last dot does not come after the last slash |
| TileNames.SplitExtLeadingDots | quantify.py:15 | no extension is split off when the last path component is only dots up to its last dot (`.bashrc`) |
| TileNames.ParseInt | quantify.py:16 | `int(s)` succeeds only on a string with a digit and otherwise fails with that string; `ParseIntPadded` and `ParseIntForm` state its domain and value, up to CPython's digit limit |
| TileNames.ParseIntForm | quantify.py:16 | `int(s)` succeeds only when s is whitespace, an optional sign, a run of digits and whitespace, and then returns the number that literal denotes (so `int("1-2")`, `int("1 2")` and `int("+-3")` fail) |
| TileNames.ParseIntPadded | quantify.py:16 | a run of decimal digits with an optional sign, padded on either side with whitespace other than U+001C to U+001F, parses to the number it denotes (`int(" 007 ") == 7`, `int("-3") == -3`) |
| TileNames.ParseIntRejects | quantify.py:16 | a string holding a character that is no digit, no sign and no whitespace `int` skips (a letter, as in `"X03"`) fails to parse |
| TileNames.ParseXY | quantify.py:14-16 | `get_x_and_y`: the last two underscore-separated fields of the name without its extension, read as integers, x first; stated by `ParseXYTooFewFields`, `ParseXYRejects` and `ParseXYRoundTrip` |
| TileNames.ParseXYSuccess | quantify.py:14-16 | when `get_x_and_y` returns (x, y), the last two fields of the name without its extension are integer literals denoting x and y |
| TileNames.ParseXYTooFewFields | quantify.py:14-16 | `get_x_and_y` fails with too few fields exactly when the name without its extension holds no underscore |
| TileNames.ParseXYRejects | quantify.py:14-16 | a letter (or another character `int` never accepts) in the x or the y field makes `get_x_and_y` fail with `NotAnInteger` on the first of the two fields that is not an integer |
| TileNames.ParseShowInt | quantify.py:16 | `int(str(n)) == n` |
| TileNames.ParseXYRoundTrip | quantify.py:14-16 | a name `<prefix>_<x>_<y><ext>` gives back (x, y) whatever the prefix |
| TileNames.LastTwoFields | quantify.py:15 | the last two fields of `<prefix>_<xs>_<ys>` are xs and ys |
| TileNames.StemOfName | quantify.py:15 | `splitext` cuts exactly at a one-component extension |
| Features.MaskOf | quantify.py:92 | the mask `segmentation == i` has the shape of the label image and is true exactly at the pixels labelled i |
| Features.Size | quantify.py:24-25 | `size`: the number of true pixels of the mask, counted row by row; its properties are stated by `SizeBound`, `SizeZero` and `SizeOfLabel` |
| Features.CountRowBound | quantify.py:24-25 | a row count is at most the row length, and 0 exactly when no pixel is set |
| Features.SizeBound | quantify.py:24-25 | `size` of an h x w mask is at most h * w |
| Features.SizeZero | quantify.py:24-25 | `size` is 0 exactly when no pixel is set |
| Features.CountMaskRow | quantify.py:24-25 | the count of `row == i` is the number of occurrences of i in the row |
| Features.SizeOfLabel | quantify.py:24-25 | the size of cell i is the number of pixels labelled i |
| Features.AbsentLabelSize | quantify.py:24-25 | a label missing from the image has size 0 |
| Features.AnyTrueExists | quantify.py:59-62 | `np.any` holds exactly when some entry is true |
| Features.Border | quantify.py:58-70 | `border`: the four side flags from `np.any` on the first and last rows and columns, and the aggregate flag; its properties are stated by `BorderSides`, `BorderOnFrame` and `BorderOfEmptyMask` |
| Features.BorderSides | quantify.py:58-70 | each side flag is 1 exactly when the mask has a pixel in that row or column and is otherwise 0; `border` is 1 exactly when a side flag is 1 |
| Features.BorderOnFrame | quantify.py:58-70 | `border` is 1 exactly when a mask pixel lies on the outermost frame of the image |
| Features.BorderOfEmptyMask | quantify.py:58-70 | an all-false mask yields all five values 0 |
| Features.MaskedSum | quantify.py:31-35 | `orig[img].sum()`: the sum of the original image over the mask's pixels; its properties are stated by `MaskedSumSplit`, `MaskedSumOfOnes` and `MaskedSumOfEmptyMask` |
| Features.RowSplitSum | quantify.py:31-35 | for one row, the sums over a mask and over its complement add up to the row total |
| Features.MaskedSumSplit | quantify.py:31-35 | the intensity sums over a mask and over its complement add up to the image total |
| Features.MaskedSumOfOnes | quantify.py:31-35 | over an image of ones, the intensity sum equals `size` |
| Features.RowMaskedSumOnes | quantify.py:31-35 | for one row of ones, the masked sum is the count of set pixels |
| Features.MaskedSumOfEmptyMask | quantify.py:31-35 | an empty mask sums to 0 |
| Features.RowEmptySum | quantify.py:31-35 | for one row, an empty mask sums to 0 |
| Features.StatKey | quantify.py:33-35 | `f"{channel} {stat}".lstrip()` is the bare stat for an empty channel, `channel + " " + stat` for an unpadded one, and always ends in the stat |
| Features.StatKeyOfStripped | quantify.py:33-35 | the column name depends on the channel only through the channel without its leading whitespace |
| Quantify.ColumnName | quantify.py:24-70 | the string key of each column; `ColumnNamesDistinct` and `IntensityColumnName` state that keying by column is keying by that string |
| Quantify.IntensityColumnName | quantify.py:35 | column `Sum(LStrip(c))` is named `f"{c} sum".lstrip()` |
| Quantify.FixedNameNotSum | quantify.py:64-70 | no name of the id, size or border columns ends in "sum" |
| Quantify.SumNameEndsInSum | quantify.py:35 | every intensity column name ends in "sum" |
| Quantify.SumNamesDistinct | quantify.py:35 | different stripped channels give different intensity column names |
| Quantify.ColumnNamesDistinct | quantify.py:93-107 | distinct columns have distinct names, so merging by column is merging by name |
| Quantify.GridMax | quantify.py:91 | `segmentation.max()` is a pixel value that no pixel exceeds |
| Quantify.FeatureKeysDisjoint | quantify.py:24-70 | `size`, `border` and `intensity` write disjoint columns |
| Quantify.SizeRecord | quantify.py:24-25 | the dict `size` returns: the `size` column holding the mask's pixel count |
| Quantify.BorderRecord | quantify.py:58-70 | the dict `border` returns: the four side flags and the aggregate flag of `Features.Border` |
| Quantify.IntensityRecord | quantify.py:28-36 | the integer part of the dict `intensity` returns: the sum over the mask, under the channel's stripped sum column |
| Quantify.FeatureRecord | quantify.py:95-97 | `func(img=mask, original=orig)` for `size`, `border` and `intensity` (`SizeRecord`, `BorderRecord`, `IntensityRecord`); `FeatureRecordKeys` states its columns |
| Quantify.FeatureRecordKeys | quantify.py:95-97 | each feature function writes exactly its own columns |
| Quantify.BaseRecord | quantify.py:93-97 | `{"id": i}` updated by every feature in `funcs`, in order; stated by `BaseRecordKeys`, `BaseRecordId` and `BaseColumn` |
| Quantify.ChannelSums | quantify.py:99-106 | the channel dictionary: the intensity of each channel, merged in key order; stated by `ChannelSumsKeys` and `ChannelSumsLast` |
| Quantify.CellRecord | quantify.py:92-107 | the record of cell i: the base record, then the channel dictionary when `channels` is set; stated by `CellRecordKeys`, `CellRecordSize`, `CellRecordBorder`, `CellRecordSum` and `CellRecordChannelSum` |
| Quantify.Table | quantify.py:91-109 | the records of cells 1..n in order; stated by `TableCells` and `TableIds` |
| Quantify.TableCells | quantify.py:91-109 | the table of n cells has n records, the k-th being that of cell k + 1 |
| Quantify.QuantifySegmentation | quantify.py:89-113 | fails exactly on an image without pixels; otherwise returns max(segmentation.max(), 0) records, the k-th being the record of cell k + 1 |
| Quantify.QuantifyCells | quantify.py:89-109 | the loop over ids 1..max appends the records in order |
| Quantify.MeasureCell | quantify.py:92-107 | the body of the id loop computes the cell's record: features, then channels |
| Quantify.FeatureLoop | quantify.py:93-97 | `data_dict.update(func(...))` over `funcs`, in order, from `{"id": i}` |
| Quantify.ChannelLoop | quantify.py:99-106 | the channel dictionary merges the intensity of each channel, in key order |
| Quantify.BaseRecordKeys | quantify.py:93-97 | a base record holds "id" and exactly the columns of the features in `funcs` |
| Quantify.BaseRecordId | quantify.py:93-97 | no feature overwrites the "id" column |
| Quantify.BaseColumn | quantify.py:93-97 | a feature's column holds that feature's value, since no other feature writes it |
| Quantify.ChannelSumsKeys | quantify.py:99-106 | the channel dictionary has one intensity column per stripped channel name |
| Quantify.ChannelSumsLast | quantify.py:99-106 | a channel's column holds its sum unless a later channel has the same stripped name (a later update wins) |
| Quantify.NotAChannelColumn | quantify.py:105-107 | channel intensities never land in the id, size or border columns |
| Quantify.CellRecordColumn | quantify.py:107 | merging the channel dictionary leaves the id, size and border columns as they were |
| Quantify.CellRecordId | quantify.py:93-109 | every record carries its own id |
| Quantify.TableIds | quantify.py:91-109 | the k-th record has id k + 1, ids increase, and no record is for label 0 |
| Quantify.CellRecordKeys | quantify.py:93-107 | a record's columns are "id", the feature columns and, with channels, one intensity column per channel |
| Quantify.CellRecordSize | quantify.py:24-25 | the record's "size" is the number of pixels carrying its id (0 for an absent label) |
| Quantify.CellRecordBorder | quantify.py:58-70 | the record's "border" is 1 exactly when the cell has a pixel on the image frame |
| Quantify.MaskBorder | quantify.py:58-70 | `border` of the cell's mask read directly on the label image |
| Quantify.CellRecordSum | quantify.py:28-36 | with `intensity` among the features, "sum" is the sum of the original image over the cell, with or without channels, provided no channel name is blank up to leading whitespace |
| Quantify.CellRecordChannelSum | quantify.py:98-107 | with channels, a channel's column holds the sum of its image over the cell, unless a later channel has the same stripped name |
| Helper.TruncDiv | helper.py:77 | `int(a / b)` truncates toward zero and is floor division for a positive divisor |
| Helper.SliceIndex | helper.py:78-80 | a Python slice bound is clamped into [0, n] and is kept when already in range |
| Helper.Slice | helper.py:78-80 | an in-range Python slice is the plain subsequence |
| Helper.CropTma | helper.py:76-80 | `crop_tma` fails exactly when a grid dimension is 0 (ZeroDivisionError) |
| Helper.ShapedDims | helper.py:77 | the last two axes of a well-shaped image are its height and width |
| Helper.CropAll | helper.py:79 | `img[..., r0:r1, c0:c1]`: the Python slice of the last two axes of every plane, leading axes kept; stated by `CropAllWindow` and `CropZeroHeight` |
| Helper.CropAllWindow | helper.py:78-80 | slicing the last two axes inside the image gives, in every plane, the window at (r0, c0), and keeps the leading axes |
| Helper.CropTmaInGrid | helper.py:76-80 | an in-grid tile has floor(H/nrows) x floor(W/ncols) pixels per plane, the same leading axes, and crop[r][c] = img[row*v_size + r][col*h_size + c] |
| Helper.CropTmaNoRows | helper.py:76-80 | the same for an image without rows: the crop is empty |
| Helper.CropZeroHeight | helper.py:78-80 | a crop of an image without rows is empty whatever the column bounds |
| Helper.CropTmaDefault | helper.py:76 | without grid arguments, the crop is the top-left tile of a 3 x 2 grid |
| Helper.TilesDisjoint | helper.py:77-80 | distinct tiles cover disjoint pixels |
| Helper.TileIndex | helper.py:77-80 | the tile holding a coordinate is found by floor division |
| Helper.TileOfPixel | helper.py:77-80 | every pixel of the nrows*v_size x ncols*h_size block lies in the in-grid tile found by floor division |
| Helper.FloorBlock | helper.py:77-80 | floor division places a coordinate of the block in a tile below n |
| Helper.RemainderInNoTile | helper.py:77-80 | the remainder rows and columns lie in no in-grid tile |
| Helper.NumChannel | helper.py:71 | `NUM_CHANNEL`: channel index to marker; `NameIndexName` and `IndexNameIndex` relate it to `CHANNEL_NUM` |
| Helper.Enumerated | helper.py:72 | `{marker: i for i, marker in enumerate(markers)}`, inserting in order; stated by `EnumeratedKeys` and `EnumeratedLast` |
| Helper.ChannelNum | helper.py:72-73 | `CHANNEL_NUM`: the enumeration with "Hoechst" set to 0; stated by `ChannelNumKeys` and `ChannelNumIndex` |
| Helper.EnumeratedKeys | helper.py:72 | the enumeration dict has exactly the markers as keys |
| Helper.ChannelNumKeys | helper.py:72-73 | `CHANNEL_NUM` has a key per marker plus "Hoechst", and `CHANNEL_NUM["Hoechst"]` is 0 whatever the list holds |
| Helper.EnumeratedLast | helper.py:72 | a repeated marker maps to its last index |
| Helper.ChannelNumIndex | helper.py:72-73 | `CHANNEL_NUM[m]` is the index of the last occurrence of m, for any marker other than "Hoechst" |
| Helper.NameIndexName | helper.py:71-73 | `NUM_CHANNEL[CHANNEL_NUM[m]] == m` for any marker other than "Hoechst" |
| Helper.IndexNameIndex | helper.py:71-73 | for distinct markers, `CHANNEL_NUM[NUM_CHANNEL[i]] == i` unless the marker is "Hoechst" at a non-zero index |
| Helper.InsertionOrder | helper.py:72 | the key order of the enumeration dict: markers by first appearance; stated by `InsertionOrderProps` and `InsertionOrderFirstSeen` |
| Helper.InsertionOrderProps | helper.py:72 | the dict's key order lists each marker once |
| Helper.InsertionOrderFirstSeen | helper.py:72 | of two keys, the earlier one is first seen in the marker list before the later one |
| Helper.ChannelKeys | helper.py:72-73 | `CHANNEL_NUM.keys()`: the markers by first appearance, then "Hoechst" only when the list does not hold it; stated by `ChannelKeysProps` and `InsertionOrderFirstSeen` |
| Helper.ChannelKeysProps | helper.py:72-73 | `CHANNEL_NUM.keys()` lists every key of `CHANNEL_NUM` exactly once |
| Segmentation.Trunc | segmentation.py:69 | `astype(int)` truncates toward zero |
| Segmentation.TruncWhole | segmentation.py:69 | whole type values are kept |
| Segmentation.Types | segmentation.py:69-73 | every type is shifted by +1 exactly when some truncated type is 0 |
| Segmentation.Insert | segmentation.py:75 | inserting into an increasing sequence keeps it increasing and adds exactly the value |
| Segmentation.Unique | segmentation.py:75 | `np.unique` is strictly increasing and holds exactly the values of its input |
| Segmentation.LabelSegmentationMask | segmentation.py:64-83 | returns a new array of the input's shape in which each pixel holds `Relabel` of its original label; the input is not modified |
| Segmentation.CopyImage | segmentation.py:68 | `segmentation.copy()` is a fresh array equal to the input |
| Segmentation.TruncateTypes | segmentation.py:69 | the type column, truncated, as a new array |
| Segmentation.ShiftTypes | segmentation.py:72-73 | `cell_types += 1` raises every entry by one, in place |
| Segmentation.WriteWhere | segmentation.py:76-77 | pixels whose original label is among the ids get t; the others keep their value |
| Segmentation.ZeroWhereNot | segmentation.py:80-81 | pixels whose original label is not annotated become 0; the others keep their value |
| Segmentation.IdsOfType | segmentation.py:76 | `cell_ids[cell_types == t]`; stated by `IdsOfTypeMember` |
| Segmentation.LargestType | segmentation.py:75-77 | the largest (shifted) type annotated for a cell; stated by `LargestTypeIs` |
| Segmentation.Written | segmentation.py:75-77 | the value a pixel of label v holds after writing the given types in order; stated by `WrittenLast` and `WrittenIsLargest` |
| Segmentation.Relabel | segmentation.py:64-83 | the output value of a pixel of label v; stated by `RelabelUnannotated`, `RelabelAnnotated`, `AnnotatedNotBackground` and `ZeroTypeWrittenAsOne` |
| Segmentation.IdsOfTypeMember | segmentation.py:76 | a cell is among `cell_ids[cell_types == t]` exactly when t is one of its types |
| Segmentation.LargestTypeIs | segmentation.py:75-77 | the largest type of a cell is one of its types and no smaller than any |
| Segmentation.WrittenLast | segmentation.py:75-77 | writing increasing types in order leaves the largest that belongs to the cell, or the initial value when none does |
| Segmentation.WrittenIsLargest | segmentation.py:75-77 | when every type is written, an annotated cell ends with its largest type |
| Segmentation.RelabelUnannotated | segmentation.py:80-81 | a label that is no annotated id becomes 0 |
| Segmentation.RelabelAnnotated | segmentation.py:75-77 | an annotated cell gets the largest of its (shifted) types: the last write in ascending order wins |
| Segmentation.AnnotatedNotBackground | segmentation.py:72-77 | with no negative types, every annotated cell is written with a value >= 1, so no annotated cell reads as background |
| Segmentation.ZeroTypeWrittenAsOne | segmentation.py:72-77 | a cell whose every type truncates to 0 is written as 1, because the 0 type shifts all types by one |

Because `LabelSegmentationMask` states every output pixel as a function of
that pixel's original label, pixels with equal labels get equal values. The
masks are read on the original image, never on the partly rewritten copy.

## Left out

- `position`, `ellipse` and the `mean`/`std` entries of `intensity` are left out. They produce floating-point values or call scipy and OpenCV. The `Feature` datatype therefore offers `size`, `border` and `intensity`. The default `funcs` becomes `[size, border]`, the integer part of `[position, size, ellipse, border]`.
- `intensity` is modelled only by its `sum` column. A record holds that one intensity column, not the three the source writes.
- Loading is not modelled: `experiment.get_slide` and `experiment.get_tile` are left out, and `codex.experiment` is not part of this model. The label image, the original image and the channel images are parameters instead. `x`, `y` and the `segmentation` string select what is loaded, so they are not modelled either; the `name` argument is never read by the body of `quantify_segmentation`.
  - The channel images come as a list aligned with the key order of `CHANNEL_NUM`, given by `Helper.ChannelKeys`.
  - Every image a mask indexes must have the label image's shape. Originals of other shapes are not modelled: numpy would raise an IndexError for some and, for an original with trailing axes (H, W, k), sum all k values of each pixel.
- The `tqdm` progress bar is not modelled. The final `pd.DataFrame` is not modelled either: the table is the list of records, each a map from column to integer. The union of columns and NaN filling are pandas behaviour.
- Pixel values and labels are unbounded integers. numpy's fixed-width dtypes are not modelled: no overflow of `sum`, no wrap-around when a type is written into a narrow label array, and no wrap-around of `segmentation.max() + 1` (under NumPy 2 a uint8 or uint16 label image whose largest label is 255 or 65535 gets no records, where `QuantifySegmentation` returns `GridMax` of them).
- Features.Border: requires a mask with at least one pixel. On an image without rows the source fails at `img[0]`, and on one with rows but no columns at `img[:, 0]`; and `quantify_segmentation` already fails earlier with `EmptySegmentation` at `segmentation.max()`.
- `int()` is modelled for ASCII digits only; Unicode decimal digits are not. The whitespace it skips and `str.strip` removes is the full `str.isspace` set, except that `int` rejects U+001C to U+001F anywhere. Underscores inside numerals cannot occur, because the fields are split on `_`.
- TileNames.ParseIntPadded: does not model CPython's configurable limit on decimal conversions (`sys.get_int_max_str_digits`, 4300 digits by default, leading zeros included), beyond which `int()` raises ValueError; numerals of any length parse here.
- TileNames.ParseShowInt: the digit limit is not modelled, so `int(str(n)) == n` is stated for every n, although both conversions raise for |n| >= 10^4300 under the default limit.
- TileNames.ParseXYRoundTrip: the digit limit is not modelled, so the round trip is stated for every x and y, although `get_x_and_y` raises for coordinates of more than 4300 digits under the default limit.
- `os.path.splitext` is modelled for POSIX paths only.
- Helper.TruncDiv: assumes `int(a / b)` is exact. Float rounding for image dimensions above 2^53 is not modelled.
- `crop_tma` is modelled for images with at least two axes.
- Segmentation.Trunc: types are finite reals. A NaN or infinite type, which a float column can hold when a type is missing, is not modelled; `astype(int)` turns it into a platform-dependent integer without raising.
- In `label_segmentation_mask`, the annotation is a list of (id, type) rows. The pandas column selection by `type_col`/`id_col` is not modelled. Ids are integers, and float ids compared by `np.isin` are not modelled.
- The module-level CSV and glob loading of helper.py is left out, because it reads hard-coded paths. The marker list from which `NUM_CHANNEL` and `CHANNEL_NUM` are built is a parameter.
- Plotting (interactive.py, plot.py, `label_cells`, `generate_cmap`, `draw_box`, `CodexVis`), `clahe`, `load_tma`, `load_segmentation`, `load_quantification`, `load_all_tma` and `DataLoader` are left out. They are I/O or visualisation with nothing to state.
