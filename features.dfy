/** The per-cell feature functions of quantify.py that are exact integer or
    boolean computations on a cell mask: `size`, `border` and the `sum` entry
    of `intensity`. */
module Features {
  import opened Grids
  import opened Text

  /** `segmentation == i`: the pixels of cell `i`. */
  function MaskOf(seg: Grid, i: int): (m: Mask)
    ensures |m| == |seg|
    ensures forall r :: 0 <= r < |seg| ==> |m[r]| == |seg[r]|
    ensures forall r, c :: 0 <= r < |seg| && 0 <= c < |seg[r]| ==> (m[r][c] <==> seg[r][c] == i)
  {
    seq(|seg|, r requires 0 <= r < |seg| => MaskRow(seg[r], i))
  }

  function MaskRow(row: seq<int>, i: int): (mr: seq<bool>)
    ensures |mr| == |row|
  {
    seq(|row|, c requires 0 <= c < |row| => row[c] == i)
  }

  // ---------------------------------------------------------------- size

  /** Number of true pixels in one row. */
  function CountRow(row: seq<bool>): nat {
    if |row| == 0 then 0 else CountRow(row[..|row| - 1]) + (if row[|row| - 1] then 1 else 0)
  }

  /** `size`: the number of true pixels of the mask (`img.sum()` on booleans). */
  function Size(m: Mask): nat {
    if |m| == 0 then 0 else Size(m[..|m| - 1]) + CountRow(m[|m| - 1])
  }

  lemma {:induction false} CountRowBound(row: seq<bool>)
    ensures CountRow(row) <= |row|
    ensures CountRow(row) == 0 <==> forall c :: 0 <= c < |row| ==> !row[c]
  {
    if |row| > 0 {
      var init := row[..|row| - 1];
      CountRowBound(init);
      assert forall c :: 0 <= c < |init| ==> init[c] == row[c];
    }
  }

  /** A mask of h rows of w pixels has between 0 and h * w true pixels. */
  lemma {:induction false} SizeBound(m: Mask, h: nat, w: nat)
    requires IsShape(m, h, w)
    ensures Size(m) <= h * w
  {
    if h > 0 {
      var init := m[..h - 1];
      assert IsShape(init, h - 1, w) by {
        assert forall r :: 0 <= r < h - 1 ==> init[r] == m[r];
      }
      SizeBound(init, h - 1, w);
      CountRowBound(m[h - 1]);
      assert (h - 1) * w + w == h * w;
    }
  }

  /** The size is 0 exactly when no pixel is set. */
  lemma {:induction false} SizeZero(m: Mask)
    ensures Size(m) == 0 <==> forall r, c :: 0 <= r < |m| && 0 <= c < |m[r]| ==> !m[r][c]
  {
    if |m| > 0 {
      var init := m[..|m| - 1];
      SizeZero(init);
      CountRowBound(m[|m| - 1]);
      assert forall r :: 0 <= r < |init| ==> init[r] == m[r];
    }
  }

  lemma {:induction false} CountMaskRow(row: seq<int>, i: int)
    ensures CountRow(MaskRow(row, i)) == multiset(row)[i]
  {
    if |row| > 0 {
      var init := row[..|row| - 1];
      assert MaskRow(row, i)[..|row| - 1] == MaskRow(init, i);
      CountMaskRow(init, i);
      assert row == init + [row[|row| - 1]];
    }
  }

  /** The size of cell `i` is the number of times `i` occurs in the label image. */
  lemma {:induction false} SizeOfLabel(seg: Grid, i: int)
    ensures Size(MaskOf(seg, i)) == multiset(Flatten(seg))[i]
  {
    if |seg| > 0 {
      var init := seg[..|seg| - 1];
      assert MaskOf(seg, i)[..|seg| - 1] == MaskOf(init, i);
      SizeOfLabel(init, i);
      CountMaskRow(seg[|seg| - 1], i);
    }
  }

  /** A label that does not occur in the image has size 0. */
  lemma AbsentLabelSize(seg: Grid, i: int)
    requires i !in multiset(Flatten(seg))
    ensures Size(MaskOf(seg, i)) == 0
  {
    SizeOfLabel(seg, i);
  }

  // -------------------------------------------------------------- border

  /** `np.any` of a row. */
  function AnyTrue(row: seq<bool>): bool {
    if |row| == 0 then false else AnyTrue(row[..|row| - 1]) || row[|row| - 1]
  }

  /** `np.any` holds exactly when some entry is true. */
  lemma {:induction false} AnyTrueExists(row: seq<bool>)
    ensures AnyTrue(row) <==> exists c :: 0 <= c < |row| && row[c]
  {
    if |row| > 0 {
      var init := row[..|row| - 1];
      AnyTrueExists(init);
      if exists c :: 0 <= c < |init| && init[c] {
        var c :| 0 <= c < |init| && init[c];
        assert row[c];
      }
      if exists c :: 0 <= c < |row| && row[c] {
        var c :| 0 <= c < |row| && row[c];
        if c < |init| {
          assert init[c];
        }
      }
    }
  }

  /** `img[:, c]`: one column of the mask. */
  function MaskColumn(m: Mask, c: nat): (col: seq<bool>)
    requires forall r :: 0 <= r < |m| ==> c < |m[r]|
  {
    seq(|m|, r requires 0 <= r < |m| => m[r][c])
  }

  /** The record of `border`: one 0/1 flag per side and whether any side is hit. */
  datatype BorderFlags = BorderFlags(top: int, bottom: int, left: int, right: int, border: int)

  function Flag(b: bool): int {
    if b then 1 else 0
  }

  /** `border`: whether the mask has a pixel in its first row, last row, first
      column or last column. Indexing the first row and column fails on an
      empty image, so the mask has at least one pixel. */
  function Border(m: Mask): BorderFlags
    requires |m| >= 1 && Width(m) >= 1 && Rectangular(m)
  {
    var top := Flag(AnyTrue(m[0]));
    var bottom := Flag(AnyTrue(m[|m| - 1]));
    var left := Flag(AnyTrue(MaskColumn(m, 0)));
    var right := Flag(AnyTrue(MaskColumn(m, Width(m) - 1)));
    var border := Flag(top == 1 || bottom == 1 || left == 1 || right == 1);
    BorderFlags(top, bottom, left, right, border)
  }

  /** Each flag of `border` is 0 or 1, and is 1 exactly when the mask has a
      pixel on that side; the overall flag is 1 exactly when some side is hit. */
  lemma BorderSides(m: Mask)
    requires |m| >= 1 && Width(m) >= 1 && Rectangular(m)
    ensures var f := Border(m);
      (f.top == 1 <==> exists c :: 0 <= c < Width(m) && m[0][c]) &&
      (f.bottom == 1 <==> exists r, c :: r == |m| - 1 && 0 <= c < Width(m) && m[r][c]) &&
      (f.left == 1 <==> exists r :: 0 <= r < |m| && m[r][0]) &&
      (f.right == 1 <==> exists r :: 0 <= r < |m| && m[r][Width(m) - 1]) &&
      (f.border == 1 <==> f.top == 1 || f.bottom == 1 || f.left == 1 || f.right == 1) &&
      f.top in {0, 1} && f.bottom in {0, 1} && f.left in {0, 1} && f.right in {0, 1} &&
      f.border in {0, 1}
  {
    var w := Width(m);
    AnyTrueExists(m[0]);
    AnyTrueExists(m[|m| - 1]);
    var first, last := MaskColumn(m, 0), MaskColumn(m, w - 1);
    AnyTrueExists(first);
    AnyTrueExists(last);
    assert forall r :: 0 <= r < |m| ==> first[r] == m[r][0];
    assert forall r :: 0 <= r < |m| ==> last[r] == m[r][w - 1];
  }

  /** A cell touches the border exactly when one of its pixels lies on the
      outermost frame of the image. */
  lemma BorderOnFrame(m: Mask)
    requires |m| >= 1 && Width(m) >= 1 && Rectangular(m)
    ensures Border(m).border == 1 <==>
      exists r, c :: 0 <= r < |m| && 0 <= c < Width(m) && m[r][c] &&
        (r == 0 || r == |m| - 1 || c == 0 || c == Width(m) - 1)
  {
    BorderSides(m);
    var f := Border(m);
    if f.border == 1 {
      if f.top == 1 {
        var c :| 0 <= c < Width(m) && m[0][c];
      } else if f.bottom == 1 {
        var c :| 0 <= c < Width(m) && m[|m| - 1][c];
      } else if f.left == 1 {
        var r :| 0 <= r < |m| && m[r][0];
      } else {
        var r :| 0 <= r < |m| && m[r][Width(m) - 1];
      }
    }
  }

  /** An empty mask touches no side: all five values are 0. */
  lemma BorderOfEmptyMask(m: Mask)
    requires |m| >= 1 && Width(m) >= 1 && Rectangular(m)
    requires Size(m) == 0
    ensures Border(m) == BorderFlags(0, 0, 0, 0, 0)
  {
    SizeZero(m);
    BorderSides(m);
  }

  // ----------------------------------------------------------- intensity

  /** `orig[img].sum()` for one row. */
  function RowMaskedSum(mr: seq<bool>, row: seq<int>): int
    requires |mr| == |row|
  {
    if |row| == 0 then 0
    else RowMaskedSum(mr[..|row| - 1], row[..|row| - 1]) + (if mr[|row| - 1] then row[|row| - 1] else 0)
  }

  /** The `sum` entry of `intensity`: the sum of the image over the mask. The
      boolean index `orig[img]` needs the image and the mask to have one shape. */
  function MaskedSum(m: Mask, orig: Grid): int
    requires |m| == |orig| && forall r :: 0 <= r < |m| ==> |m[r]| == |orig[r]|
  {
    if |m| == 0 then 0
    else MaskedSum(m[..|m| - 1], orig[..|m| - 1]) + RowMaskedSum(m[|m| - 1], orig[|m| - 1])
  }

  /** Pixelwise negation of a mask. */
  function Invert(m: Mask): (n: Mask)
    ensures |n| == |m| && forall r :: 0 <= r < |m| ==> |n[r]| == |m[r]|
  {
    seq(|m|, r requires 0 <= r < |m| => seq(|m[r]|, c requires 0 <= c < |m[r]| => !m[r][c]))
  }

  lemma {:induction false} RowSplitSum(mr: seq<bool>, row: seq<int>)
    requires |mr| == |row|
    ensures RowMaskedSum(mr, row) + RowMaskedSum(seq(|mr|, c requires 0 <= c < |mr| => !mr[c]), row)
      == RowTotal(row)
  {
    if |row| > 0 {
      var n := |row| - 1;
      var inv := seq(|mr|, c requires 0 <= c < |mr| => !mr[c]);
      assert inv[..n] == seq(n, c requires 0 <= c < n => !mr[..n][c]);
      RowSplitSum(mr[..n], row[..n]);
    }
  }

  /** The sums over a mask and over its complement add up to the total. */
  lemma {:induction false} MaskedSumSplit(m: Mask, orig: Grid)
    requires |m| == |orig| && forall r :: 0 <= r < |m| ==> |m[r]| == |orig[r]|
    ensures MaskedSum(m, orig) + MaskedSum(Invert(m), orig) == Total(orig)
  {
    if |m| > 0 {
      var n := |m| - 1;
      assert Invert(m)[..n] == Invert(m[..n]);
      assert orig[..n] == orig[..|m| - 1];
      MaskedSumSplit(m[..n], orig[..n]);
      RowSplitSum(m[n], orig[n]);
    }
  }

  lemma {:induction false} RowMaskedSumOnes(mr: seq<bool>, row: seq<int>)
    requires |mr| == |row| && forall c :: 0 <= c < |row| ==> row[c] == 1
    ensures RowMaskedSum(mr, row) == CountRow(mr)
  {
    if |row| > 0 {
      RowMaskedSumOnes(mr[..|row| - 1], row[..|row| - 1]);
    }
  }

  /** Over an image that is 1 everywhere, the intensity sum is the size. */
  lemma {:induction false} MaskedSumOfOnes(m: Mask, orig: Grid)
    requires |m| == |orig| && forall r :: 0 <= r < |m| ==> |m[r]| == |orig[r]|
    requires forall r, c :: 0 <= r < |orig| && 0 <= c < |orig[r]| ==> orig[r][c] == 1
    ensures MaskedSum(m, orig) == Size(m)
  {
    if |m| > 0 {
      var n := |m| - 1;
      MaskedSumOfOnes(m[..n], orig[..n]);
      RowMaskedSumOnes(m[n], orig[n]);
    }
  }

  /** Only pixels inside the mask contribute: an empty mask sums to 0. */
  lemma {:induction false} MaskedSumOfEmptyMask(m: Mask, orig: Grid)
    requires |m| == |orig| && forall r :: 0 <= r < |m| ==> |m[r]| == |orig[r]|
    requires forall r, c :: 0 <= r < |m| && 0 <= c < |m[r]| ==> !m[r][c]
    ensures MaskedSum(m, orig) == 0
  {
    if |m| > 0 {
      var n := |m| - 1;
      MaskedSumOfEmptyMask(m[..n], orig[..n]);
      RowEmptySum(m[n], orig[n]);
    }
  }

  lemma {:induction false} RowEmptySum(mr: seq<bool>, row: seq<int>)
    requires |mr| == |row| && forall c :: 0 <= c < |mr| ==> !mr[c]
    ensures RowMaskedSum(mr, row) == 0
  {
    if |row| > 0 {
      RowEmptySum(mr[..|row| - 1], row[..|row| - 1]);
    }
  }

  /** The column name `f"{channel} {stat}".lstrip()`. */
  function StatKey(channel: string, stat: string): (key: string)
    requires stat != [] && !IsSpace(stat[0])
    ensures channel == [] ==> key == stat
    ensures channel != [] && !IsSpace(channel[0]) ==> key == channel + " " + stat
    ensures |key| >= |stat| && key[|key| - |stat|..] == stat
  {
    var full := channel + " " + stat;
    LStripKeepsTail(full, |stat|);
    LStripProps(full);
    assert channel == [] ==> LStrip(full) == stat by {
      if channel == [] {
        assert LStrip(full) == LStrip(full[1..]);
        assert full[1..] == stat;
      }
    }
    LStrip(full)
  }

  /** The column name depends on the channel only through the channel with
      its leading whitespace removed; a blank channel gives the bare stat. */
  lemma StatKeyOfStripped(channel: string, stat: string)
    requires stat != [] && !IsSpace(stat[0])
    ensures StatKey(channel, stat) ==
      if LStrip(channel) == [] then stat else LStrip(channel) + " " + stat
  {
    assert channel + " " + stat == channel + (" " + stat);
    LStripAppend(channel, " " + stat);
    if LStrip(channel) == [] {
      assert (" " + stat)[1..] == stat;
      assert LStrip(" " + stat) == LStrip(stat);
    } else {
      assert LStrip(channel) + (" " + stat) == LStrip(channel) + " " + stat;
    }
  }

  /** `lstrip` never eats into a tail that starts with a non-space. */
  lemma LStripKeepsTail(s: string, n: nat)
    requires 0 < n <= |s| && !IsSpace(s[|s| - n])
    ensures |LStrip(s)| >= n
  {
    LStripProps(s);
  }
}
