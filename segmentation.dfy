/** segmentation.py, `label_segmentation_mask`: turns a label image, where
    each positive value is one cell, into a cell-type image, using an
    annotation table of (id, type) rows. */
module Segmentation {

  /** One row of the annotation table: a cell id and its (possibly
      fractional) type value. */
  datatype Annotation = Annotation(id: int, cellType: real)

  // ------------------------------------------------------- specification

  /** `astype(int)` on a float: truncation toward zero. */
  function Trunc(x: real): (n: int)
    ensures x >= 0.0 ==> 0 <= n && n as real <= x < n as real + 1.0
    ensures x < 0.0 ==> n <= 0 && n as real - 1.0 < x <= n as real
  {
    if x >= 0.0 then x.Floor else -((-x).Floor)
  }

  /** Whole type values are kept as they are. */
  lemma TruncWhole(n: int)
    ensures Trunc(n as real) == n
  {
    if n < 0 {
      assert (-(n as real)).Floor == -n;
    }
  }

  /** `annotation[id_col].values`. */
  function Ids(ann: seq<Annotation>): (ids: seq<int>)
    ensures |ids| == |ann| && forall k :: 0 <= k < |ann| ==> ids[k] == ann[k].id
  {
    seq(|ann|, k requires 0 <= k < |ann| => ann[k].id)
  }

  /** `annotation[type_col].values.astype(int)`. */
  function Truncated(ann: seq<Annotation>): (ts: seq<int>)
    ensures |ts| == |ann| && forall k :: 0 <= k < |ann| ==> ts[k] == Trunc(ann[k].cellType)
  {
    seq(|ann|, k requires 0 <= k < |ann| => Trunc(ann[k].cellType))
  }

  /** The types that are written: the truncated types, all raised by one
      when one of them is 0 (so that type 0 does not read as background). */
  function Types(ann: seq<Annotation>): (ts: seq<int>)
    ensures |ts| == |ann|
    ensures forall k :: 0 <= k < |ann| ==>
      ts[k] == Trunc(ann[k].cellType) + (if 0 in Truncated(ann) then 1 else 0)
  {
    var t := Truncated(ann);
    if 0 in t then seq(|t|, k requires 0 <= k < |t| => t[k] + 1) else t
  }

  /** The types annotated for cell `v`. */
  function TypesOf(ids: seq<int>, ts: seq<int>, v: int): set<int>
    requires |ids| == |ts|
  {
    set k | 0 <= k < |ids| && ids[k] == v :: ts[k]
  }

  /** The largest type annotated for cell `v`. */
  function LargestType(ids: seq<int>, ts: seq<int>, v: int): int
    requires |ids| == |ts| && v in ids
  {
    var n := |ids| - 1;
    if ids[n] != v then
      LargestType(ids[..n], ts[..n], v)
    else if v in ids[..n] then
      var m := LargestType(ids[..n], ts[..n], v);
      if ts[n] > m then ts[n] else m
    else ts[n]
  }

  /** What a pixel labelled `v` becomes: the largest of its cell's types,
      or 0 for a cell that has no annotation. */
  function Relabel(ann: seq<Annotation>, v: int): int {
    if v in Ids(ann) then LargestType(Ids(ann), Types(ann), v) else 0
  }

  /** `cell_ids[cell_types == t]`, in table order. */
  function IdsOfType(ids: seq<int>, ts: seq<int>, t: int): seq<int>
    requires |ids| == |ts|
  {
    if |ids| == 0 then []
    else
      var n := |ids| - 1;
      IdsOfType(ids[..n], ts[..n], t) + (if ts[n] == t then [ids[n]] else [])
  }

  /** Strictly increasing, as the output of `np.unique`. */
  predicate Increasing(u: seq<int>) {
    forall i, j :: 0 <= i < j < |u| ==> u[i] < u[j]
  }

  /** Adds `x` to an increasing sequence, keeping it increasing. */
  function Insert(u: seq<int>, x: int): (r: seq<int>)
    requires Increasing(u)
    ensures Increasing(r)
    ensures forall y :: y in r <==> y in u || y == x
  {
    if |u| == 0 then [x]
    else if x < u[0] then [x] + u
    else if x == u[0] then u
    else
      var rest := Insert(u[1..], x);
      assert forall y :: y in u <==> y == u[0] || y in u[1..];
      assert forall k :: 0 <= k < |rest| ==> u[0] < rest[k] by {
        forall k | 0 <= k < |rest|
          ensures u[0] < rest[k]
        {
          assert rest[k] in rest;
        }
      }
      [u[0]] + rest
  }

  /** `np.unique`: the distinct values, in ascending order. */
  function Unique(s: seq<int>): (u: seq<int>)
    ensures Increasing(u)
    ensures forall y :: y in u <==> y in s
  {
    if |s| == 0 then []
    else
      var n := |s| - 1;
      assert forall y :: y in s <==> y in s[..n] || y == s[n] by {
        assert s == s[..n] + [s[n]];
      }
      Insert(Unique(s[..n]), s[n])
  }

  /** The value a pixel labelled `v` holds after the writes for the types
      `us`, in order, starting from `init`: the last type whose ids include
      `v` wins. */
  function Written(us: seq<int>, ids: seq<int>, ts: seq<int>, v: int, init: int): int
    requires |ids| == |ts|
  {
    if |us| == 0 then init
    else
      var n := |us| - 1;
      if v in IdsOfType(ids, ts, us[n]) then us[n] else Written(us[..n], ids, ts, v, init)
  }

  // -------------------------------------------------------------- method

  /** `label_segmentation_mask(segmentation, annotation)`: a new image of the
      same shape in which every pixel holds `Relabel` of its label. */
  method LabelSegmentationMask(seg: array2<int>, annotation: seq<Annotation>)
    returns (labeled: array2<int>)
    ensures fresh(labeled)
    ensures labeled.Length0 == seg.Length0 && labeled.Length1 == seg.Length1
    ensures forall r, c :: 0 <= r < seg.Length0 && 0 <= c < seg.Length1 ==>
      labeled[r, c] == Relabel(annotation, seg[r, c])
  {
    labeled := CopyImage(seg);
    var cellTypes := TruncateTypes(annotation);
    var cellIds := Ids(annotation);
    if 0 in cellTypes[..] {
      ShiftTypes(cellTypes);
    }
    assert cellTypes[..] == Types(annotation);
    var ts := cellTypes[..];
    var uniq := Unique(ts);
    var u := 0;
    while u < |uniq|
      invariant 0 <= u <= |uniq|
      invariant forall r, c :: 0 <= r < seg.Length0 && 0 <= c < seg.Length1 ==>
        labeled[r, c] == Written(uniq[..u], cellIds, ts, seg[r, c], seg[r, c])
    {
      var t := uniq[u];
      WriteWhere(labeled, seg, IdsOfType(cellIds, ts, t), t);
      assert uniq[..u + 1][..u] == uniq[..u];
      u := u + 1;
    }
    assert uniq[..u] == uniq;
    ZeroWhereNot(labeled, seg, cellIds);
    forall r, c | 0 <= r < seg.Length0 && 0 <= c < seg.Length1
      ensures labeled[r, c] == Relabel(annotation, seg[r, c])
    {
      var v := seg[r, c];
      if v in cellIds {
        WrittenIsLargest(uniq, cellIds, ts, v);
      }
    }
  }

  /** `segmentation.copy()`. */
  method CopyImage(seg: array2<int>) returns (out: array2<int>)
    ensures fresh(out)
    ensures out.Length0 == seg.Length0 && out.Length1 == seg.Length1
    ensures forall r, c :: 0 <= r < seg.Length0 && 0 <= c < seg.Length1 ==> out[r, c] == seg[r, c]
  {
    out := new int[seg.Length0, seg.Length1];
    var r := 0;
    while r < seg.Length0
      invariant 0 <= r <= seg.Length0
      invariant forall i, j :: 0 <= i < r && 0 <= j < seg.Length1 ==> out[i, j] == seg[i, j]
    {
      var c := 0;
      while c < seg.Length1
        invariant 0 <= c <= seg.Length1
        invariant forall i, j :: 0 <= i < r && 0 <= j < seg.Length1 ==> out[i, j] == seg[i, j]
        invariant forall j :: 0 <= j < c ==> out[r, j] == seg[r, j]
      {
        out[r, c] := seg[r, c];
        c := c + 1;
      }
      r := r + 1;
    }
  }

  /** `annotation[type_col].values.astype(int)` as a new array. */
  method TruncateTypes(ann: seq<Annotation>) returns (types: array<int>)
    ensures fresh(types)
    ensures types[..] == Truncated(ann)
  {
    types := new int[|ann|];
    var k := 0;
    while k < |ann|
      invariant 0 <= k <= |ann|
      invariant forall i :: 0 <= i < k ==> types[i] == Trunc(ann[i].cellType)
    {
      types[k] := Trunc(ann[k].cellType);
      k := k + 1;
    }
  }

  /** `cell_types += 1`, in place. */
  method ShiftTypes(types: array<int>)
    modifies types
    ensures forall k :: 0 <= k < types.Length ==> types[k] == old(types[k]) + 1
  {
    var k := 0;
    while k < types.Length
      invariant 0 <= k <= types.Length
      invariant forall i :: 0 <= i < k ==> types[i] == old(types[i]) + 1
      invariant forall i :: k <= i < types.Length ==> types[i] == old(types[i])
    {
      types[k] := types[k] + 1;
      k := k + 1;
    }
  }

  /** `labeled[np.isin(segmentation, ids)] = t`: the mask is taken on the
      original labels, never on the image being rewritten. */
  method WriteWhere(labeled: array2<int>, seg: array2<int>, ids: seq<int>, t: int)
    requires labeled != seg
    requires labeled.Length0 == seg.Length0 && labeled.Length1 == seg.Length1
    modifies labeled
    ensures forall r, c :: 0 <= r < seg.Length0 && 0 <= c < seg.Length1 ==>
      labeled[r, c] == if seg[r, c] in ids then t else old(labeled[r, c])
  {
    var r := 0;
    while r < seg.Length0
      invariant 0 <= r <= seg.Length0
      invariant forall i, j :: 0 <= i < seg.Length0 && 0 <= j < seg.Length1 ==>
        labeled[i, j] == if i < r && seg[i, j] in ids then t else old(labeled[i, j])
    {
      var c := 0;
      while c < seg.Length1
        invariant 0 <= c <= seg.Length1
        invariant forall i, j :: 0 <= i < seg.Length0 && 0 <= j < seg.Length1 ==>
          labeled[i, j] == if (i < r || (i == r && j < c)) && seg[i, j] in ids then t else old(labeled[i, j])
      {
        if seg[r, c] in ids {
          labeled[r, c] := t;
        }
        c := c + 1;
      }
      r := r + 1;
    }
  }

  /** `labeled[~np.isin(segmentation, ids)] = 0`. */
  method ZeroWhereNot(labeled: array2<int>, seg: array2<int>, ids: seq<int>)
    requires labeled != seg
    requires labeled.Length0 == seg.Length0 && labeled.Length1 == seg.Length1
    modifies labeled
    ensures forall r, c :: 0 <= r < seg.Length0 && 0 <= c < seg.Length1 ==>
      labeled[r, c] == if seg[r, c] in ids then old(labeled[r, c]) else 0
  {
    var r := 0;
    while r < seg.Length0
      invariant 0 <= r <= seg.Length0
      invariant forall i, j :: 0 <= i < seg.Length0 && 0 <= j < seg.Length1 ==>
        labeled[i, j] == if i < r && seg[i, j] !in ids then 0 else old(labeled[i, j])
    {
      var c := 0;
      while c < seg.Length1
        invariant 0 <= c <= seg.Length1
        invariant forall i, j :: 0 <= i < seg.Length0 && 0 <= j < seg.Length1 ==>
          labeled[i, j] == if (i < r || (i == r && j < c)) && seg[i, j] !in ids then 0 else old(labeled[i, j])
      {
        if seg[r, c] !in ids {
          labeled[r, c] := 0;
        }
        c := c + 1;
      }
      r := r + 1;
    }
  }

  // -------------------------------------------------------------- lemmas

  /** Cell `v` is among the ids of type `t` exactly when `t` is one of the
      types annotated for `v`. */
  lemma {:induction false} IdsOfTypeMember(ids: seq<int>, ts: seq<int>, t: int, v: int)
    requires |ids| == |ts|
    ensures v in IdsOfType(ids, ts, t) <==> t in TypesOf(ids, ts, v)
  {
    if |ids| > 0 {
      var n := |ids| - 1;
      IdsOfTypeMember(ids[..n], ts[..n], t, v);
      if t in TypesOf(ids[..n], ts[..n], v) {
        var k :| 0 <= k < n && ids[..n][k] == v && ts[..n][k] == t;
        assert ids[k] == v && ts[k] == t;
      }
      if t in TypesOf(ids, ts, v) {
        var k :| 0 <= k < |ids| && ids[k] == v && ts[k] == t;
        if k < n {
          assert ids[..n][k] == v && ts[..n][k] == t;
        }
      }
    }
  }

  /** The largest type is one of the cell's types and no smaller than any. */
  lemma {:induction false} LargestTypeIs(ids: seq<int>, ts: seq<int>, v: int)
    requires |ids| == |ts| && v in ids
    ensures LargestType(ids, ts, v) in TypesOf(ids, ts, v)
    ensures forall t :: t in TypesOf(ids, ts, v) ==> t <= LargestType(ids, ts, v)
  {
    var n := |ids| - 1;
    var m := LargestType(ids, ts, v);
    assert ids == ids[..n] + [ids[n]];
    if ids[n] == v {
      assert ts[n] in TypesOf(ids, ts, v);
    }
    if v in ids[..n] {
      LargestTypeIs(ids[..n], ts[..n], v);
      var m' := LargestType(ids[..n], ts[..n], v);
      var k :| 0 <= k < n && ids[..n][k] == v && ts[..n][k] == m';
      assert ids[k] == v && ts[k] == m';
    }
    forall t | t in TypesOf(ids, ts, v)
      ensures t <= m
    {
      var k :| 0 <= k < |ids| && ids[k] == v && ts[k] == t;
      if k < n {
        assert ids[..n][k] == v && ts[..n][k] == t;
        LargestTypeIs(ids[..n], ts[..n], v);
        assert t in TypesOf(ids[..n], ts[..n], v);
      }
    }
  }

  /** Writing the types of `us` in increasing order leaves the largest of
      them that belongs to cell `v`, or `init` when none does. */
  lemma {:induction false} WrittenLast(us: seq<int>, ids: seq<int>, ts: seq<int>, v: int, init: int)
    requires |ids| == |ts| && Increasing(us)
    ensures (forall j :: 0 <= j < |us| ==> us[j] !in TypesOf(ids, ts, v)) ==>
      Written(us, ids, ts, v, init) == init
    ensures forall j :: 0 <= j < |us| && us[j] in TypesOf(ids, ts, v) ==>
      Written(us, ids, ts, v, init) in TypesOf(ids, ts, v) &&
      us[j] <= Written(us, ids, ts, v, init)
  {
    if |us| > 0 {
      var n := |us| - 1;
      var types := TypesOf(ids, ts, v);
      IdsOfTypeMember(ids, ts, us[n], v);
      if us[n] in types {
        assert Written(us, ids, ts, v, init) == us[n];
      } else {
        var init' := us[..n];
        assert Written(us, ids, ts, v, init) == Written(init', ids, ts, v, init);
        assert Increasing(init') by {
          forall i, j | 0 <= i < j < n
            ensures init'[i] < init'[j]
          {
            assert init'[i] == us[i] && init'[j] == us[j];
          }
        }
        WrittenLast(init', ids, ts, v, init);
        forall j | 0 <= j < n
          ensures us[j] == init'[j]
        {
        }
      }
    }
  }

  /** When every annotated type is written in increasing order, an
      annotated cell ends up with its largest type. */
  lemma WrittenIsLargest(us: seq<int>, ids: seq<int>, ts: seq<int>, v: int)
    requires |ids| == |ts| && Increasing(us) && v in ids
    requires forall y :: y in us <==> y in ts
    ensures Written(us, ids, ts, v, v) == LargestType(ids, ts, v)
  {
    var types := TypesOf(ids, ts, v);
    var k :| 0 <= k < |ids| && ids[k] == v;
    assert ts[k] in types;
    assert ts[k] in ts;
    var j :| 0 <= j < |us| && us[j] == ts[k];
    WrittenLast(us, ids, ts, v, v);
    LargestTypeIs(ids, ts, v);
    var w := Written(us, ids, ts, v, v);
    var m := LargestType(ids, ts, v);
    assert m in us;
    var jm :| 0 <= jm < |us| && us[jm] == m;
    assert m <= w;
  }

  /** A pixel whose label is not an annotated id becomes background. */
  lemma RelabelUnannotated(ann: seq<Annotation>, v: int)
    requires forall k :: 0 <= k < |ann| ==> ann[k].id != v
    ensures Relabel(ann, v) == 0
  {
  }

  /** An annotated cell gets the largest of its written types. */
  lemma RelabelAnnotated(ann: seq<Annotation>, k: int)
    requires 0 <= k < |ann|
    ensures var v := ann[k].id;
      Relabel(ann, v) in TypesOf(Ids(ann), Types(ann), v) &&
      forall i :: 0 <= i < |ann| && ann[i].id == v ==> Types(ann)[i] <= Relabel(ann, v)
  {
    var v := ann[k].id;
    assert Ids(ann)[k] == v;
    LargestTypeIs(Ids(ann), Types(ann), v);
    forall i | 0 <= i < |ann| && ann[i].id == v
      ensures Types(ann)[i] in TypesOf(Ids(ann), Types(ann), v)
    {
      assert Ids(ann)[i] == v;
    }
  }

  /** When no type is negative, every annotated cell is written with a
      positive value, so it stays apart from the background: a type 0 is
      written as 1. */
  lemma AnnotatedNotBackground(ann: seq<Annotation>, k: int)
    requires 0 <= k < |ann|
    requires forall i :: 0 <= i < |ann| ==> ann[i].cellType >= 0.0
    ensures Relabel(ann, ann[k].id) >= 1
  {
    var ts := Types(ann);
    RelabelAnnotated(ann, k);
    if 0 !in Truncated(ann) {
      assert Truncated(ann)[k] != 0;
    }
    assert ts[k] >= 1;
  }

  /** A cell whose every type truncates to 0 is written as 1: the table holds
      a 0 type, so all types are shifted. */
  lemma ZeroTypeWrittenAsOne(ann: seq<Annotation>, k: int)
    requires 0 <= k < |ann|
    requires forall i :: 0 <= i < |ann| && ann[i].id == ann[k].id ==> Trunc(ann[i].cellType) == 0
    ensures Relabel(ann, ann[k].id) == 1
  {
    var v := ann[k].id;
    assert Truncated(ann)[k] == 0;
    RelabelAnnotated(ann, k);
    var i :| 0 <= i < |ann| && Ids(ann)[i] == v && Types(ann)[i] == Relabel(ann, v);
    assert Types(ann)[i] == 1;
  }
}
