/** Tile coordinates encoded in file names (`get_x_and_y` in quantify.py):
    a name such as `reg001_3_7.tif` is stripped of its extension, split
    on underscores, and its last two fields are read as integers. */
module TileNames {
  import opened Wrappers
  import opened Text

  /** Why a name yields no coordinates: the unpacking of the last two fields
      fails, or `int` rejects a field. */
  datatype NameError = TooFewFields | NotAnInteger(field: string)

  /** `os.path.splitext` for POSIX paths: the extension starts at the last dot
      of the last path component, unless that component is only dots up to it. */
  function SplitExt(path: string): (r: (string, string))
    ensures r.0 + r.1 == path
    ensures |r.1| > 0 ==> r.1[0] == '.' && '.' !in r.1[1..] && '/' !in r.1
  {
    var sep := LastIndexOf(path, '/');
    var dot := LastIndexOf(path, '.');
    if dot > sep then SplitAtDot(path, sep, dot) else (path, [])
  }

  /** The split at a dot that comes after the last slash and has no dot
      after it: no split when only dots precede it in the last component. */
  function SplitAtDot(path: string, sep: int, dot: int): (r: (string, string))
    requires -1 <= sep < dot < |path| && path[dot] == '.'
    requires forall k :: dot < k < |path| ==> path[k] != '.'
    requires forall k :: 0 <= k && sep < k < |path| ==> path[k] != '/'
    ensures r.0 + r.1 == path
    ensures |r.1| > 0 ==> r.1[0] == '.' && '.' !in r.1[1..] && '/' !in r.1
  {
    if AllDots(path[sep + 1..dot]) then (path, [])
    else
      LastDotTail(path, sep, dot);
      (path[..dot], path[dot..])
  }

  /** No extension when the last dot does not come after the last slash. */
  lemma SplitExtNoDot(path: string)
    requires LastIndexOf(path, '.') <= LastIndexOf(path, '/')
    ensures SplitExt(path) == (path, [])
  {
  }

  /** No extension when the last path component is only dots up to its last
      dot, as in `.bashrc` or `dir/..`. */
  lemma SplitExtLeadingDots(path: string, sep: int, dot: int)
    requires sep == LastIndexOf(path, '/') && dot == LastIndexOf(path, '.') && sep < dot
    requires forall k :: sep < k < dot ==> path[k] == '.'
    ensures SplitExt(path) == (path, [])
  {
    assert AllDots(path[sep + 1..dot]);
  }

  /** What follows the last dot, when it comes after the last slash, is a
      dot and then neither a dot nor a slash. */
  lemma LastDotTail(path: string, sep: int, dot: int)
    requires 0 <= dot < |path| && path[dot] == '.' && sep < dot
    requires forall k :: dot < k < |path| ==> path[k] != '.'
    requires forall k :: 0 <= k && sep < k < |path| ==> path[k] != '/'
    ensures var ext := path[dot..]; ext[0] == '.' && '.' !in ext[1..] && '/' !in ext
  {
    var ext := path[dot..];
    forall k | 0 <= k < |ext|
      ensures ext[k] != '/' && (k > 0 ==> ext[k] != '.')
    {
      assert ext[k] == path[dot + k];
    }
    assert forall k :: 0 <= k < |ext[1..]| ==> ext[1..][k] == ext[k + 1];
  }

  /** Every character of `s` is a dot: a leading run of dots is part of the
      file name, not an extension. */
  predicate AllDots(s: string) {
    forall k :: 0 <= k < |s| ==> s[k] == '.'
  }

  /** `int(s)` on a string: surrounding whitespace, an optional sign and a
      non-empty run of decimal digits. An information separator (U+001C to
      U+001F) anywhere fails; elsewhere the whitespace `int` skips is what
      `str.strip` removes. */
  function ParseInt(s: string): (r: Result<int, NameError>)
    ensures r.Success? ==> exists k :: 0 <= k < |s| && IsDigit(s[k])
    ensures r.Failure? ==> r.error == NotAnInteger(s)
  {
    if exists k :: 0 <= k < |s| && IsInfoSeparator(s[k]) then Failure(NotAnInteger(s))
    else
      LStripProps(s);
      var t := Strip(s);
      var off := |s| - |LStrip(s)|;
      assert forall k :: 0 <= k < |t| ==> t[k] == s[off + k];
      if |t| > 0 && (t[0] == '-' || t[0] == '+') then
        if IsNumeral(t[1..]) then
          assert t[1..][0] == t[1] && IsDigit(s[off + 1]);
          Success(if t[0] == '-' then -(Value(t[1..]) as int) else Value(t[1..]) as int)
        else Failure(NotAnInteger(s))
      else if IsNumeral(t) then
        assert IsDigit(s[off]);
        Success(Value(t))
      else Failure(NotAnInteger(s))
  }

  /** A character `int` accepts nowhere in its argument: neither a digit, nor
      a sign, nor whitespace it skips. */
  predicate BreaksInt(c: char) {
    !IsDigit(c) && c != '+' && c != '-' && (!IsSpace(c) || IsInfoSeparator(c))
  }

  /** Whitespace `int` skips around a number. */
  predicate IntPadding(s: string) {
    forall k :: 0 <= k < |s| ==> IsSpace(s[k]) && !IsInfoSeparator(s[k])
  }

  /** A run of digits, with an optional sign and padded with whitespace on
      either side, reads as the number it denotes. */
  lemma ParseIntPadded(pre: string, sign: string, ds: string, post: string)
    requires IntPadding(pre) && IntPadding(post)
    requires sign == "" || sign == "+" || sign == "-"
    requires IsNumeral(ds)
    ensures ParseInt(pre + sign + ds + post) ==
      Success(if sign == "-" then -(Value(ds) as int) else Value(ds) as int)
  {
    var s := pre + sign + ds + post;
    var body := sign + ds;
    assert s == pre + body + post;
    NoInfoSeparator(pre, body, post);
    assert Strip(s) == body by {
      assert body[0] == if sign == "" then ds[0] else sign[0];
      assert body[|body| - 1] == ds[|ds| - 1];
      StripPadded(pre, body, post);
    }
    ParseIntSigned(s, sign, ds);
  }

  lemma ParseIntSigned(s: string, sign: string, ds: string)
    requires forall k :: 0 <= k < |s| ==> !IsInfoSeparator(s[k])
    requires sign == "" || sign == "+" || sign == "-"
    requires IsNumeral(ds) && Strip(s) == sign + ds
    ensures ParseInt(s) == Success(if sign == "-" then -(Value(ds) as int) else Value(ds) as int)
  {
    var t := Strip(s);
    if sign != "" {
      assert t[0] == sign[0] && t[1..] == ds;
    } else {
      assert t == ds && IsDigit(t[0]);
    }
  }

  lemma NoInfoSeparator(pre: string, body: string, post: string)
    requires IntPadding(pre) && IntPadding(post)
    requires forall k :: 0 <= k < |body| ==> IsDigit(body[k]) || body[k] == '+' || body[k] == '-'
    ensures forall k :: 0 <= k < |pre + body + post| ==> !IsInfoSeparator((pre + body + post)[k])
  {
    var s := pre + body + post;
    forall k | 0 <= k < |s|
      ensures !IsInfoSeparator(s[k])
    {
      if k < |pre| {
        assert s[k] == pre[k];
      } else if k < |pre| + |body| {
        assert s[k] == body[k - |pre|];
      } else {
        assert s[k] == post[k - |pre| - |body|];
      }
    }
  }

  /** A decimal literal as `int` reads it: whitespace, an optional sign,
      digits, whitespace. */
  datatype IntLiteral = IntLiteral(pre: string, sign: string, digits: string, post: string)
  {
    predicate Valid() {
      IntPadding(pre) && IntPadding(post) && (sign == "" || sign == "+" || sign == "-") &&
      IsNumeral(digits)
    }

    function Spelling(): string {
      pre + sign + digits + post
    }

    function Denotes(): int
      requires Valid()
    {
      if sign == "-" then -(Value(digits) as int) else Value(digits) as int
    }
  }

  /** Conversely, `int` succeeds only on such a literal, and reads the
      number it denotes: `int("1-2")`, `int("1 2")` and `int("+-3")` fail. */
  lemma ParseIntForm(s: string) returns (lit: IntLiteral)
    requires ParseInt(s).Success?
    ensures lit.Valid() && lit.Spelling() == s
    ensures ParseInt(s) == Success(lit.Denotes())
  {
    ParseIntStripped(s);
    var pre, post := StripPadding(s);
    lit := LiteralOf(pre, Strip(s), post);
  }

  /** A stripped numeral, signed or not, between paddings is a literal. */
  lemma LiteralOf(pre: string, t: string, post: string) returns (lit: IntLiteral)
    requires IntPadding(pre) && IntPadding(post)
    requires (|t| > 0 && (t[0] == '-' || t[0] == '+') && IsNumeral(t[1..])) || IsNumeral(t)
    ensures lit.Valid() && lit.Spelling() == pre + t + post
    ensures |t| > 0 && (t[0] == '-' || t[0] == '+') && IsNumeral(t[1..]) ==>
      lit.Denotes() == if t[0] == '-' then -(Value(t[1..]) as int) else Value(t[1..]) as int
    ensures !(|t| > 0 && (t[0] == '-' || t[0] == '+')) ==> lit.Denotes() == Value(t) as int
  {
    var sign, ds;
    if |t| > 0 && (t[0] == '-' || t[0] == '+') && IsNumeral(t[1..]) {
      sign, ds := [t[0]], t[1..];
    } else {
      sign, ds := "", t;
    }
    assert t == sign + ds;
    lit := IntLiteral(pre, sign, ds, post);
    assert lit.Spelling() == pre + t + post by {
      SpellingParts(pre, sign, ds, post, t);
    }
  }

  // Proof-splitting helper: regrouping the concatenation in its own context.
  lemma SpellingParts(pre: string, sign: string, ds: string, post: string, t: string)
    requires t == sign + ds
    ensures pre + sign + ds + post == pre + t + post
  {
  }

  /** What a successful parse found once the whitespace was stripped. */
  lemma ParseIntStripped(s: string)
    requires ParseInt(s).Success?
    ensures forall k :: 0 <= k < |s| ==> !IsInfoSeparator(s[k])
    ensures var t := Strip(s);
      (|t| > 0 && (t[0] == '-' || t[0] == '+') && IsNumeral(t[1..]) &&
       ParseInt(s) == Success(if t[0] == '-' then -(Value(t[1..]) as int) else Value(t[1..]) as int)) ||
      (!(|t| > 0 && (t[0] == '-' || t[0] == '+')) && IsNumeral(t) && ParseInt(s) == Success(Value(t) as int))
  {
  }

  /** The whitespace `strip` removes, on each side, when `s` holds no
      information separator. */
  lemma StripPadding(s: string) returns (pre: string, post: string)
    requires forall k :: 0 <= k < |s| ==> !IsInfoSeparator(s[k])
    ensures IntPadding(pre) && IntPadding(post) && s == pre + Strip(s) + post
  {
    var l: string;
    pre, l := LeadingPadding(s);
    assert forall k :: 0 <= k < |l| ==> l[k] == s[|pre| + k];
    post := TrailingPadding(l);
  }

  /** `s` is the whitespace `lstrip` removes followed by what it keeps. */
  lemma LeadingPadding(s: string) returns (pre: string, l: string)
    requires forall k :: 0 <= k < |s| ==> !IsInfoSeparator(s[k])
    ensures l == LStrip(s) && IntPadding(pre) && s == pre + l
  {
    LStripProps(s);
    l := LStrip(s);
    pre := s[..|s| - |l|];
    forall k | 0 <= k < |pre|
      ensures IsSpace(pre[k]) && !IsInfoSeparator(pre[k])
    {
      assert pre[k] == s[k];
    }
  }

  /** `l` is what `rstrip` keeps followed by the whitespace it removes. */
  lemma TrailingPadding(l: string) returns (post: string)
    requires forall k :: 0 <= k < |l| ==> !IsInfoSeparator(l[k])
    ensures IntPadding(post) && l == RStrip(l) + post
  {
    var t := RStrip(l);
    post := l[|t|..];
    forall k | 0 <= k < |post|
      ensures IsSpace(post[k]) && !IsInfoSeparator(post[k])
    {
      assert post[k] == l[|t| + k];
    }
  }

  /** A character `int` never accepts makes the parse fail. */
  lemma ParseIntRejects(s: string, k: int)
    requires 0 <= k < |s| && BreaksInt(s[k])
    ensures ParseInt(s) == Failure(NotAnInteger(s))
  {
    if !IsInfoSeparator(s[k]) {
      LStripProps(s);
      var l := LStrip(s);
      var t := Strip(s);
      var off := |s| - |l|;
      assert k >= off;
      assert l[k - off] == s[k];
      assert k - off < |t|;
      assert t[k - off] == s[k];
      if |t| > 0 && (t[0] == '-' || t[0] == '+') {
        assert t[1..][k - off - 1] == s[k];
      }
    }
  }

  /** `get_x_and_y`: the last two underscore-separated fields of the name
      without its extension, as integers; x is converted first. */
  function ParseXY(name: string): Result<(int, int), NameError> {
    var fields := Split(SplitExt(name).0, '_');
    if |fields| < 2 then Failure(TooFewFields)
    else
      var x :- ParseInt(fields[|fields| - 2]);
      var y :- ParseInt(fields[|fields| - 1]);
      Success((x, y))
  }

  /** The unpacking fails exactly when the name without its extension holds
      no underscore; a field that `int` rejects is reported as such. */
  lemma ParseXYTooFewFields(name: string)
    ensures ParseXY(name) == Failure(TooFewFields) <==> '_' !in SplitExt(name).0
  {
    var fields := Split(SplitExt(name).0, '_');
    if |fields| >= 2 {
      var x := ParseInt(fields[|fields| - 2]);
      var y := ParseInt(fields[|fields| - 1]);
      assert x.Failure? ==> x.error.NotAnInteger?;
      assert y.Failure? ==> y.error.NotAnInteger?;
    }
  }

  /** Success means that the last two fields are both literals `int`
      accepts, denoting x and y. */
  lemma ParseXYSuccess(name: string, x: int, y: int) returns (fields: seq<string>, xl: IntLiteral, yl: IntLiteral)
    requires ParseXY(name) == Success((x, y))
    ensures fields == Split(SplitExt(name).0, '_') && |fields| >= 2
    ensures xl.Valid() && xl.Spelling() == fields[|fields| - 2] && xl.Denotes() == x
    ensures yl.Valid() && yl.Spelling() == fields[|fields| - 1] && yl.Denotes() == y
  {
    fields := Split(SplitExt(name).0, '_');
    xl := ParseIntForm(fields[|fields| - 2]);
    yl := ParseIntForm(fields[|fields| - 1]);
  }

  /** A letter, or any other character `int` never accepts, in the x or
      the y field makes the name fail on the first of the two that holds
      one. */
  lemma ParseXYRejects(name: string, fields: seq<string>, j: int, k: int)
    requires fields == Split(SplitExt(name).0, '_')
    requires |fields| >= 2 && |fields| - 2 <= j < |fields| && 0 <= k < |fields[j]| && BreaksInt(fields[j][k])
    ensures ParseXY(name) == Failure(NotAnInteger(fields[|fields| - 2])) ||
      (j == |fields| - 1 && ParseXY(name) == Failure(NotAnInteger(fields[|fields| - 1])))
  {
    var n := |fields|;
    assert ParseInt(fields[j]).Failure? by {
      ParseIntRejects(fields[j], k);
    }
    if j == n - 1 && ParseInt(fields[n - 2]).Success? {
      assert ParseXY(name) == Failure(NotAnInteger(fields[n - 1]));
    } else {
      assert ParseXY(name) == Failure(NotAnInteger(fields[n - 2]));
    }
  }

  /** Reading back what `str` wrote. */
  lemma ParseShowInt(n: int)
    ensures ParseInt(ShowInt(n)) == Success(n)
  {
    var s := ShowInt(n);
    if n < 0 {
      assert s == "" + "-" + Digits(-n) + "";
      ParseIntPadded("", "-", Digits(-n), "");
    } else {
      assert s == "" + "" + Digits(n) + "";
      ParseIntPadded("", "", Digits(n), "");
    }
  }

  /** A name built as `<prefix>_<x>_<y><ext>` with a one-component extension
      gives back (x, y), whatever the prefix holds. */
  lemma ParseXYRoundTrip(prefix: string, x: int, y: int, ext: string)
    requires |ext| >= 1 && ext[0] == '.' && '.' !in ext[1..] && '/' !in ext
    ensures ParseXY(prefix + "_" + ShowInt(x) + "_" + ShowInt(y) + ext) == Success((x, y))
  {
    var xs, ys := ShowInt(x), ShowInt(y);
    ParseShowInt(x);
    ParseShowInt(y);
    ParseXYOfParts(prefix, xs, ys, ext, x, y);
  }

  lemma ParseXYOfParts(prefix: string, xs: string, ys: string, ext: string, x: int, y: int)
    requires |ext| >= 1 && ext[0] == '.' && '.' !in ext[1..] && '/' !in ext
    requires ys != [] && ys[|ys| - 1] != '.' && ys[|ys| - 1] != '/'
    requires '_' !in xs && '_' !in ys
    requires ParseInt(xs) == Success(x) && ParseInt(ys) == Success(y)
    ensures ParseXY(prefix + "_" + xs + "_" + ys + ext) == Success((x, y))
  {
    var stem := prefix + "_" + xs + "_" + ys;
    var name := stem + ext;
    assert stem[|stem| - 1] == ys[|ys| - 1];
    assert SplitExt(name).0 == stem by {
      StemOfName(stem, ext);
    }
    var fields := Split(stem, '_');
    assert fields == Split(prefix, '_') + [xs, ys] by {
      LastTwoFields(prefix, xs, ys);
    }
    ParseXYOfFields(name, fields, x, y);
  }

  // Proof-splitting helper: unfolds ParseXY once the two fields are parsed.
  lemma ParseXYOfFields(name: string, fields: seq<string>, x: int, y: int)
    requires fields == Split(SplitExt(name).0, '_') && |fields| >= 2
    requires ParseInt(fields[|fields| - 2]) == Success(x)
    requires ParseInt(fields[|fields| - 1]) == Success(y)
    ensures ParseXY(name) == Success((x, y))
  {
  }

  /** The fields of `<prefix>_<xs>_<ys>` are those of the prefix followed by
      xs and ys when neither holds an underscore. */
  lemma LastTwoFields(prefix: string, xs: string, ys: string)
    requires '_' !in xs && '_' !in ys
    ensures Split(prefix + "_" + xs + "_" + ys, '_') == Split(prefix, '_') + [xs, ys]
  {
    var front := prefix + "_" + xs;
    var head := Split(prefix, '_');
    assert Split(front, '_') == head + [xs] by {
      assert front == prefix + ['_'] + xs;
      SplitAppend(prefix, '_', xs);
    }
    assert Split(prefix + "_" + xs + "_" + ys, '_') == head + [xs, ys] by {
      assert prefix + "_" + xs + "_" + ys == front + ['_'] + ys;
      SplitAppend(front, '_', ys);
    }
  }

  /** SplitExt cuts exactly at the extension when the stem ends in a
      character that is neither a dot nor a slash. */
  lemma StemOfName(stem: string, ext: string)
    requires stem != [] && stem[|stem| - 1] != '.' && stem[|stem| - 1] != '/'
    requires |ext| >= 1 && ext[0] == '.' && '.' !in ext[1..] && '/' !in ext
    ensures SplitExt(stem + ext) == (stem, ext)
  {
    var path := stem + ext;
    var dot := LastIndexOf(path, '.');
    var sep := LastIndexOf(path, '/');
    assert dot == |stem| by {
      ExtensionDot(stem, ext);
    }
    assert sep < |stem| - 1 by {
      ExtensionNoSlash(stem, ext);
    }
    var name := path[sep + 1..dot];
    assert name[|name| - 1] == stem[|stem| - 1];
    assert !AllDots(name);
    assert path[..dot] == stem && path[dot..] == ext;
  }

  lemma ExtensionDot(stem: string, ext: string)
    requires |ext| >= 1 && ext[0] == '.' && '.' !in ext[1..]
    ensures LastIndexOf(stem + ext, '.') == |stem|
  {
    var path := stem + ext;
    forall k | |stem| < k < |path|
      ensures path[k] != '.'
    {
      assert path[k] == ext[1..][k - |stem| - 1];
    }
    assert path[|stem|] == '.';
  }

  lemma ExtensionNoSlash(stem: string, ext: string)
    requires stem != [] && stem[|stem| - 1] != '/' && '/' !in ext
    ensures LastIndexOf(stem + ext, '/') < |stem| - 1
  {
    var path := stem + ext;
    forall k | |stem| - 1 <= k < |path|
      ensures path[k] != '/'
    {
      if k >= |stem| { assert path[k] == ext[k - |stem|]; }
    }
  }
}
