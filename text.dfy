/** Character-level helpers over strings: searching, splitting, whitespace
    stripping and decimal numerals, as the Python string methods do them. */
module Text {

  /** The characters for which `str.isspace` holds, which `str.strip`,
      `str.lstrip` and `str.rstrip` remove: the ASCII tab to carriage return,
      the four information separators, the space, and the Unicode spaces and
      line and paragraph separators. */
  predicate IsSpace(c: char) {
    c == ' ' || '\t' <= c <= '\r' || '\U{001C}' <= c <= '\U{001F}' ||
    c == '\U{0085}' || c == '\U{00A0}' || c == '\U{1680}' || '\U{2000}' <= c <= '\U{200A}' ||
    c == '\U{2028}' || c == '\U{2029}' || c == '\U{202F}' || c == '\U{205F}' || c == '\U{3000}'
  }

  /** The information separators U+001C to U+001F: whitespace to `str.isspace`,
      but not to `int`, which rejects a string holding one anywhere. */
  predicate IsInfoSeparator(c: char) {
    '\U{001C}' <= c <= '\U{001F}'
  }

  predicate IsDigit(c: char) {
    '0' <= c <= '9'
  }

  /** Index of the first occurrence of `c` in `s`, or -1 when there is none. */
  function IndexOf(s: string, c: char): (r: int)
    ensures -1 <= r < |s|
    ensures r < 0 <==> c !in s
    ensures r >= 0 ==> s[r] == c && c !in s[..r]
  {
    if |s| == 0 then -1
    else if s[0] == c then 0
    else
      var k := IndexOf(s[1..], c);
      if k < 0 then -1
      else
        assert s[..k + 1] == [s[0]] + s[1..][..k];
        k + 1
  }

  /** Index of the last occurrence of `c` in `s`, or -1 when there is none. */
  function LastIndexOf(s: string, c: char): (r: int)
    ensures -1 <= r < |s|
    ensures r >= 0 ==> s[r] == c
    ensures forall k :: r < k < |s| ==> s[k] != c
  {
    if |s| == 0 then -1
    else if s[|s| - 1] == c then |s| - 1
    else LastIndexOf(s[..|s| - 1], c)
  }

  /** The first occurrence is the one with no occurrence before it. */
  lemma IndexOfUnique(s: string, c: char, k: int)
    requires 0 <= k < |s| && s[k] == c && c !in s[..k]
    ensures IndexOf(s, c) == k
  {
    assert s[..k + 1][k] == c;
  }

  /** The fields of `s` between occurrences of `sep`, as `str.split(sep)`. */
  function Split(s: string, sep: char): (fields: seq<string>)
    ensures |fields| >= 1
    ensures sep !in s ==> fields == [s]
    ensures sep in s ==> |fields| >= 2
    decreases |s|
  {
    var k := IndexOf(s, sep);
    if k < 0 then [s] else [s[..k]] + Split(s[k + 1..], sep)
  }

  /** No field holds the separator. */
  lemma {:induction false} SplitFieldsFree(s: string, sep: char)
    ensures forall i :: 0 <= i < |Split(s, sep)| ==> sep !in Split(s, sep)[i]
    decreases |s|
  {
    var k := IndexOf(s, sep);
    if k >= 0 {
      SplitFieldsFree(s[k + 1..], sep);
    }
  }

  /** `sep.join(fields)`. */
  function Join(fields: seq<string>, sep: char): (s: string)
    requires |fields| >= 1
  {
    if |fields| == 1 then fields[0] else fields[0] + [sep] + Join(fields[1..], sep)
  }

  /** Splitting and joining on the same separator give the string back. */
  lemma {:induction false} JoinSplit(s: string, sep: char)
    ensures Join(Split(s, sep), sep) == s
    decreases |s|
  {
    var k := IndexOf(s, sep);
    if k >= 0 {
      JoinSplit(s[k + 1..], sep);
      assert s == s[..k] + [sep] + s[k + 1..];
    }
  }

  /** Splitting at the first separator. */
  lemma SplitAtFirst(s: string, sep: char, k: int)
    requires 0 <= k < |s| && s[k] == sep && sep !in s[..k]
    ensures Split(s, sep) == [s[..k]] + Split(s[k + 1..], sep)
  {
    IndexOfUnique(s, sep, k);
  }

  /** Splitting distributes over a separator placed between two strings. */
  lemma {:induction false} SplitAppend(a: string, sep: char, b: string)
    ensures Split(a + [sep] + b, sep) == Split(a, sep) + Split(b, sep)
    decreases |a|
  {
    var k := IndexOf(a, sep);
    if k < 0 {
      SplitAppendNoSep(a, sep, b);
    } else {
      var rest := a[k + 1..];
      calc {
        Split(a + [sep] + b, sep);
      == { SplitAppendStep(a, sep, b, k); }
        [a[..k]] + Split(rest + [sep] + b, sep);
      == { SplitAppend(rest, sep, b); }
        [a[..k]] + (Split(rest, sep) + Split(b, sep));
      ==
        ([a[..k]] + Split(rest, sep)) + Split(b, sep);
      == { SplitAtFirst(a, sep, k); }
        Split(a, sep) + Split(b, sep);
      }
    }
  }

  lemma SplitAppendNoSep(a: string, sep: char, b: string)
    requires sep !in a
    ensures Split(a + [sep] + b, sep) == [a] + Split(b, sep)
  {
    var s := a + [sep] + b;
    assert s[..|a|] == a && s[|a| + 1..] == b;
    SplitAtFirst(s, sep, |a|);
  }

  lemma SplitAppendStep(a: string, sep: char, b: string, k: int)
    requires 0 <= k < |a| && a[k] == sep && sep !in a[..k]
    ensures Split(a + [sep] + b, sep) == [a[..k]] + Split(a[k + 1..] + [sep] + b, sep)
  {
    var s := a + [sep] + b;
    assert s[..k] == a[..k] && s[k + 1..] == a[k + 1..] + [sep] + b;
    SplitAtFirst(s, sep, k);
  }

  /** `str.lstrip()`: drops leading whitespace. */
  function LStrip(s: string): (r: string)
    ensures |r| <= |s|
  {
    if |s| > 0 && IsSpace(s[0]) then LStrip(s[1..]) else s
  }

  /** `lstrip` removes a prefix of whitespace and leaves a string that does
      not start with whitespace. */
  lemma {:induction false} LStripProps(s: string)
    ensures var r := LStrip(s);
      r == s[|s| - |r|..] && (r == [] || !IsSpace(r[0])) &&
      forall k :: 0 <= k < |s| - |r| ==> IsSpace(s[k])
  {
    if |s| > 0 && IsSpace(s[0]) {
      LStripProps(s[1..]);
    }
  }

  /** Stripping a concatenation strips into the second part only when the
      first is all whitespace. */
  lemma {:induction false} LStripAppend(a: string, b: string)
    ensures LStrip(a + b) == if LStrip(a) == [] then LStrip(b) else LStrip(a) + b
  {
    if |a| > 0 {
      assert (a + b)[0] == a[0];
      if IsSpace(a[0]) {
        assert (a + b)[1..] == a[1..] + b;
        LStripAppend(a[1..], b);
      }
    } else {
      assert a + b == b;
    }
  }

  /** `str.rstrip()`: drops trailing whitespace. */
  function RStrip(s: string): (r: string)
    ensures |r| <= |s| && r == s[..|r|]
    ensures r == [] || !IsSpace(r[|r| - 1])
    ensures forall k :: |r| <= k < |s| ==> IsSpace(s[k])
  {
    if |s| > 0 && IsSpace(s[|s| - 1]) then RStrip(s[..|s| - 1]) else s
  }

  /** `str.strip()`. */
  function Strip(s: string): string {
    RStrip(LStrip(s))
  }

  /** A string with no whitespace at either end is its own strip. */
  lemma StripUnpadded(s: string)
    requires s != [] && !IsSpace(s[0]) && !IsSpace(s[|s| - 1])
    ensures Strip(s) == s
  {
    LStripProps(s);
  }

  /** Stripping removes whitespace padding and nothing of what it pads, when
      that starts and ends with a non-space. */
  lemma StripPadded(pre: string, body: string, post: string)
    requires forall k :: 0 <= k < |pre| ==> IsSpace(pre[k])
    requires forall k :: 0 <= k < |post| ==> IsSpace(post[k])
    requires body != [] && !IsSpace(body[0]) && !IsSpace(body[|body| - 1])
    ensures Strip(pre + body + post) == body
  {
    LStripProps(pre);
    assert pre + body + post == pre + (body + post);
    LStripAppend(pre, body + post);
    LStripProps(body + post);
    assert (body + post)[0] == body[0];
    var r := RStrip(body + post);
    assert (body + post)[|body| - 1] == body[|body| - 1];
    assert r == (body + post)[..|body|] == body;
  }

  /** A non-empty run of decimal digits. */
  predicate IsNumeral(s: string) {
    |s| > 0 && forall k :: 0 <= k < |s| ==> IsDigit(s[k])
  }

  function DigitValue(c: char): nat
    requires IsDigit(c)
  {
    (c - '0') as nat
  }

  /** The number a run of decimal digits denotes, most significant first. */
  function Value(ds: string): nat
    requires forall k :: 0 <= k < |ds| ==> IsDigit(ds[k])
  {
    if |ds| == 0 then 0 else 10 * Value(ds[..|ds| - 1]) + DigitValue(ds[|ds| - 1])
  }

  /** Decimal digits of `n` without leading zeros, as `str(n)` for n >= 0. */
  function Digits(n: nat): (ds: string)
    ensures IsNumeral(ds) && Value(ds) == n
    ensures |ds| > 1 ==> ds[0] != '0'
  {
    var last := ['0' + (n % 10) as char];
    if n < 10 then last
    else
      var init := Digits(n / 10);
      assert (init + last)[..|init|] == init;
      init + last
  }

  /** `str(n)` for any integer. */
  function ShowInt(n: int): (s: string)
    ensures s != [] && !IsSpace(s[0]) && !IsSpace(s[|s| - 1])
    ensures forall k :: 0 <= k < |s| ==> IsDigit(s[k]) || s[k] == '-'
  {
    if n < 0 then "-" + Digits(-n) else Digits(n)
  }
}
