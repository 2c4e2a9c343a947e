/** String helpers with the semantics of the Rust `str` methods the editor calls:
    `trim`, `join`, `ends_with`, and the byte-offset check behind `&t[..3]`.
    Strings are sequences of Unicode scalar values; byte offsets are computed
    from each character's UTF-8 width. */
module Text {

  /** Rust's `char::is_whitespace`: the Unicode `White_Space` property. */
  predicate IsWhitespace(c: char) {
    || ('\U{0009}' <= c <= '\U{000D}')
    || c == '\U{0020}'
    || c == '\U{0085}'
    || c == '\U{00A0}'
    || c == '\U{1680}'
    || ('\U{2000}' <= c <= '\U{200A}')
    || c == '\U{2028}'
    || c == '\U{2029}'
    || c == '\U{202F}'
    || c == '\U{205F}'
    || c == '\U{3000}'
  }

  /** Neither the first nor the last character is whitespace. */
  predicate NoEdgeSpace(t: string) {
    |t| > 0 ==> !IsWhitespace(t[0]) && !IsWhitespace(t[|t| - 1])
  }

  /** `trim_start`: drops the longest whitespace prefix. */
  function TrimStart(t: string): (r: string)
    ensures |r| <= |t| && r == t[|t| - |r|..]
    ensures forall i :: 0 <= i < |t| - |r| ==> IsWhitespace(t[i])
    ensures |r| > 0 ==> !IsWhitespace(r[0])
  {
    if |t| > 0 && IsWhitespace(t[0]) then TrimStart(t[1..]) else t
  }

  /** `trim_end`: drops the longest whitespace suffix. */
  function TrimEnd(t: string): (r: string)
    ensures |r| <= |t| && r == t[..|r|]
    ensures forall i :: |r| <= i < |t| ==> IsWhitespace(t[i])
    ensures |r| > 0 ==> !IsWhitespace(r[|r| - 1])
  {
    if |t| > 0 && IsWhitespace(t[|t| - 1]) then TrimEnd(t[..|t| - 1]) else t
  }

  /** `trim`: whitespace removed from both ends. The result is a slice of the
      input with only whitespace cut off on either side, and no whitespace at
      its own ends, which pins it down; input without edge whitespace is
      returned unchanged. */
  function Trim(t: string): (r: string)
    ensures NoEdgeSpace(r)
    ensures NoEdgeSpace(t) ==> r == t
    ensures |r| <= |t|
    ensures exists i, j ::
      (&& 0 <= i <= j <= |t| && r == t[i..j]
       && (forall k :: 0 <= k < i ==> IsWhitespace(t[k]))
       && (forall k :: j <= k < |t| ==> IsWhitespace(t[k])))
  {
    var u := TrimStart(t);
    var r := TrimEnd(u);
    SliceOfSuffix(t, u, r);
    r
  }

  /** A prefix `r` of a suffix `u` of `t` is a slice of `t`; what follows
      `r` in `u` is what follows the slice in `t`. */
  lemma SliceOfSuffix(t: string, u: string, r: string)
    requires |u| <= |t| && u == t[|t| - |u|..]
    requires |r| <= |u| && r == u[..|r|]
    requires forall k :: |r| <= k < |u| ==> IsWhitespace(u[k])
    ensures r == t[|t| - |u|..|t| - |u| + |r|]
    ensures forall k :: |t| - |u| + |r| <= k < |t| ==> IsWhitespace(t[k])
  {
    forall k | |t| - |u| + |r| <= k < |t| ensures IsWhitespace(t[k]) {
      assert t[k] == u[k - (|t| - |u|)];
    }
  }

  /** Only one slice of `t` fits `Trim`'s description: cutting whitespace
      off both ends so that none is left at the ends gives `Trim(t)`. */
  lemma TrimUnique(t: string, i: nat, j: nat)
    requires i <= j <= |t|
    requires forall k :: 0 <= k < i ==> IsWhitespace(t[k])
    requires forall k :: j <= k < |t| ==> IsWhitespace(t[k])
    requires NoEdgeSpace(t[i..j])
    ensures Trim(t) == t[i..j]
  {
    var u := TrimStart(t);
    var i' := |t| - |u|;
    var r := TrimEnd(u);
    var m := |r|;
    assert u == t[i'..];
    if i < j {
      assert !IsWhitespace(t[i]) by { assert t[i..j][0] == t[i]; }
      assert !IsWhitespace(t[j - 1]) by { assert t[i..j][j - i - 1] == t[j - 1]; }
      assert i' <= i;
      assert u[0] == t[i'];
      assert i' == i;
      assert u[j - 1 - i'] == t[j - 1];
      assert j - i' <= m;
      assert r[m - 1] == t[i' + m - 1];
      assert i' + m <= j;
      assert r == t[i..j];
    } else {
      assert m == 0;
    }
  }

  /** `parts.join(sep)`. */
  function Join(parts: seq<string>, sep: string): (r: string)
    ensures |parts| == 0 ==> r == ""
    ensures |parts| == 1 ==> r == parts[0]
    ensures |parts| > 1 ==> EndsWith(r, sep + parts[|parts| - 1])
  {
    if |parts| == 0 then ""
    else if |parts| == 1 then parts[0]
    else
      var rest := Join(parts[1..], sep);
      var tail := sep + parts[|parts| - 1];
      var r := parts[0] + sep + rest;
      if |parts| == 2 then
        assert rest == parts[1];
        assert r[|r| - |tail|..] == tail;
        r
      else
        assert parts[1..][|parts[1..]| - 1] == parts[|parts| - 1];
        assert EndsWith(rest, tail);
        assert r[|r| - |tail|..] == rest[|rest| - |tail|..];
        r
  }

  /** Joining one more part appends the separator and that part. */
  lemma {:induction false} JoinAppend(parts: seq<string>, sep: string, x: string)
    requires |parts| > 0
    ensures Join(parts + [x], sep) == Join(parts, sep) + sep + x
    decreases |parts|
  {
    if |parts| > 1 {
      assert (parts + [x])[1..] == parts[1..] + [x];
      JoinAppend(parts[1..], sep, x);
    } else {
      assert (parts + [x])[1..] == [x];
    }
  }

  /** `s.ends_with(suffix)`. */
  predicate EndsWith(s: string, suffix: string) {
    |suffix| <= |s| && s[|s| - |suffix|..] == suffix
  }

  lemma EndsWithAppend(s: string, suffix: string)
    ensures EndsWith(s + suffix, suffix)
  {
    assert (s + suffix)[|s|..] == suffix;
  }

  /** Number of bytes of `c` in UTF-8. */
  function Utf8Width(c: char): (w: nat)
    ensures 1 <= w <= 4
  {
    if c as int < 0x80 then 1
    else if c as int < 0x800 then 2
    else if c as int < 0x1_0000 then 3
    else 4
  }

  /** `str::len`: the number of bytes of `t` in UTF-8. */
  function Utf8Length(t: string): nat
    decreases |t|
  {
    if |t| == 0 then 0 else Utf8Width(t[0]) + Utf8Length(t[1..])
  }

  predicate IsAscii(t: string) {
    forall k :: 0 <= k < |t| ==> t[k] as int < 0x80
  }

  /** Byte offset `b` falls on a character boundary of `t` and inside it, which
      is what `&t[..b]` needs in order not to panic. */
  predicate OnBoundary(t: string, b: nat)
    decreases |t|
  {
    b == 0 || (|t| > 0 && Utf8Width(t[0]) <= b && OnBoundary(t[1..], b - Utf8Width(t[0])))
  }

  /** A string starting with three ASCII characters can be sliced at byte 3. */
  lemma AsciiPrefixOnBoundary(t: string)
    requires |t| >= 3
    requires t[0] as int < 0x80 && t[1] as int < 0x80 && t[2] as int < 0x80
    ensures OnBoundary(t, 3)
  {
    assert t[1..][0] == t[1];
    assert t[1..][1..][0] == t[2];
    assert OnBoundary(t[1..][1..][1..], 0);
  }

  /** ASCII text takes one byte per character, and every offset up to its
      length is a boundary. */
  lemma {:induction false} AsciiBytes(t: string, b: nat)
    requires IsAscii(t)
    ensures Utf8Length(t) == |t|
    ensures b <= |t| ==> OnBoundary(t, b)
    decreases |t|
  {
    if |t| > 0 {
      assert IsAscii(t[1..]) by {
        forall k | 0 <= k < |t[1..]| ensures t[1..][k] as int < 0x80 {
          assert t[1..][k] == t[k + 1];
        }
      }
      AsciiBytes(t[1..], if b > 0 then b - 1 else 0);
    }
  }

  /** An ASCII prefix shifts byte offsets and lengths one for one. */
  lemma {:induction false} AsciiPrefixShift(a: string, t: string, b: nat)
    requires IsAscii(a) && |a| <= b
    ensures Utf8Length(a + t) == |a| + Utf8Length(t)
    ensures OnBoundary(a + t, b) == OnBoundary(t, b - |a|)
    decreases |a|
  {
    if |a| > 0 {
      assert (a + t)[0] == a[0];
      assert (a + t)[1..] == a[1..] + t;
      assert IsAscii(a[1..]) by {
        forall k | 0 <= k < |a[1..]| ensures a[1..][k] as int < 0x80 {
          assert a[1..][k] == a[k + 1];
        }
      }
      AsciiPrefixShift(a[1..], t, b - 1);
    } else {
      assert a + t == t;
    }
  }
}
