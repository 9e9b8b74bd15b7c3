/** The string operations the importer applies to headers and cells: Python's
    `str.strip`, `str.lower` and the replacement of each space by an underscore, and the header
    normalisation built from them (books/views.py:136). */
module Text {

  /** The characters Python's `str.strip()` (no argument) treats as whitespace. */
  predicate IsSpace(c: char) {
    var n := c as int;
    || (0x09 <= n <= 0x0D) || (0x1C <= n <= 0x20)
    || n == 0x85 || n == 0xA0 || n == 0x1680
    || (0x2000 <= n <= 0x200A) || n == 0x2028 || n == 0x2029
    || n == 0x202F || n == 0x205F || n == 0x3000
  }

  predicate AllSpace(s: string) {
    forall k :: 0 <= k < |s| ==> IsSpace(s[k])
  }

  /** No whitespace at either end: what `strip()` leaves behind. */
  predicate Stripped(s: string) {
    s == [] || (!IsSpace(s[0]) && !IsSpace(s[|s| - 1]))
  }

  /** The first index at or after `i` that holds no whitespace, or `|s|`. */
  function SkipSpaces(s: string, i: nat): (r: nat)
    requires i <= |s|
    ensures i <= r <= |s|
    ensures AllSpace(s[i..r])
    ensures r < |s| ==> !IsSpace(s[r])
    decreases |s| - i
  {
    if i < |s| && IsSpace(s[i]) then
      var r := SkipSpaces(s, i + 1);
      assert s[i..r] == [s[i]] + s[i + 1..r];
      r
    else i
  }

  /** The smallest index `r` in `lo..j` such that `s[r..j]` is all whitespace. */
  function BackSpaces(s: string, lo: nat, j: nat): (r: nat)
    requires lo <= j <= |s|
    ensures lo <= r <= j
    ensures AllSpace(s[r..j])
    ensures lo < r ==> !IsSpace(s[r - 1])
    decreases j - lo
  {
    if lo < j && IsSpace(s[j - 1]) then
      var r := BackSpaces(s, lo, j - 1);
      assert s[r..j] == s[r..j - 1] + [s[j - 1]];
      r
    else j
  }

  /** Where `strip()` starts cutting: the first character that is not whitespace. */
  function StripStart(s: string): nat {
    SkipSpaces(s, 0)
  }

  /** Where `strip()` stops cutting: one past the last character that is not whitespace. */
  function StripEnd(s: string): (j: nat)
    ensures StripStart(s) <= j <= |s|
  {
    BackSpaces(s, StripStart(s), |s|)
  }

  /** Python's `s.strip()`: `s` with its leading and trailing whitespace removed. */
  function Strip(s: string): (r: string)
    ensures Stripped(r)
    ensures r == s[StripStart(s)..StripEnd(s)]
    ensures AllSpace(s[..StripStart(s)]) && AllSpace(s[StripEnd(s)..])
  {
    var i := StripStart(s);
    var j := StripEnd(s);
    assert s[..i] == s[0..i];
    assert i < j ==> s[i..j][0] == s[i];
    s[i..j]
  }

  /** Python's `str.lower()` on one character, for ASCII and Latin-1 letters. */
  function LowerChar(c: char): char {
    if 'A' <= c <= 'Z' then (c as int + 32) as char
    else if 0xC0 <= c as int <= 0xDE && c as int != 0xD7 then (c as int + 32) as char
    else c
  }

  /** Python's `s.lower()`. */
  function Lower(s: string): (r: string)
    ensures |r| == |s|
    ensures forall k :: 0 <= k < |s| ==> r[k] == LowerChar(s[k])
  {
    seq(|s|, k requires 0 <= k < |s| => LowerChar(s[k]))
  }

  /** Every space replaced by an underscore, as Python's `str.replace` does. */
  function Underscore(s: string): (r: string)
    ensures |r| == |s|
    ensures forall k :: 0 <= k < |s| ==> r[k] == (if s[k] == ' ' then '_' else s[k])
    ensures ' ' !in r
    ensures forall k :: 0 <= k < |s| && r[k] != s[k] ==> s[k] == ' ' && r[k] == '_'
  {
    seq(|s|, k requires 0 <= k < |s| => if s[k] == ' ' then '_' else s[k])
  }

  /** The header key the importer compares against the required column names. */
  function NormalizeHeader(h: string): (key: string)
    ensures |key| <= |h|
    ensures Stripped(key) && ' ' !in key
    ensures forall k :: 0 <= k < |key| ==> LowerChar(key[k]) == key[k]
  {
    HeaderKeyShape(Strip(h));
    Underscore(Lower(Strip(h)))
  }

  /** Lower-casing and underscoring a stripped string leaves it stripped, space-free and
      lower-case. */
  lemma HeaderKeyShape(s: string)
    requires Stripped(s)
    ensures var key := Underscore(Lower(s));
      && Stripped(key) && ' ' !in key
      && forall k :: 0 <= k < |key| ==> LowerChar(key[k]) == key[k]
  {
    var key := Underscore(Lower(s));
    forall k | 0 <= k < |s| ensures (IsSpace(Lower(s)[k]) <==> IsSpace(s[k])) && LowerChar(Lower(s)[k]) == Lower(s)[k] {
      LowerCharKeepsSpace(s[k]);
    }
    assert LowerChar('_') == '_';
  }

  /** Strip of `s` is `s[i..j]` whenever only whitespace lies outside the slice and
      the slice itself has no surrounding whitespace. */
  lemma StripSlice(s: string, i: nat, j: nat)
    requires i <= j <= |s|
    requires AllSpace(s[..i]) && AllSpace(s[j..]) && Stripped(s[i..j])
    ensures Strip(s) == s[i..j]
  {
    var a := StripStart(s);
    var b := StripEnd(s);
    SpacesBefore(s, i);
    SpacesBefore(s, a);
    SpacesAfter(s, j);
    SpacesBetween(s, b, |s|);
    if i < j {
      assert !IsSpace(s[i]) by { assert s[i..j][0] == s[i]; }
      assert !IsSpace(s[j - 1]) by { assert s[i..j][j - i - 1] == s[j - 1]; }
    }
  }

  lemma SpacesBefore(s: string, i: nat)
    requires i <= |s| && AllSpace(s[..i])
    ensures forall k :: 0 <= k < i ==> IsSpace(s[k])
  {
    assert forall k :: 0 <= k < i ==> s[..i][k] == s[k];
  }

  lemma SpacesAfter(s: string, j: nat)
    requires j <= |s| && AllSpace(s[j..])
    ensures forall k :: j <= k < |s| ==> IsSpace(s[k])
  {
    assert forall k :: j <= k < |s| ==> s[j..][k - j] == s[k];
  }

  lemma SpacesBetween(s: string, i: nat, j: nat)
    requires i <= j <= |s| && AllSpace(s[i..j])
    ensures forall k :: i <= k < j ==> IsSpace(s[k])
  {
    assert forall k :: i <= k < j ==> s[i..j][k - i] == s[k];
  }

  /** Strip leaves a string that already has no surrounding whitespace untouched. */
  lemma StripStripped(s: string)
    requires Stripped(s)
    ensures Strip(s) == s
  {
    assert s[..0] == [] && s[|s|..] == [] && s[0..|s|] == s;
    StripSlice(s, 0, |s|);
  }

  lemma StripIdempotent(s: string)
    ensures Strip(Strip(s)) == Strip(s)
  {
    StripStripped(Strip(s));
  }

  /** Lower-casing never turns a character into whitespace or back, and is idempotent. */
  lemma LowerCharKeepsSpace(c: char)
    ensures IsSpace(LowerChar(c)) <==> IsSpace(c)
    ensures LowerChar(LowerChar(c)) == LowerChar(c)
  {
  }

  lemma LowerIdempotent(s: string)
    ensures Lower(Lower(s)) == Lower(s)
  {
    forall k | 0 <= k < |s| {
      LowerCharKeepsSpace(s[k]);
    }
  }

  /** Normalising a header twice gives the same key as normalising it once. */
  lemma NormalizeHeaderIdempotent(h: string)
    ensures NormalizeHeader(NormalizeHeader(h)) == NormalizeHeader(h)
  {
    var s := Strip(h);
    var n := Underscore(Lower(s));
    forall k | 0 <= k < |s| ensures (!IsSpace(s[k]) ==> !IsSpace(n[k])) && LowerChar(n[k]) == n[k] {
      LowerCharKeepsSpace(s[k]);
    }
    assert Stripped(n);
    StripStripped(n);
    assert Lower(n) == n;
    assert Underscore(n) == n;
  }

  /** Lower-casing keeps every character's whitespace status. */
  lemma LowerKeepsSpaces(s: string)
    ensures forall k :: 0 <= k < |s| ==> (IsSpace(Lower(s)[k]) <==> IsSpace(s[k]))
  {
    forall k | 0 <= k < |s| {
      LowerCharKeepsSpace(s[k]);
    }
  }

  /** Lower-casing a slice is slicing the lower-cased string. */
  lemma LowerSlice(h: string, i: nat, j: nat)
    requires i <= j <= |h|
    ensures Lower(h)[i..j] == Lower(h[i..j])
  {
  }

  lemma LowerKeepsAllSpace(s: string)
    requires AllSpace(s)
    ensures AllSpace(Lower(s))
  {
    LowerKeepsSpaces(s);
  }

  lemma LowerKeepsStripped(s: string)
    requires Stripped(s)
    ensures Stripped(Lower(s))
  {
    LowerKeepsSpaces(s);
  }

  /** Stripping and lower-casing commute. */
  lemma StripLower(h: string)
    ensures Strip(Lower(h)) == Lower(Strip(h))
  {
    var i, j := StripStart(h), StripEnd(h);
    assert Strip(h) == h[i..j];
    LowerParts(h, i, j);
    LowerKeepsAllSpace(h[..i]);
    LowerKeepsAllSpace(h[j..]);
    LowerKeepsStripped(h[i..j]);
    StripParts(Lower(h), i, j, Lower(h[..i]), Lower(h[i..j]), Lower(h[j..]));
  }

  /** Lower-casing a string cut in three is lower-casing each part. */
  lemma LowerParts(h: string, i: nat, j: nat)
    requires i <= j <= |h|
    ensures Lower(h)[..i] == Lower(h[..i]) && Lower(h)[i..j] == Lower(h[i..j]) && Lower(h)[j..] == Lower(h[j..])
  {
    LowerSlice(h, 0, i);
    LowerSlice(h, i, j);
    LowerSlice(h, j, |h|);
    assert Lower(h)[..i] == Lower(h)[0..i] && h[..i] == h[0..i];
    assert Lower(h)[j..] == Lower(h)[j..|h|] && h[j..] == h[j..|h|];
  }

  /** Case does not matter to the header key. */
  lemma NormalizeHeaderIgnoresCase(h: string)
    ensures NormalizeHeader(Lower(h)) == NormalizeHeader(h)
  {
    StripLower(h);
    LowerIdempotent(Strip(h));
  }

  /** Surrounding whitespace does not matter to the header key. */
  lemma NormalizeHeaderIgnoresPadding(pre: string, h: string, post: string)
    requires AllSpace(pre) && AllSpace(post)
    ensures NormalizeHeader(pre + h + post) == NormalizeHeader(h)
  {
    StripPadded(pre, h, post);
  }

  lemma StripPadded(pre: string, h: string, post: string)
    requires AllSpace(pre) && AllSpace(post)
    ensures Strip(pre + h + post) == Strip(h)
  {
    var i, j := StripStart(h), StripEnd(h);
    PaddedSlices(pre, h, post, i, j);
    AllSpaceConcat(pre, h[..i]);
    AllSpaceConcat(h[j..], post);
    StripParts(pre + h + post, |pre| + i, |pre| + j, pre + h[..i], Strip(h), h[j..] + post);
  }

  /** Strip of a string cut into whitespace, a stripped middle and whitespace is the middle. */
  lemma StripParts(p: string, i: nat, j: nat, left: string, mid: string, right: string)
    requires i <= j <= |p|
    requires p[..i] == left && p[i..j] == mid && p[j..] == right
    requires AllSpace(left) && AllSpace(right) && Stripped(mid)
    ensures Strip(p) == mid
  {
    StripSlice(p, i, j);
  }

  lemma PaddedSlices(pre: string, h: string, post: string, i: nat, j: nat)
    requires i <= j <= |h|
    ensures (pre + h + post)[|pre| + i..|pre| + j] == h[i..j]
    ensures (pre + h + post)[..|pre| + i] == pre + h[..i]
    ensures (pre + h + post)[|pre| + j..] == h[j..] + post
  {
  }

  lemma AllSpaceConcat(a: string, b: string)
    requires AllSpace(a) && AllSpace(b)
    ensures AllSpace(a + b)
  {
    forall k | 0 <= k < |a + b| ensures IsSpace((a + b)[k]) {
      if k < |a| {
        assert (a + b)[k] == a[k];
      } else {
        assert (a + b)[k] == b[k - |a|];
      }
    }
  }

  /** The three spellings of the date column in a typical upload share one key. */
  lemma PublishedDateVariants()
    ensures NormalizeHeader("Published Date") == "published_date"
    ensures NormalizeHeader(" published_date") == "published_date"
    ensures NormalizeHeader("Published_Date") == "published_date"
  {
    SpacedDateHeader();
    SnakeDateHeader();
    PaddedDateHeader();
  }

  lemma PaddedDateHeader()
    ensures NormalizeHeader(" published_date") == "published_date"
  {
    PaddedDateStrip();
    PlainDateHeader();
  }

  lemma PaddedDateStrip()
    ensures Strip(" published_date") == "published_date"
  {
    var p := " published_date";
    assert p[..1] == " " && p[15..] == [];
    assert p[1..15] == "published_date";
    assert !IsSpace(p[1]) && !IsSpace(p[14]);
    StripSlice(p, 1, 15);
  }

  lemma SpacedDateHeader()
    ensures NormalizeHeader("Published Date") == "published_date"
  {
    var h := "Published Date";
    assert !IsSpace(h[0]) && !IsSpace(h[13]);
    StripStripped(h);
    assert Lower(h) == "published date";
    assert Underscore("published date") == "published_date";
  }

  lemma SnakeDateHeader()
    ensures NormalizeHeader("Published_Date") == "published_date"
  {
    var h := "Published_Date";
    assert !IsSpace(h[0]) && !IsSpace(h[13]);
    StripStripped(h);
    assert Lower(h) == "published_date";
    assert Underscore("published_date") == "published_date";
  }

  lemma PlainDateHeader()
    ensures NormalizeHeader("published_date") == "published_date"
  {
    var h := "published_date";
    assert !IsSpace(h[0]) && !IsSpace(h[13]);
    StripStripped(h);
    assert Lower(h) == h;
    assert Underscore(h) == h;
  }
}
