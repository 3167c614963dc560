/** The JavaScript string operations the two components rely on: splitting on
    a one-character separator, trimming white space, and shortening a file
    name for display. Strings are sequences of characters. */
module Text {

  // ---------------------------------------------------------------------
  // String.prototype.split with a one-character separator
  // ---------------------------------------------------------------------

  /** Number of occurrences of `c` in `s`. */
  function Count(s: string, c: char): (n: nat)
    ensures n <= |s|
    ensures n == 0 <==> c !in s
  {
    if s == [] then 0 else (if s[0] == c then 1 else 0) + Count(s[1..], c)
  }

  /** Glues segments back together with the separator between them; the
      inverse that `Split` is specified against. */
  function Join(parts: seq<string>, sep: char): string
  {
    if parts == [] then ""
    else if |parts| == 1 then parts[0]
    else parts[0] + [sep] + Join(parts[1..], sep)
  }

  /** `s.split(sep)`: the maximal separator-free runs of `s`, in order. An
      empty string gives one empty segment, and a separator at either end
      gives an empty segment there. */
  function Split(s: string, sep: char): (parts: seq<string>)
    ensures |parts| == Count(s, sep) + 1
    ensures forall i :: 0 <= i < |parts| ==> sep !in parts[i]
    ensures Join(parts, sep) == s
  {
    if s == [] then [""]
    else
      var rest := Split(s[1..], sep);
      if s[0] == sep then
        assert ([""] + rest)[1..] == rest;
        [""] + rest
      else
        var parts := [[s[0]] + rest[0]] + rest[1..];
        assert parts[1..] == rest[1..];
        assert Join(parts, sep) == [s[0]] + Join(rest, sep);
        assert s == [s[0]] + s[1..];
        parts
  }

  /** A separator-free string splits into itself alone. */
  lemma {:induction false} SplitWithoutSeparator(s: string, sep: char)
    requires sep !in s
    ensures Split(s, sep) == [s]
  {
    if s != [] {
      SplitWithoutSeparator(s[1..], sep);
      assert [s[0]] + s[1..] == s;
    }
  }

  /** Splitting at the first separator: a separator-free head becomes the
      first segment and the rest is split on its own. */
  lemma {:induction false} SplitAtFirstSeparator(head: string, sep: char, tail: string)
    requires sep !in head
    ensures Split(head + [sep] + tail, sep) == [head] + Split(tail, sep)
  {
    var s := head + [sep] + tail;
    if head == [] {
      assert s[1..] == tail;
    } else {
      assert s[1..] == head[1..] + [sep] + tail;
      SplitAtFirstSeparator(head[1..], sep, tail);
      assert [head[0]] + head[1..] == head;
    }
  }

  // ---------------------------------------------------------------------
  // String.prototype.trim
  // ---------------------------------------------------------------------

  /** The code points ECMAScript counts as WhiteSpace or LineTerminator,
      which are exactly what `trim` strips. */
  predicate IsJsSpace(c: char) {
    var n := c as int;
    n == 0x09 || n == 0x0A || n == 0x0B || n == 0x0C || n == 0x0D || n == 0x20
    || n == 0xA0 || n == 0x1680 || (0x2000 <= n <= 0x200A) || n == 0x2028
    || n == 0x2029 || n == 0x202F || n == 0x205F || n == 0x3000 || n == 0xFEFF
  }

  /** No white space at either end. */
  predicate IsTrimmed(s: string) {
    s == [] || (!IsJsSpace(s[0]) && !IsJsSpace(s[|s| - 1]))
  }

  /** The position of the first non-space character at or after `k`, or
      `|s|` when there is none. */
  function SkipSpace(s: string, k: nat): (i: nat)
    requires k <= |s|
    ensures k <= i <= |s|
    ensures forall m :: k <= m < i ==> IsJsSpace(s[m])
    ensures i < |s| ==> !IsJsSpace(s[i])
    decreases |s| - k
  {
    if k == |s| || !IsJsSpace(s[k]) then k else SkipSpace(s, k + 1)
  }

  /** The end of `s[lo..j]` once its trailing white space is dropped. */
  function SkipSpaceBack(s: string, lo: nat, j: nat): (e: nat)
    requires lo <= j <= |s|
    ensures lo <= e <= j
    ensures forall m :: e <= m < j ==> IsJsSpace(s[m])
    ensures lo < e ==> !IsJsSpace(s[e - 1])
    decreases j
  {
    if j == lo || !IsJsSpace(s[j - 1]) then j else SkipSpaceBack(s, lo, j - 1)
  }

  /** `s.trim()`: the middle of `s` left after white space is stripped from
      both ends. It has no white space at either end, and everything removed
      before and after it is white space. */
  function Trim(s: string): (r: string)
    ensures IsTrimmed(r)
    ensures var i := SkipSpace(s, 0);
      i + |r| <= |s| && r == s[i..i + |r|]
      && (forall m :: 0 <= m < i ==> IsJsSpace(s[m]))
      && (forall m :: i + |r| <= m < |s| ==> IsJsSpace(s[m]))
  {
    var i := SkipSpace(s, 0);
    s[i..SkipSpaceBack(s, i, |s|)]
  }

  /** Trimming is characterised by its result: a non-empty middle `s[i..j]`
      that starts and ends with a non-space character and has only white
      space around it is what `Trim` returns. */
  lemma TrimIsUnique(s: string, i: nat, j: nat)
    requires i < j <= |s|
    requires forall m :: 0 <= m < i ==> IsJsSpace(s[m])
    requires forall m :: j <= m < |s| ==> IsJsSpace(s[m])
    requires !IsJsSpace(s[i]) && !IsJsSpace(s[j - 1])
    ensures Trim(s) == s[i..j]
  {
    assert SkipSpace(s, 0) == i;
    var r := Trim(s);
    assert i + |r| == j;
  }

  /** A string made only of white space trims to the empty string. */
  lemma TrimOfSpace(s: string)
    requires forall m :: 0 <= m < |s| ==> IsJsSpace(s[m])
    ensures Trim(s) == ""
  {
  }

  /** A string with no white space at either end is returned unchanged. */
  lemma TrimKeepsTrimmed(s: string)
    requires IsTrimmed(s)
    ensures Trim(s) == s
  {
    if s != [] {
      TrimIsUnique(s, 0, |s|);
    }
  }

  // ---------------------------------------------------------------------
  // File-name shortening for display
  // ---------------------------------------------------------------------

  /** How many characters of a file name are shown before it is cut. */
  const ShownLength := 20

  /** What replaces the rest of a name that was cut. */
  const Ellipsis := "..."

  /** The label a file row shows: a name of at most twenty characters as it
      is, a longer one as its first twenty characters followed by "...". */
  function Shorten(name: string): (shown: string)
    ensures |name| <= ShownLength ==> shown == name
    ensures |name| > ShownLength ==>
      |shown| == ShownLength + |Ellipsis|
      && shown[..ShownLength] == name[..ShownLength]
      && shown[ShownLength..] == Ellipsis
    ensures |shown| <= ShownLength + |Ellipsis|
  {
    if |name| > 20 then name[..20] + "..." else name
  }

  /** Shortening a label again changes nothing. */
  lemma ShortenIsIdempotent(name: string)
    ensures Shorten(Shorten(name)) == Shorten(name)
  {
    if |name| > ShownLength {
      var shown := Shorten(name);
      assert shown == shown[..ShownLength] + shown[ShownLength..];
    }
  }

  /** Two long names get the same label exactly when they agree on their
      first twenty characters, so the label alone cannot tell them apart. */
  lemma ShortenCollides(a: string, b: string)
    requires |a| > ShownLength && |b| > ShownLength
    ensures Shorten(a) == Shorten(b) <==> a[..ShownLength] == b[..ShownLength]
  {
    if Shorten(a) == Shorten(b) {
      assert a[..ShownLength] == Shorten(a)[..ShownLength];
    }
  }
}
