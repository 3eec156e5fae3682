/**
 * The Python string operations the helper layer relies on: `split`/`join` on one
 * separator character, `strip`, `str(n)` and `int(s)` for decimal integers,
 * single-character `replace`, and POSIX `os.path.join` of two parts.
 */
module Text {
  import opened Wrappers

  // ---------------------------------------------------------------------------
  // split, join and the last segment

  /** The first position of `c` in `s`. */
  function IndexOf(s: string, c: char): (i: nat)
    requires c in s
    ensures i < |s| && s[i] == c && c !in s[..i]
  {
    if s[0] == c then 0
    else
      var j := IndexOf(s[1..], c);
      assert s[..j + 1] == [s[0]] + s[1..][..j];
      j + 1
  }

  /** Python's `s.split(c)`: the pieces between the occurrences of `c`, always at least one. */
  function Split(s: string, c: char): (parts: seq<string>)
    ensures |parts| >= 1
    ensures forall k :: 0 <= k < |parts| ==> c !in parts[k]
    decreases |s|
  {
    if c !in s then [s]
    else
      var i := IndexOf(s, c);
      [s[..i]] + Split(s[i + 1..], c)
  }

  /** Python's `c.join(parts)`. */
  function Join(parts: seq<string>, c: char): string
  {
    if |parts| == 0 then ""
    else if |parts| == 1 then parts[0]
    else parts[0] + [c] + Join(parts[1..], c)
  }

  /** A join of two or more pieces: the first piece, the separator, then the rest joined. */
  lemma JoinCons(parts: seq<string>, c: char)
    requires |parts| >= 2
    ensures Join(parts, c) == parts[0] + [c] + Join(parts[1..], c)
  {
  }

  /** Joining the pieces of a split gives back the original string. */
  lemma {:induction false} JoinSplit(s: string, c: char)
    ensures Join(Split(s, c), c) == s
    decreases |s|
  {
    if c in s {
      var i := IndexOf(s, c);
      var tail := Split(s[i + 1..], c);
      assert Split(s, c) == [s[..i]] + tail;
      assert ([s[..i]] + tail)[1..] == tail;
      JoinSplit(s[i + 1..], c);
      assert s == s[..i] + [c] + s[i + 1..];
    }
  }

  /** Splitting a join of separator-free pieces gives back the pieces. */
  lemma {:induction false} SplitJoin(parts: seq<string>, c: char)
    requires |parts| >= 1
    requires forall k :: 0 <= k < |parts| ==> c !in parts[k]
    ensures Split(Join(parts, c), c) == parts
  {
    if |parts| > 1 {
      var p := parts[0];
      var rest := Join(parts[1..], c);
      var s := p + [c] + rest;
      assert s[|p|] == c;
      var i := IndexOf(s, c);
      assert s[..i] == p;
      assert s[i + 1..] == rest;
      SplitJoin(parts[1..], c);
      assert [p] + parts[1..] == parts;
    }
  }

  /** Joining two non-empty lists of pieces puts one separator between their joins. */
  lemma {:induction false} JoinConcat(xs: seq<string>, ys: seq<string>, c: char)
    requires |xs| >= 1 && |ys| >= 1
    ensures Join(xs + ys, c) == Join(xs, c) + [c] + Join(ys, c)
    decreases |xs|
  {
    if |xs| > 1 {
      assert (xs + ys)[1..] == xs[1..] + ys;
      JoinConcat(xs[1..], ys, c);
    } else {
      assert (xs + ys)[1..] == ys;
    }
  }

  /** Splitting at a separator between two strings splits each side separately. */
  lemma SplitConcat(a: string, b: string, c: char)
    ensures Split(a + [c] + b, c) == Split(a, c) + Split(b, c)
  {
    var pa, pb := Split(a, c), Split(b, c);
    JoinSplit(a, c);
    JoinSplit(b, c);
    JoinConcat(pa, pb, c);
    SeparatorFreeConcat(pa, pb, c);
    SplitJoin(pa + pb, c);
  }

  /** Two lists of separator-free pieces make one. */
  lemma SeparatorFreeConcat(xs: seq<string>, ys: seq<string>, c: char)
    requires forall k :: 0 <= k < |xs| ==> c !in xs[k]
    requires forall k :: 0 <= k < |ys| ==> c !in ys[k]
    ensures forall k :: 0 <= k < |xs + ys| ==> c !in (xs + ys)[k]
  {
    forall k | 0 <= k < |xs + ys| ensures c !in (xs + ys)[k] {
      if k >= |xs| {
        assert (xs + ys)[k] == ys[k - |xs|];
      }
    }
  }

  /** The pieces that are not empty, in order. */
  function DropEmpty(parts: seq<string>): (r: seq<string>)
    ensures |r| <= |parts|
    ensures forall k :: 0 <= k < |r| ==> r[k] != ""
  {
    if parts == [] then []
    else (if parts[0] == "" then [] else [parts[0]]) + DropEmpty(parts[1..])
  }

  /** Dropping empty pieces distributes over concatenation. */
  lemma {:induction false} DropEmptyConcat(xs: seq<string>, ys: seq<string>)
    ensures DropEmpty(xs + ys) == DropEmpty(xs) + DropEmpty(ys)
    decreases |xs|
  {
    if xs == [] {
      assert xs + ys == ys;
    } else {
      assert (xs + ys)[0] == xs[0];
      assert (xs + ys)[1..] == xs[1..] + ys;
      DropEmptyConcat(xs[1..], ys);
    }
  }

  /** A sequence with no empty pieces is left as it is. */
  lemma {:induction false} DropEmptyNone(parts: seq<string>)
    requires forall k :: 0 <= k < |parts| ==> parts[k] != ""
    ensures DropEmpty(parts) == parts
    decreases |parts|
  {
    if parts != [] {
      DropEmptyNone(parts[1..]);
    }
  }

  /** A join starts with its first piece; the pieces follow one another. */
  lemma JoinStartsWithFirst(parts: seq<string>, c: char)
    requires |parts| >= 1
    ensures |Join(parts, c)| >= |parts[0]| && Join(parts, c)[..|parts[0]|] == parts[0]
  {
  }

  /** A join ends with its last piece. */
  lemma {:induction false} JoinEndsWithLast(parts: seq<string>, c: char)
    requires |parts| >= 1
    ensures var j, last := Join(parts, c), parts[|parts| - 1];
      |j| >= |last| && j[|j| - |last|..] == last
    decreases |parts|
  {
    if |parts| >= 2 {
      JoinEndsWithLast(parts[1..], c);
      var rest := Join(parts[1..], c);
      var last := parts[|parts| - 1];
      assert parts[1..][|parts[1..]| - 1] == last;
      var front := parts[0] + [c];
      assert Join(parts, c) == front + rest;
      assert (front + rest)[|front + rest| - |last|..] == rest[|rest| - |last|..];
    }
  }

  /** A character that is neither the separator nor in any piece is not in the join. */
  lemma {:induction false} JoinAvoids(parts: seq<string>, c: char, d: char)
    requires d != c
    requires forall k :: 0 <= k < |parts| ==> d !in parts[k]
    ensures d !in Join(parts, c)
    decreases |parts|
  {
    if |parts| > 1 {
      JoinAvoids(parts[1..], c, d);
    }
  }

  /**
   * Python's `s.split(c)[-1]`; for `c == '/'` also POSIX `os.path.basename(s)`: what
   * follows the last `c`, or all of `s` when it holds none.
   */
  function LastSegment(s: string, c: char): string
    decreases |s|
  {
    if c !in s then s else LastSegment(s[IndexOf(s, c) + 1..], c)
  }

  /** The last segment is the last piece of the split. */
  lemma {:induction false} LastSegmentIsLastPiece(s: string, c: char)
    ensures var parts := Split(s, c); LastSegment(s, c) == parts[|parts| - 1]
    decreases |s|
  {
    var parts := Split(s, c);
    if c in s {
      var i := IndexOf(s, c);
      var t := s[i + 1..];
      var tail := Split(t, c);
      assert parts == [s[..i]] + tail by {
        SplitAtFirst(s, c);
      }
      assert LastSegment(s, c) == LastSegment(t, c);
      LastSegmentIsLastPiece(t, c);
      LastOfCons(parts, s[..i], tail);
    } else {
      assert parts == [s];
    }
  }

  /** When `c` occurs, splitting cuts off the piece before its first occurrence. */
  lemma SplitAtFirst(s: string, c: char)
    requires c in s
    ensures var i := IndexOf(s, c); Split(s, c) == [s[..i]] + Split(s[i + 1..], c)
  {
  }

  /**
   * `r` is the longest suffix of `s` free of `c`: a suffix that holds no `c` and is
   * either all of `s` or preceded by a `c`.
   */
  ghost predicate FinalSegment(s: string, r: string, c: char) {
    && c !in r
    && |r| <= |s| && s[|s| - |r|..] == r
    && (|r| == |s| || s[|s| - |r| - 1] == c)
  }

  /** The last segment is the longest suffix free of `c`. */
  lemma {:induction false} LastSegmentIsLongestSuffix(s: string, c: char)
    ensures FinalSegment(s, LastSegment(s, c), c)
    decreases |s|
  {
    if c in s {
      var i := IndexOf(s, c);
      var t := s[i + 1..];
      assert LastSegment(s, c) == LastSegment(t, c);
      LastSegmentIsLongestSuffix(t, c);
      SuffixAfter(s, i + 1, LastSegment(t, c), c);
    }
  }

  /** A final segment of what follows a `c` is a final segment of the whole. */
  lemma SuffixAfter(s: string, k: nat, r: string, c: char)
    requires 0 < k <= |s| && s[k - 1] == c
    requires FinalSegment(s[k..], r, c)
    ensures FinalSegment(s, r, c)
  {
    SliceOfSlice(s, k, |s| - k - |r|);
    if |r| == |s| - k {
      assert s[|s| - |r| - 1] == s[k - 1];
    } else {
      assert s[|s| - |r| - 1] == s[k..][|s| - k - |r| - 1];
    }
  }

  /** There is only one longest suffix free of `c`. */
  lemma FinalSegmentUnique(s: string, r1: string, r2: string, c: char)
    requires FinalSegment(s, r1, c) && FinalSegment(s, r2, c)
    ensures r1 == r2
  {
    if |r1| < |r2| {
      assert false;
    } else if |r2| < |r1| {
      assert false;
    }
  }

  /** Whatever precedes the last separator, the segment after it is the last segment. */
  lemma LastSegmentAfterSeparator(a: string, b: string, c: char)
    requires c !in b
    ensures LastSegment(a + [c] + b, c) == b
  {
    var s := a + [c] + b;
    LastSegmentIsLongestSuffix(s, c);
    assert s[|s| - |b|..] == b;
    assert s[|s| - |b| - 1] == c;
    FinalSegmentUnique(s, LastSegment(s, c), b, c);
  }

  // ---------------------------------------------------------------------------
  // strip

  /** Python's `str.isspace()` for one character. */
  predicate IsSpace(c: char) {
    || ('\t' <= c <= '\r')
    || ('\U{1c}' <= c <= ' ')
    || c == '\U{85}' || c == '\U{a0}' || c == '\U{1680}'
    || ('\U{2000}' <= c <= '\U{200a}')
    || c == '\U{2028}' || c == '\U{2029}' || c == '\U{202f}' || c == '\U{205f}' || c == '\U{3000}'
  }

  /** `s.lstrip()`. */
  function TrimStart(s: string): (r: string)
    ensures |r| <= |s| && r == s[|s| - |r|..]
    ensures forall k :: 0 <= k < |s| - |r| ==> IsSpace(s[k])
    ensures r != [] ==> !IsSpace(r[0])
  {
    if s != [] && IsSpace(s[0]) then TrimStart(s[1..]) else s
  }

  /** `s.rstrip()`. */
  function TrimEnd(s: string): (r: string)
    ensures |r| <= |s| && r == s[..|r|]
    ensures forall k :: |r| <= k < |s| ==> IsSpace(s[k])
    ensures r != [] ==> !IsSpace(r[|r| - 1])
  {
    if s != [] && IsSpace(s[|s| - 1]) then TrimEnd(s[..|s| - 1]) else s
  }

  /**
   * Python's `s.strip()`: the part of `s` left after removing all whitespace at
   * both ends.
   */
  function Strip(s: string): (r: string)
    ensures r != [] ==> !IsSpace(r[0]) && !IsSpace(r[|r| - 1])
  {
    var t := TrimStart(s);
    var r := TrimEnd(t);
    r
  }

  /** A string with no whitespace at either end is its own strip. */
  lemma StripUnchanged(s: string)
    requires s != [] ==> !IsSpace(s[0]) && !IsSpace(s[|s| - 1])
    ensures Strip(s) == s
  {
  }

  /** A strip is empty exactly when the string is all whitespace. */
  lemma StripEmpty(s: string)
    ensures Strip(s) == [] <==> forall k :: 0 <= k < |s| ==> IsSpace(s[k])
  {
    var t := TrimStart(s);
    assert t != [] ==> t[0] == s[|s| - |t|];
  }

  /** Stripping twice is stripping once. */
  lemma StripIdempotent(s: string)
    ensures Strip(Strip(s)) == Strip(s)
  {
    StripUnchanged(Strip(s));
  }

  // ---------------------------------------------------------------------------
  // str(n) and int(s)

  predicate IsDigit(c: char) { '0' <= c <= '9' }

  predicate AllDigits(s: string) { forall k :: 0 <= k < |s| ==> IsDigit(s[k]) }

  function DigitChar(d: nat): (c: char)
    requires d < 10
    ensures IsDigit(c) && c as int - '0' as int == d
  {
    ('0' as int + d) as char
  }

  /** The value of a string of decimal digits. */
  function DigitsValue(s: string): nat
    requires AllDigits(s)
  {
    if s == [] then 0 else DigitsValue(s[..|s| - 1]) * 10 + (s[|s| - 1] as int - '0' as int)
  }

  /** Python's `str(n)` for a non-negative integer. */
  function NatToString(n: nat): (r: string)
    ensures |r| >= 1 && AllDigits(r)
    ensures n > 0 ==> r[0] != '0'
  {
    if n < 10 then [DigitChar(n)] else NatToString(n / 10) + [DigitChar(n % 10)]
  }

  /** The digits of `str(n)` read back as `n`. */
  lemma {:induction false} DigitsValueOfNatToString(n: nat)
    ensures DigitsValue(NatToString(n)) == n
  {
    if n >= 10 {
      var p := NatToString(n / 10);
      var s := p + [DigitChar(n % 10)];
      assert s[..|s| - 1] == p;
      DigitsValueOfNatToString(n / 10);
    }
  }

  /** Different numbers print differently. */
  lemma NatToStringInjective(m: nat, n: nat)
    requires NatToString(m) == NatToString(n)
    ensures m == n
  {
    DigitsValueOfNatToString(m);
    DigitsValueOfNatToString(n);
  }

  /**
   * Python's `int(s)` in base 10: surrounding whitespace is ignored, an optional
   * sign is followed by one or more ASCII digits; anything else is a `ValueError`.
   */
  function ParseInt(s: string): (r: Result<int>)
  {
    var t := Strip(s);
    var signed := |t| > 0 && (t[0] == '-' || t[0] == '+');
    var digits := if signed then t[1..] else t;
    if |digits| > 0 && AllDigits(digits) then
      var v: int := DigitsValue(digits);
      Ok(if signed && t[0] == '-' then -v else v)
    else
      Err(ValueError("invalid literal for int() with base 10: '" + s + "'"))
  }

  /** `int(str(n)) == n`. */
  lemma ParseIntOfNatToString(n: nat)
    ensures ParseInt(NatToString(n)) == Ok(n)
  {
    var s := NatToString(n);
    StripUnchanged(s);
    assert Strip(s) == s;
    assert IsDigit(s[0]);
    assert !(s[0] == '-' || s[0] == '+');
    DigitsValueOfNatToString(n);
    var v: int := DigitsValue(s);
    assert ParseInt(s) == Ok(v);
  }

  // ---------------------------------------------------------------------------
  // replace and os.path.join

  /** Python's `s.replace(a, b)` for single characters. */
  function Replace(s: string, a: char, b: char): (r: string)
    ensures |r| == |s|
    ensures a != b ==> a !in r
  {
    seq(|s|, k requires 0 <= k < |s| => if s[k] == a then b else s[k])
  }

  /** Replacement works character by character, so it distributes over concatenation. */
  lemma ReplaceConcat(x: string, y: string, a: char, b: char)
    ensures Replace(x + y, a, b) == Replace(x, a, b) + Replace(y, a, b)
  {
  }

  /** Replacing a character that does not occur changes nothing. */
  lemma ReplaceAbsent(s: string, a: char, b: char)
    requires a !in s
    ensures Replace(s, a, b) == s
  {
  }

  /** POSIX `os.path.join(a, b)`. */
  function PathJoin(a: string, b: string): (r: string)
    ensures |r| >= |b|
    ensures |b| > 0 && b[0] == '/' ==> r == b
    ensures !(|b| > 0 && b[0] == '/') ==> r[|r| - |b|..] == b
    ensures a == "" ==> r == b
  {
    if |b| > 0 && b[0] == '/' then b
    else if a == [] || a[|a| - 1] == '/' then a + b
    else a + "/" + b
  }

  // ---------------------------------------------------------------------------
  // sequences

  /** Concatenation is associative. */
  lemma ConcatAssociates<T>(a: seq<T>, b: seq<T>, c: seq<T>)
    ensures a + (b + c) == (a + b) + c
  {
  }

  /** A slice of a slice is one slice. */
  lemma SliceOfSlice<T>(a: seq<T>, i: nat, j: nat)
    requires i + j <= |a|
    ensures a[i..][j..] == a[i + j..]
  {
  }

  /** The empty sequence is neutral for concatenation. */
  lemma ConcatEmpty<T>(a: seq<T>)
    ensures [] + a == a && a + [] == a
  {
  }

  /** Dropping the head of a concatenation with a non-empty front drops it from the front. */
  lemma TailOfConcat<T>(a: seq<T>, b: seq<T>)
    requires a != []
    ensures (a + b)[0] == a[0] && (a + b)[1..] == a[1..] + b
  {
  }

  /** A concatenation splits back into its two parts. */
  lemma SplitAppend<T>(a: seq<T>, b: seq<T>, ab: seq<T>)
    requires ab == a + b
    ensures |ab| >= |a| && ab[..|a|] == a && ab[|a|..] == b
  {
  }

  /** Putting an element in front of a non-empty sequence keeps its last element. */
  lemma LastOfCons<T>(xa: seq<T>, x: T, a: seq<T>)
    requires a != [] && xa == [x] + a
    ensures xa[|xa| - 1] == a[|a| - 1]
  {
  }
}
