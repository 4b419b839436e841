/**
 * The ECMAScript string operations the meeting pages rely on:
 * truthiness of a string, `String.prototype.split` with a one-character
 * separator, `Array.prototype.join` (its inverse) and `String.prototype.trim`.
 */
module JsString {

  /** A string is truthy in ECMAScript exactly when it is not empty. */
  predicate Truthy(s: string) {
    |s| > 0
  }

  /** Number of occurrences of `c` in `s`. */
  function Count(s: string, c: char): nat {
    if s == [] then 0 else (if s[0] == c then 1 else 0) + Count(s[1..], c)
  }

  /** `s.split(sep)` for a one-character separator: the maximal runs between separators. */
  function Split(s: string, sep: char): (r: seq<string>)
    ensures |r| == Count(s, sep) + 1
    ensures forall i :: 0 <= i < |r| ==> sep !in r[i]
  {
    if s == [] then [""]
    else
      var rest := Split(s[1..], sep);
      if s[0] == sep then [""] + rest
      else [[s[0]] + rest[0]] + rest[1..]
  }

  /** `parts.join(sep)`. */
  function Join(parts: seq<string>, sep: char): string {
    if parts == [] then ""
    else if |parts| == 1 then parts[0]
    else parts[0] + [sep] + Join(parts[1..], sep)
  }

  /** Splitting and re-joining gives back the original string. */
  lemma {:induction false} JoinSplit(s: string, sep: char)
    ensures Join(Split(s, sep), sep) == s
  {
    if s != [] {
      JoinSplit(s[1..], sep);
      var rest := Split(s[1..], sep);
      if s[0] == sep {
        assert Split(s, sep) == [""] + rest;
        assert s == [s[0]] + s[1..];
      } else {
        var r := Split(s, sep);
        assert r[0] == [s[0]] + rest[0] && r[1..] == rest[1..];
        if |rest| == 1 {
          assert s == [s[0]] + s[1..];
        } else {
          assert Join(rest, sep) == rest[0] + [sep] + Join(rest[1..], sep);
          assert s == [s[0]] + s[1..];
        }
      }
    }
  }

  /** Joining separator-free parts and splitting again gives back the parts. */
  lemma {:induction false} SplitJoin(parts: seq<string>, sep: char)
    requires |parts| >= 1
    requires forall i :: 0 <= i < |parts| ==> sep !in parts[i]
    ensures Split(Join(parts, sep), sep) == parts
  {
    if |parts| == 1 {
      SplitNoSeparator(parts[0], sep);
    } else {
      SplitJoin(parts[1..], sep);
      SplitAfterPrefix(parts[0], Join(parts[1..], sep), sep);
    }
  }

  /** A string without the separator splits into itself alone. */
  lemma {:induction false} SplitNoSeparator(s: string, sep: char)
    requires sep !in s
    ensures Split(s, sep) == [s]
  {
    if s != [] {
      SplitNoSeparator(s[1..], sep);
      assert s == [s[0]] + s[1..];
    }
  }

  /** A separator-free prefix followed by the separator becomes the first part. */
  lemma {:induction false} SplitAfterPrefix(a: string, b: string, sep: char)
    requires sep !in a
    ensures Split(a + [sep] + b, sep) == [a] + Split(b, sep)
  {
    if a == [] {
      assert a + [sep] + b == [sep] + b;
      assert ([sep] + b)[1..] == b;
    } else {
      SplitAfterPrefix(a[1..], b, sep);
      var s := a + [sep] + b;
      assert s[0] == a[0] && s[1..] == a[1..] + [sep] + b;
      assert [a[0]] + a[1..] == a;
    }
  }

  /**
   * WhiteSpace and LineTerminator code points of ECMA-262 (sections 12.2
   * and 12.3): TAB, LF, VT, FF, CR, SPACE, NBSP, the Zs separators, LS, PS
   * and the byte order mark.
   */
  predicate IsWhiteSpace(c: char) {
    var n := c as int;
    (0x09 <= n <= 0x0D) || n == 0x20 || n == 0xA0 || n == 0x1680
    || (0x2000 <= n <= 0x200A) || n == 0x2028 || n == 0x2029
    || n == 0x202F || n == 0x205F || n == 0x3000 || n == 0xFEFF
  }

  predicate AllWhiteSpace(s: string) {
    forall i :: 0 <= i < |s| ==> IsWhiteSpace(s[i])
  }

  /** The index of the first character at or after `i` that is not white space. */
  function LeadingEnd(s: string, i: nat): (j: nat)
    requires i <= |s|
    ensures i <= j <= |s|
    ensures forall k :: i <= k < j ==> IsWhiteSpace(s[k])
    ensures j == |s| || !IsWhiteSpace(s[j])
    decreases |s| - i
  {
    if i < |s| && IsWhiteSpace(s[i]) then LeadingEnd(s, i + 1) else i
  }

  /**
   * The index just after the last character before `j` that is not white
   * space, scanning back no further than `lo`.
   */
  function TrailingStart(s: string, lo: nat, j: nat): (i: nat)
    requires lo <= j <= |s|
    ensures lo <= i <= j
    ensures forall k :: i <= k < j ==> IsWhiteSpace(s[k])
    ensures i == lo || !IsWhiteSpace(s[i - 1])
    decreases j
  {
    if j > lo && IsWhiteSpace(s[j - 1]) then TrailingStart(s, lo, j - 1) else j
  }

  /** `s.trim()`: both leading and trailing white space removed. */
  function Trim(s: string): (r: string)
    ensures exists i | 0 <= i <= |s| - |r| ::
              r == s[i..i + |r|] && AllWhiteSpace(s[..i]) && AllWhiteSpace(s[i + |r|..])
    ensures Trimmed(r)
  {
    var lo := LeadingEnd(s, 0);
    var hi := TrailingStart(s, lo, |s|);
    var r := s[lo..hi];
    assert lo + |r| == hi;
    assert AllWhiteSpace(s[..lo]) && AllWhiteSpace(s[hi..]);
    assert r != [] ==> r[0] == s[lo] && r[|r| - 1] == s[hi - 1];
    r
  }

  /** No white space at either end. */
  predicate Trimmed(s: string) {
    s == [] || (!IsWhiteSpace(s[0]) && !IsWhiteSpace(s[|s| - 1]))
  }

  /** Trimming leaves a string unchanged exactly when it has no white space at either end. */
  lemma TrimFixedPoint(s: string)
    ensures Trim(s) == s <==> Trimmed(s)
  {
    if Trimmed(s) && s != [] {
      assert LeadingEnd(s, 0) == 0;
      assert TrailingStart(s, 0, |s|) == |s|;
      assert s[0..|s|] == s;
    }
  }

  /** Trimming twice is trimming once. */
  lemma TrimIdempotent(s: string)
    ensures Trim(Trim(s)) == Trim(s)
  {
    TrimFixedPoint(Trim(s));
  }

  /** Trimming gives the empty string exactly when the string is all white space. */
  lemma TrimAllWhiteSpace(s: string)
    ensures Trim(s) == "" <==> AllWhiteSpace(s)
  {
    var lo := LeadingEnd(s, 0);
    if Trim(s) == "" {
      assert TrailingStart(s, lo, |s|) == lo;
      forall k | 0 <= k < |s| ensures IsWhiteSpace(s[k]) {
      }
    }
  }
}
