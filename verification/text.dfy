/** Byte-string helpers with the meaning of Go's `strings.Contains`,
    `strings.Split` and (ASCII) `strings.ToLower`. */
module Text {

  /** `sub` occurs in `s` starting at offset `i`. */
  predicate OccursAt(s: string, sub: string, i: nat)
  {
    i + |sub| <= |s| && s[i..i + |sub|] == sub
  }

  /** `strings.Contains(s, sub)`: some offset of `s` starts an occurrence of `sub`. */
  predicate Contains(s: string, sub: string)
  {
    exists i: nat | i <= |s| :: OccursAt(s, sub, i)
  }

  /** The inverse of splitting: the parts with `sep` between consecutive ones. */
  function Join(parts: seq<string>, sep: string): (joined: string)
    requires |parts| > 0
    decreases |parts|
  {
    if |parts| == 1 then parts[0] else parts[0] + sep + Join(parts[1..], sep)
  }

  /** `strings.Split(s, sep)` for a non-empty separator: cut `s` at every
      occurrence of `sep`, scanning left to right. The empty string gives one
      empty part. */
  function Split(s: string, sep: string): (parts: seq<string>)
    requires |sep| > 0
    ensures |parts| > 0
    ensures |parts| <= |s| + 1
    decreases |s|
  {
    if |s| < |sep| then [s]
    else if s[..|sep|] == sep then [""] + Split(s[|sep|..], sep)
    else
      var rest := Split(s[1..], sep);
      [[s[0]] + rest[0]] + rest[1..]
  }

  /** ASCII lower-casing of one byte. */
  function LowerChar(c: char): (r: char)
  {
    if 'A' <= c <= 'Z' then (c as int + 32) as char else c
  }

  /** ASCII lower-casing of a byte string. */
  function Lower(s: string): (r: string)
    ensures |r| == |s|
    // No upper-case ASCII letter is left.
    ensures forall i :: 0 <= i < |r| ==> !('A' <= r[i] <= 'Z')
    // Upper-case ASCII letters become their lower-case partner; every other byte is kept.
    ensures forall i :: 0 <= i < |s| && 'A' <= s[i] <= 'Z' ==> r[i] as int == s[i] as int + 32
    ensures forall i :: 0 <= i < |s| && !('A' <= s[i] <= 'Z') ==> r[i] == s[i]
  {
    seq(|s|, i requires 0 <= i < |s| => LowerChar(s[i]))
  }

  /** Lower-casing twice is lower-casing once. */
  lemma LowerIdempotent(s: string)
    ensures Lower(Lower(s)) == Lower(s)
  {
  }

  /** `strings.Repeat(" ", n)`. */
  function Spaces(n: nat): (r: string)
    ensures |r| == n
    ensures forall i :: 0 <= i < n ==> r[i] == ' '
  {
    seq(n, i => ' ')
  }

  /** The first part is a prefix of the joined string. */
  lemma {:induction false} JoinStartsWithFirst(parts: seq<string>, sep: string)
    requires |parts| > 0
    ensures |parts[0]| <= |Join(parts, sep)|
    ensures Join(parts, sep)[..|parts[0]|] == parts[0]
  {
  }

  /** Joining the parts of a split gives back the original string. */
  lemma {:induction false} SplitJoin(s: string, sep: string)
    requires |sep| > 0
    ensures Join(Split(s, sep), sep) == s
    decreases |s|
  {
    if |s| < |sep| {
    } else if s[..|sep|] == sep {
      var tail := Split(s[|sep|..], sep);
      SplitJoin(s[|sep|..], sep);
      assert Split(s, sep) == [""] + tail;
      assert ([""] + tail)[1..] == tail;
      assert s == sep + s[|sep|..];
    } else {
      var rest := Split(s[1..], sep);
      SplitJoin(s[1..], sep);
      var parts := [[s[0]] + rest[0]] + rest[1..];
      assert Split(s, sep) == parts;
      assert s == [s[0]] + s[1..];
      if |rest| == 1 {
        assert Join(parts, sep) == [s[0]] + rest[0];
      } else {
        assert parts[1..] == rest[1..];
        assert Join(parts, sep) == ([s[0]] + rest[0]) + sep + Join(rest[1..], sep);
        assert Join(rest, sep) == rest[0] + sep + Join(rest[1..], sep);
      }
    }
  }

  /** No part of a split contains the separator. */
  lemma {:induction false} SplitPartsFree(s: string, sep: string)
    requires |sep| > 0
    ensures forall k :: 0 <= k < |Split(s, sep)| ==> !Contains(Split(s, sep)[k], sep)
    decreases |s|
  {
    var parts := Split(s, sep);
    if |s| < |sep| {
      assert parts == [s];
      forall i: nat | i <= |s| ensures !OccursAt(s, sep, i) {}
    } else if s[..|sep|] == sep {
      var tail := Split(s[|sep|..], sep);
      SplitPartsFree(s[|sep|..], sep);
      assert parts == [""] + tail;
      forall k | 0 <= k < |parts| ensures !Contains(parts[k], sep) {
        if k == 0 {
          forall i: nat | i <= 0 ensures !OccursAt("", sep, i) {}
        } else {
          assert parts[k] == tail[k - 1];
        }
      }
    } else {
      var rest := Split(s[1..], sep);
      SplitPartsFree(s[1..], sep);
      SplitJoin(s[1..], sep);
      JoinStartsWithFirst(rest, sep);
      var first := [s[0]] + rest[0];
      assert parts == [first] + rest[1..];
      assert first == s[..|first|] by {
        assert s == [s[0]] + Join(rest, sep);
      }
      forall i: nat | i <= |first| ensures !OccursAt(first, sep, i) {
        if i > 0 && OccursAt(first, sep, i) {
          assert first[i..i + |sep|] == rest[0][i - 1..i - 1 + |sep|];
          assert OccursAt(rest[0], sep, i - 1);
        }
      }
      forall k | 0 <= k < |parts| ensures !Contains(parts[k], sep) {
        if k > 0 {
          assert parts[k] == rest[k];
        }
      }
    }
  }

  /** An occurrence of `needle` that overlaps the gap in `x + gap + y` uses a
      byte of the gap. */
  lemma StraddleUsesGapByte(x: string, gap: string, y: string, needle: string, i: nat)
    requires OccursAt(x + gap + y, needle, i)
    requires |needle| > 0 && |gap| > 0
    requires |x| < i + |needle| && i < |x| + |gap|
    ensures exists k :: 0 <= k < |gap| && gap[k] in needle
  {
    var s := x + gap + y;
    var p := if i < |x| then |x| else i;
    assert s[p] == s[i..i + |needle|][p - i] == needle[p - i];
    assert s[p] == gap[p - |x|];
    assert gap[p - |x|] in needle;
  }

  /** An occurrence of `needle` cannot straddle a gap built only from bytes
      that `needle` does not use. */
  lemma ContainsAroundGap(x: string, gap: string, y: string, needle: string)
    requires |needle| > 0 && |gap| > 0
    requires forall k :: 0 <= k < |gap| ==> gap[k] !in needle
    ensures Contains(x + gap + y, needle) <==> Contains(x, needle) || Contains(y, needle)
  {
    var s := x + gap + y;
    var n := |needle|;
    if Contains(x, needle) {
      var i: nat :| i <= |x| && OccursAt(x, needle, i);
      assert s[i..i + n] == x[i..i + n];
      assert OccursAt(s, needle, i);
    }
    if Contains(y, needle) {
      var i: nat :| i <= |y| && OccursAt(y, needle, i);
      var j := |x| + |gap| + i;
      assert s[j..j + n] == y[i..i + n];
      assert OccursAt(s, needle, j);
    }
    if Contains(s, needle) {
      var i: nat :| i <= |s| && OccursAt(s, needle, i);
      if i + n <= |x| {
        assert x[i..i + n] == s[i..i + n];
        assert OccursAt(x, needle, i);
      } else if i >= |x| + |gap| {
        var j := i - |x| - |gap|;
        assert y[j..j + n] == s[i..i + n];
        assert OccursAt(y, needle, j);
      } else {
        StraddleUsesGapByte(x, gap, y, needle, i);
        assert false;
      }
    }
  }

  /** Searching the joined string is searching each part, when the separator
      shares no byte with the needle. */
  lemma {:induction false} ContainsJoin(parts: seq<string>, sep: string, needle: string)
    requires |parts| > 0 && |sep| > 0 && |needle| > 0
    requires forall k :: 0 <= k < |sep| ==> sep[k] !in needle
    ensures Contains(Join(parts, sep), needle) <==>
            exists k :: 0 <= k < |parts| && Contains(parts[k], needle)
    decreases |parts|
  {
    if |parts| > 1 {
      var tail := parts[1..];
      ContainsJoin(tail, sep, needle);
      ContainsAroundGap(parts[0], sep, Join(tail, sep), needle);
      if exists k :: 0 <= k < |parts| && Contains(parts[k], needle) {
        var k :| 0 <= k < |parts| && Contains(parts[k], needle);
        if k > 0 {
          assert tail[k - 1] == parts[k];
        }
      }
      if exists k :: 0 <= k < |tail| && Contains(tail[k], needle) {
        var k :| 0 <= k < |tail| && Contains(tail[k], needle);
        assert parts[k + 1] == tail[k];
      }
    }
  }
}
